/**
 Decimal numbers in text: printing in the shortest form, and reading back a
 signed 32-bit number from the front of a text, as the C++ library's
 to_chars and from_chars do.
 */
module Decimal {
  import opened Bytes

  type int32 = x: int | -0x8000_0000 <= x < 0x8000_0000

  /** Conversion to a 32-bit signed number, keeping the low 32 bits. */
  function WrapInt32(x: int): int32 {
    (x + 0x8000_0000) % 0x1_0000_0000 - 0x8000_0000
  }

  /** It keeps numbers that fit, and changes others by a multiple of 2^32. */
  lemma WrapMeans(x: int)
    ensures -0x8000_0000 <= x < 0x8000_0000 ==> WrapInt32(x) == x
    ensures (WrapInt32(x) - x) % 0x1_0000_0000 == 0
  {
    var y := x + 0x8000_0000;
    assert y % 0x1_0000_0000 - y == -(y / 0x1_0000_0000) * 0x1_0000_0000;
  }

  predicate IsDigit(c: byte) { '0' <= c <= '9' }

  predicate AllDigits(s: bytes) { forall i :: 0 <= i < |s| ==> IsDigit(s[i]) }

  function DigitByte(d: nat): byte
    requires d < 10
  {
    ('0' as int + d) as char
  }

  function DigitValue(c: byte): nat
    requires IsDigit(c)
  {
    c as int - '0' as int
  }

  /** The number a digit string denotes. */
  function NatValue(s: bytes): nat
    requires AllDigits(s)
  {
    if s == [] then 0 else 10 * NatValue(s[..|s| - 1]) + DigitValue(s[|s| - 1])
  }

  /** The shortest decimal text of n. */
  function Digits(n: nat): (s: bytes)
    ensures s != [] && AllDigits(s)
  {
    if n < 10 then [DigitByte(n)] else Digits(n / 10) + [DigitByte(n % 10)]
  }

  function ToChars(n: int): (s: bytes)
    ensures s != []
  {
    if n < 0 then ['-'] + Digits(-n) else Digits(n)
  }

  /** The length of the run of digits at the front of s. */
  function DigitRun(s: bytes): (n: nat)
    ensures n <= |s| && AllDigits(s[..n])
    ensures n < |s| ==> !IsDigit(s[n])
  {
    if s == [] || !IsDigit(s[0]) then 0 else 1 + DigitRun(s[1..])
  }

  /** What reading a number from the front of a text yields. */
  datatype FromCharsResult = Invalid | OutOfRange | Parsed(value: int32, length: nat)

  /** Reads the digits after an optional sign of the given width. */
  function FromDigitsOf(s: bytes, sign: nat): (r: FromCharsResult)
    requires sign <= 1
    ensures r.Parsed? ==> sign < r.length <= sign + |s|
  {
    var n := DigitRun(s);
    if n == 0 then Invalid
    else
      var magnitude: int := NatValue(s[..n]);
      var x := if sign == 1 then -magnitude else magnitude;
      if -0x8000_0000 <= x < 0x8000_0000 then Parsed(x, sign + n) else OutOfRange
  }

  function FromChars(s: bytes): (r: FromCharsResult)
    ensures r.Parsed? ==> 0 < r.length <= |s|
  {
    if s != [] && s[0] == '-' then FromDigitsOf(s[1..], 1) else FromDigitsOf(s, 0)
  }

  lemma {:induction false} DigitsDenote(n: nat)
    ensures NatValue(Digits(n)) == n
  {
    if n >= 10 {
      DigitsDenote(n / 10);
      assert Digits(n)[..|Digits(n)| - 1] == Digits(n / 10);
    }
  }

  lemma {:induction false} DigitRunIs(s: bytes, n: nat)
    requires n <= |s| && AllDigits(s[..n])
    requires n < |s| ==> !IsDigit(s[n])
    ensures DigitRun(s) == n
  {
    if n > 0 {
      assert IsDigit(s[..n][0]);
      assert s[1..][..n - 1] == s[..n][1..];
      DigitRunIs(s[1..], n - 1);
    }
  }

  lemma FromDigitsRun(d: bytes, rest: bytes, sign: nat)
    requires sign <= 1
    requires d != [] && AllDigits(d)
    requires rest != [] ==> !IsDigit(rest[0])
    requires NatValue(d) <= 0x7FFF_FFFF + sign
    ensures FromDigitsOf(d + rest, sign) == Parsed(if sign == 1 then 0 - NatValue(d) else NatValue(d), sign + |d|)
  {
    hide NatValue, DigitRun;
    SumParts(d, rest);
    assert rest != [] ==> (d + rest)[|d|] == rest[0];
    DigitRunIs(d + rest, |d|);
  }

  lemma FromCharsUnsigned(d: bytes, rest: bytes)
    requires d != [] && AllDigits(d) && NatValue(d) < 0x8000_0000
    requires rest != [] ==> !IsDigit(rest[0])
    ensures FromChars(d + rest) == Parsed(NatValue(d), |d|)
  {
    assert (d + rest)[0] == d[0] && IsDigit(d[0]);
    FromDigitsRun(d, rest, 0);
  }

  lemma FromCharsSigned(s: bytes)
    ensures FromChars(['-'] + s) == FromDigitsOf(s, 1)
  {
    assert (['-'] + s)[1..] == s;
  }

  lemma FromCharsNegative(d: bytes, rest: bytes)
    requires d != [] && AllDigits(d) && NatValue(d) <= 0x8000_0000
    requires rest != [] ==> !IsDigit(rest[0])
    ensures FromChars(['-'] + d + rest) == Parsed(0 - NatValue(d), 1 + |d|)
  {
    var unsigned := d + rest;
    FromDigitsRun(d, rest, 1);
    FromCharsSigned(unsigned);
    Assoc(['-'], d, rest);
  }

  /** Reading back a printed number yields that number, whatever non-digit follows it. */
  lemma FromToChars(n: int32, rest: bytes)
    requires rest != [] ==> !IsDigit(rest[0])
    ensures FromChars(ToChars(n) + rest) == Parsed(n, |ToChars(n)|)
  {
    var k: int := n;
    if k < 0 {
      DigitsDenote(-k);
      FromCharsNegative(Digits(-k), rest);
    } else {
      DigitsDenote(k);
      FromCharsUnsigned(Digits(k), rest);
    }
  }

  /** A digit string of small value is read whole. */
  lemma FromDigits(s: bytes)
    requires s != [] && AllDigits(s) && NatValue(s) < 0x8000_0000
    ensures FromChars(s) == Parsed(NatValue(s), |s|)
  {
    assert s + [] == s;
    FromCharsUnsigned(s, []);
  }

  // ----- what is read -----

  /** The text is a decimal number, perhaps with a minus sign, and denotes n. */
  ghost predicate Denotes(s: bytes, n: int) {
    || (s != [] && AllDigits(s) && NatValue(s) == n)
    || (|s| > 1 && s[0] == '-' && AllDigits(s[1..]) && 0 - NatValue(s[1..]) == n)
  }

  /** The text begins with a decimal number, as long as can be, that denotes n and takes 32 bits. */
  ghost predicate BeginsWith(s: bytes, n: int) {
    && -0x8000_0000 <= n < 0x8000_0000
    && exists k :: 0 < k <= |s| && Denotes(s[..k], n) && (k < |s| ==> !('0' <= s[k] <= '9'))
  }

  /** Reading yields n exactly from the texts that begin with n. */
  lemma ReadingMeans(s: bytes, n: int)
    ensures BeginsWith(s, n) <==> FromChars(s).Parsed? && FromChars(s).value == n
  {
    hide NatValue, DigitRun;
    if BeginsWith(s, n) {
      var k :| 0 < k <= |s| && Denotes(s[..k], n) && (k < |s| ==> !('0' <= s[k] <= '9'));
      ReadingIs(s, n, k);
    }
    if FromChars(s).Parsed? && FromChars(s).value == n {
      ReadingGives(s);
    }
  }

  lemma ReadingIs(s: bytes, n: int32, k: nat)
    requires 0 < k <= |s| && Denotes(s[..k], n) && (k < |s| ==> !('0' <= s[k] <= '9'))
    ensures FromChars(s) == Parsed(n, k)
  {
    hide NatValue, DigitRun;
    var d, rest := s[..k], s[k..];
    assert s == d + rest;
    if AllDigits(d) {
      FromCharsUnsigned(d, rest);
    } else {
      assert d == ['-'] + d[1..];
      FromCharsNegative(d[1..], rest);
    }
  }

  lemma ReadingGives(s: bytes)
    requires FromChars(s).Parsed?
    ensures var r := FromChars(s);
            && Denotes(s[..r.length], r.value)
            && (r.length < |s| ==> !('0' <= s[r.length] <= '9'))
  {
    hide NatValue, DigitRun;
    var r := FromChars(s);
    if s[0] == '-' {
      var t := s[1..];
      assert s[..r.length][1..] == t[..r.length - 1];
      assert r.length < |s| ==> s[r.length] == t[r.length - 1];
    } else {
      assert DigitRun(s) == r.length;
    }
  }

  /** A whole text is a number exactly when it denotes one of 32 bits. */
  lemma WholeReadingMeans(s: bytes, n: int32)
    ensures FromChars(s) == Parsed(n, |s|) <==> Denotes(s, n)
  {
    hide NatValue, DigitRun, FromChars;
    assert s[..|s|] == s;
    if Denotes(s, n) {
      ReadingIs(s, n, |s|);
    }
    if FromChars(s) == Parsed(n, |s|) {
      ReadingGives(s);
    }
  }

  /** The three digits of a checksum. */
  function ThreeDigits(c: nat): (s: bytes)
    requires c < 256
    ensures |s| == 3 && AllDigits(s)
  {
    [DigitByte(c / 100), DigitByte((c / 10) % 10), DigitByte(c % 10)]
  }

  lemma ThreeDigitsDenote(c: nat)
    requires c < 256
    ensures FromChars(ThreeDigits(c)) == Parsed(c, 3)
  {
    var s := ThreeDigits(c);
    assert s[..2] == [DigitByte(c / 100), DigitByte((c / 10) % 10)];
    assert s[..2][..1] == [DigitByte(c / 100)];
    assert s[..2][..1][..0] == [];
    assert NatValue(s[..2][..1]) == c / 100;
    assert NatValue(s[..2]) == c / 10;
    assert NatValue(s) == c;
    FromDigits(s);
  }

  /** The k-th power of ten. */
  function Pow10(k: nat): (p: nat)
    ensures p > 0
  {
    if k == 0 then 1 else 10 * Pow10(k - 1)
  }

  /** A number takes at most k digits exactly when it is below 10^k. */
  lemma {:induction false} DigitsLength(n: nat, k: nat)
    requires k > 0
    ensures n < Pow10(k) <==> |Digits(n)| <= k
  {
    if n >= 10 {
      if k == 1 {
        assert Pow10(1) == 10 * Pow10(0) == 10;
      } else {
        DigitsLength(n / 10, k - 1);
      }
    } else {
      assert Pow10(k) == 10 * Pow10(k - 1) >= 10;
    }
  }
}
