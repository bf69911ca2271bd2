/**
 Which written messages framing cuts out whole. Framing stops at the first
 "10=", which need not be the trailer: a tag that ends in 10, or a value that
 holds "10=", cuts a message short.
 */
module Framability {
  import opened Bytes
  import opened Decimal
  import opened Codec
  import opened CodecLaws
  import opened Framing

  /** A message that framing cuts out whole: it begins with "8=" and ends where its first "10=" field does. */
  ghost predicate Framable(w: bytes, sep: Separator) {
    OccursAt(w, HEAD, 0) && MessageEnd(w, sep) == Some(|w|)
  }

  /** The text holds "10=" somewhere. */
  ghost predicate HoldsTrailer(s: bytes) {
    exists i: nat :: OccursAt(s, TRAILER, i)
  }

  /** The decimal text of the tag ends in 10. */
  predicate EndsInTen(tag: int) {
    (if tag < 0 then -tag else tag) % 100 == 10
  }

  /** No value to be written holds "10=", and no tag to be written ends in 10. */
  ghost predicate FramesWhole(fields: seq<Field>)
    requires fields != []
  {
    && !HoldsTrailer(fields[0].value)
    && forall f :: f in Kept(fields[1..]) ==> !HoldsTrailer(f.value) && !EndsInTen(f.tag)
  }

  /** Written messages are framed whole exactly when neither their values nor their tags fake a trailer. */
  lemma WireIsFramable(fields: seq<Field>, sep: Separator)
    requires fields != []
    ensures Framable(Wire(fields, sep), sep) <==> FramesWhole(fields)
  {
    hide Framable, HoldsTrailer, Wire, FrontText, IndexOfText, SummedBytes, Canonical, Render, BodyBytes, Kept,
         GoodTags, EndsInTen, FramesWhole, FakesTrailer, WireTokens, TokenOf, TokensOf, Digits, BodyText, ThreeDigits;
    var tokens := WireTokens(fields, sep);
    FramableByTrailer(fields, sep);
    WireRenders(fields, sep);
    WireTokensSplit(fields, sep);
    var front := tokens[..|tokens| - 1];
    SummedIs(tokens, sep);
    FieldsHoldTrailer(fields, sep, front);
    TokensHoldTrailer(front, sep);
  }

  /** A message with an ordinary tag that framing cuts short: 8=F, 110=5. */
  lemma TagOneTenIsCutShort(sep: Separator)
    ensures !Framable(Wire([Field(8, "F"), Field(110, "5")], sep), sep)
  {
    var fields := [Field(8, "F"), Field(110, "5")];
    WireIsFramable(fields, sep);
    KeptMembers(fields[1..]);
    assert fields[1] in fields[1..] && fields[1] in Kept(fields[1..]);
  }

  lemma SummedIs(tokens: seq<Token>, sep: Separator)
    requires tokens != []
    ensures SummedBytes(tokens, sep) == Render(tokens[..|tokens| - 1], sep)
  {
  }

  // ----- "10=" in tokens -----

  /** A token whose bytes hold "10=". */
  ghost predicate FakesTrailer(t: Token) {
    HoldsTrailer(t.value) || (|t.text| >= 2 && t.text[|t.text| - 2..] == "10")
  }

  predicate GoodTag(text: bytes) {
    '=' !in text
  }

  ghost predicate GoodTags(tokens: seq<Token>) {
    forall i :: 0 <= i < |tokens| ==> GoodTag(tokens[i].text)
  }

  lemma {:induction false} TokensHoldTrailer(tokens: seq<Token>, sep: Separator)
    requires GoodTags(tokens)
    ensures HoldsTrailer(Render(tokens, sep)) <==> exists i :: 0 <= i < |tokens| && FakesTrailer(tokens[i])
  {
    hide HoldsTrailer, FakesTrailer, TokenBytes, GoodTag;
    if tokens == [] {
      NothingHeld();
    } else {
      var t, rest := tokens[0], tokens[1..];
      TokensHoldTrailer(rest, sep);
      TokenHoldsTrailer(t, sep);
      EndsWithSeparator(t, sep);
      SumHoldsTrailer(TokenBytes(t, sep), Render(rest, sep), sep);
      assert forall i :: 0 <= i < |rest| ==> rest[i] == tokens[i + 1];
      assert forall i :: 1 <= i < |tokens| ==> tokens[i] == rest[i - 1];
    }
  }

  lemma NothingHeld()
    ensures !HoldsTrailer([])
  {
  }

  lemma EndsWithSeparator(t: Token, sep: Separator)
    ensures var b := TokenBytes(t, sep);
            b != [] && b[|b| - 1] == sep
  {
  }

  /** A separator never stands in "10=", so the text does not straddle it. */
  lemma SumHoldsTrailer(a: bytes, b: bytes, sep: Separator)
    requires a != [] && a[|a| - 1] == sep
    ensures HoldsTrailer(a + b) <==> HoldsTrailer(a) || HoldsTrailer(b)
  {
    hide OccursAt;
    var s, n := a + b, |a|;
    forall i: nat | OccursAt(s, TRAILER, i)
      ensures HoldsTrailer(a) || HoldsTrailer(b)
    {
      OccursMeans(s, i);
      assert s[n - 1] == sep;
      if i + 3 <= n {
        OccursMeans(a, i);
      } else {
        assert i >= n;
        OccursMeans(b, i - n);
      }
    }
    forall i: nat | OccursAt(a, TRAILER, i)
      ensures HoldsTrailer(s)
    {
      OccursMeans(a, i);
      OccursMeans(s, i);
    }
    forall i: nat | OccursAt(b, TRAILER, i)
      ensures HoldsTrailer(s)
    {
      OccursMeans(b, i);
      OccursMeans(s, n + i);
    }
  }

  lemma OccursMeans(s: bytes, i: nat)
    ensures OccursAt(s, TRAILER, i) <==> i + 3 <= |s| && s[i] == '1' && s[i + 1] == '0' && s[i + 2] == '='
  {
    if i + 3 <= |s| {
      assert s[i..i + 3] == [s[i], s[i + 1], s[i + 2]];
    }
  }

  lemma TokenBytesAt(t: Token, sep: Separator)
    ensures var b, n := TokenBytes(t, sep), |t.text|;
            && |b| == n + |t.value| + 2
            && (forall k :: 0 <= k < n ==> b[k] == t.text[k])
            && b[n] == '='
            && (forall k :: 0 <= k < |t.value| ==> b[n + 1 + k] == t.value[k])
            && b[n + 1 + |t.value|] == sep
  {
  }

  lemma TokenHoldsTrailer(t: Token, sep: Separator)
    requires GoodTag(t.text)
    ensures HoldsTrailer(TokenBytes(t, sep)) <==> FakesTrailer(t)
  {
    hide OccursAt, TokenBytes;
    var b := TokenBytes(t, sep);
    forall i: nat | OccursAt(b, TRAILER, i)
      ensures FakesTrailer(t)
    {
      TokenFakes(t, sep, i);
    }
    if FakesTrailer(t) {
      FakeIsHeld(t, sep);
    }
  }

  lemma TokenFakes(t: Token, sep: Separator, i: nat)
    requires GoodTag(t.text) && OccursAt(TokenBytes(t, sep), TRAILER, i)
    ensures FakesTrailer(t)
  {
    hide OccursAt, TokenBytes;
    var b, n := TokenBytes(t, sep), |t.text|;
    TokenBytesAt(t, sep);
    OccursMeans(b, i);
    assert forall k :: 0 <= k < n ==> b[k] != '=';
    if i + 2 == n {
      assert t.text[n - 2..] == [b[i], b[i + 1]];
    } else {
      assert i > n;
      OccursMeans(t.value, i - n - 1);
    }
  }

  lemma FakeIsHeld(t: Token, sep: Separator)
    requires FakesTrailer(t)
    ensures HoldsTrailer(TokenBytes(t, sep))
  {
    hide OccursAt, TokenBytes;
    var b, n := TokenBytes(t, sep), |t.text|;
    TokenBytesAt(t, sep);
    if HoldsTrailer(t.value) {
      var i: nat :| OccursAt(t.value, TRAILER, i);
      OccursMeans(t.value, i);
      OccursMeans(b, n + 1 + i);
    } else {
      assert t.text[n - 2..][0] == b[n - 2] && t.text[n - 2..][1] == b[n - 1];
      OccursMeans(b, n - 2);
    }
  }

  // ----- tags that end in 10 -----

  lemma DigitsLast(n: nat)
    ensures var d := Digits(n);
            d[|d| - 1] == DigitByte(n % 10)
  {
  }

  lemma TensAndOnes(n: nat)
    ensures n % 100 == 10 * (n / 10 % 10) + n % 10
  {
    var q := n / 100;
    assert n == 100 * q + n % 100;
    assert n / 10 == 10 * q + n % 100 / 10;
  }

  lemma DigitsEnd(n: nat)
    ensures var d := Digits(n);
            (|d| >= 2 && d[|d| - 2..] == "10") <==> n % 100 == 10
  {
    TensAndOnes(n);
    if n >= 10 {
      TwoDigits(n);
    }
  }

  lemma TwoDigits(n: nat)
    requires n >= 10
    ensures var d := Digits(n);
            |d| >= 2 && d[|d| - 2..] == [DigitByte(n / 10 % 10), DigitByte(n % 10)]
  {
    var d, e := Digits(n), Digits(n / 10);
    DigitsLast(n / 10);
    assert d == e + [DigitByte(n % 10)];
  }

  lemma TagEnd(tag: int)
    ensures var s := ToChars(tag);
            && ((|s| >= 2 && s[|s| - 2..] == "10") <==> EndsInTen(tag))
            && GoodTag(s)
  {
    hide Digits;
    var n := if tag < 0 then -tag else tag;
    DigitsEnd(n);
    SignedEnd(Digits(n));
    SignedIsGood(Digits(n));
  }

  /** A sign does not change whether a text of digits ends in 10. */
  lemma SignedEnd(d: bytes)
    requires d != []
    ensures var s := ['-'] + d;
            |s| >= 2 && (s[|s| - 2..] == "10" <==> |d| >= 2 && d[|d| - 2..] == "10")
  {
    var s := ['-'] + d;
    if |d| >= 2 {
      assert s[|s| - 2..] == d[|d| - 2..];
    } else {
      assert s[|s| - 2..][0] == '-';
    }
  }

  lemma SignedIsGood(d: bytes)
    requires AllDigits(d)
    ensures GoodTag(d) && GoodTag(['-'] + d)
  {
    assert forall i :: 0 <= i < |d| ==> d[i] != '=';
  }

  lemma FieldFakes(f: Field)
    ensures FakesTrailer(TokenOf(f)) <==> HoldsTrailer(f.value) || EndsInTen(f.tag)
    ensures GoodTag(TokenOf(f).text)
  {
    hide HoldsTrailer, EndsInTen, ToChars, GoodTag;
    TagEnd(f.tag);
  }

  lemma DigitsHoldNothing(n: nat)
    ensures !HoldsTrailer(Digits(n))
  {
    var d := Digits(n);
    forall i: nat
      ensures !OccursAt(d, TRAILER, i)
    {
      OccursMeans(d, i);
      assert i + 2 < |d| ==> IsDigit(d[i + 2]);
    }
  }

  /** The tokens before the trailer fake one exactly when the fields do. */
  lemma FieldsHoldTrailer(fields: seq<Field>, sep: Separator, front: seq<Token>)
    requires fields != [] && front + [WireTrailer(fields, sep)] == WireTokens(fields, sep)
    ensures GoodTags(front)
    ensures (exists i :: 0 <= i < |front| && FakesTrailer(front[i])) <==> !FramesWhole(fields)
  {
    hide HoldsTrailer, FakesTrailer, EndsInTen, GoodTag, Digits, BodyText, FrontText, Kept, TokenOf, WireTokens,
         TokensOf, ThreeDigits;
    var f8, f9 := Field(8, fields[0].value), Field(9, Digits(|BodyText(fields, sep)|));
    WireTokensSplit(fields, sep);
    assert front == WireTokens(fields, sep)[..|front|];
    FieldFakes(f8);
    FieldFakes(f9);
    DigitsHoldNothing(|BodyText(fields, sep)|);
    FramingTagsEnd();
    KeptHoldTrailer(TokenOf(f8), TokenOf(f9), front, Kept(fields[1..]));
  }

  function WireTrailer(fields: seq<Field>, sep: Separator): Token
    requires fields != []
  {
    TokenOf(Field(10, ThreeDigits(Sum(FrontText(fields, sep)) % 256)))
  }

  lemma KeptHoldTrailer(t8: Token, t9: Token, front: seq<Token>, kept: seq<Field>)
    requires front == [t8, t9] + TokensOf(kept)
    requires GoodTag(t8.text) && GoodTag(t9.text) && !FakesTrailer(t9)
    ensures GoodTags(front)
    ensures (exists i :: 0 <= i < |front| && FakesTrailer(front[i])) <==>
            FakesTrailer(t8) || exists f :: f in kept && (HoldsTrailer(f.value) || EndsInTen(f.tag))
  {
    hide HoldsTrailer, FakesTrailer, EndsInTen, GoodTag, TokenOf;
    KeptTokens(kept);
    forall i | 0 <= i < |front|
      ensures GoodTag(front[i].text)
      ensures FakesTrailer(front[i]) ==>
                FakesTrailer(t8) || exists f :: f in kept && (HoldsTrailer(f.value) || EndsInTen(f.tag))
    {
      if i >= 2 {
        FieldFakes(kept[i - 2]);
        assert front[i] == TokenOf(kept[i - 2]) && kept[i - 2] in kept;
      }
    }
    forall f | f in kept && (HoldsTrailer(f.value) || EndsInTen(f.tag))
      ensures exists i :: 0 <= i < |front| && FakesTrailer(front[i])
    {
      var i :| 0 <= i < |kept| && kept[i] == f;
      FieldFakes(f);
      assert FakesTrailer(front[i + 2]);
    }
    assert FakesTrailer(t8) ==> FakesTrailer(front[0]);
  }

  lemma KeptTokens(kept: seq<Field>)
    ensures forall i :: 0 <= i < |kept| ==> TokensOf(kept)[i] == TokenOf(kept[i])
  {
  }

  lemma FramingTagsEnd()
    ensures !EndsInTen(8) && !EndsInTen(9)
  {
  }

  // ----- the trailer found first -----

  /** A written message is framable exactly when "10=" does not occur in what precedes its trailer. */
  lemma FramableByTrailer(fields: seq<Field>, sep: Separator)
    requires fields != []
    ensures Framable(Wire(fields, sep), sep) <==> !HoldsTrailer(FrontText(fields, sep))
  {
    hide IndexOfText, FrontText, ThreeDigits, SummedBytes, BodyBytes, WireTokens, Render, HoldsTrailer;
    var front, w := FrontText(fields, sep), Wire(fields, sep);
    var checksum := ThreeDigits(Sum(front) % 256);
    WireShape(fields, sep, front, checksum);
    WireRenders(fields, sep);
    SummedEnd(WireTokens(fields, sep), sep);
    assert w[..|front|] == front;
    TrailerComesFirst(front, w, sep);
    var i := IndexOfText(w, TRAILER);
    if i == |front| {
      TrailerEnd(checksum, sep);
    } else if i < |front| {
      EarlyEnd(w, sep, i, |front|);
    }
  }

  lemma WireShape(fields: seq<Field>, sep: Separator, front: bytes, checksum: bytes)
    requires fields != [] && front == FrontText(fields, sep) && checksum == ThreeDigits(Sum(front) % 256)
    ensures var w := Wire(fields, sep);
            && |w| == |front| + 7
            && OccursAt(w, HEAD, 0)
            && OccursAt(w, TRAILER, |front|)
            && w[|front|..] == TRAILER + checksum + [sep]
            && IndexOfText(w, TRAILER) <= |front|
  {
    hide IndexOfText, ThreeDigits, BodyText;
    var w := Wire(fields, sep);
    assert w[0..2] == HEAD;
    assert w[|front|..|front| + 3] == TRAILER;
  }

  lemma TrailerEnd(checksum: bytes, sep: Separator)
    requires |checksum| == 3 && AllDigits(checksum)
    ensures IndexOf(TRAILER + checksum + [sep], sep) == 6
  {
    var t := TRAILER + checksum + [sep];
    assert forall k :: 3 <= k < 6 ==> t[k] == checksum[k - 3] && IsDigit(checksum[k - 3]);
    IndexOfIs(t, sep, 6);
  }

  /** Framing at an earlier "10=" either stops before the trailer or at its end. */
  lemma EarlyEnd(w: bytes, sep: Separator, i: nat, front: nat)
    requires i == IndexOfText(w, TRAILER) && i < front && front + 7 == |w|
    requires front > 0 && w[front - 1] == sep
    ensures MessageEnd(w, sep) != Some(|w|)
  {
    hide IndexOfText;
    var n := IndexOf(w[i..], sep);
    assert w[i..][front - 1 - i] == sep;
  }

  /** The trailer is found first exactly when the front holds no "10=". */
  lemma TrailerComesFirst(front: bytes, w: bytes, sep: Separator)
    requires front != [] && front[|front| - 1] == sep && front <= w && OccursAt(w, TRAILER, |front|)
    ensures IndexOfText(w, TRAILER) == |front| <==> !HoldsTrailer(front)
  {
    hide OccursAt, IndexOfText;
    var i := IndexOfText(w, TRAILER);
    if !HoldsTrailer(front) {
      forall k: nat | k < |front|
        ensures !OccursAt(w, TRAILER, k)
      {
        OccursMeans(w, k);
        OccursMeans(front, k);
        assert w[|front| - 1] == front[|front| - 1];
        assert forall j :: 0 <= j < |front| ==> w[j] == front[j];
      }
      OccursMeans(w, |front|);
      IndexOfTextIs(w, TRAILER, |front|);
    } else {
      var k: nat :| OccursAt(front, TRAILER, k);
      OccursMeans(front, k);
      OccursMeans(w, k);
    }
  }
}
