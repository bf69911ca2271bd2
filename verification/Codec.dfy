/**
 The tag=value format: fields, the scan of raw bytes into fields with its
 validation, and the text a message has on the wire.
 */
module Codec {
  import opened Bytes
  import opened Decimal

  const MAX_FIELDS := 256

  datatype Field = Field(tag: int32, value: bytes)

  datatype ParseError =
    | EmptyBuffer
    | InvalidBeginString
    | MissingBodyLength
    | InvalidBodyLength
    | BodyLengthMismatch
    | MissingChecksum
    | InvalidChecksum
    | ChecksumMismatch
    | InvalidFormat
    | TooManyFields

  // ----- looking fields up -----

  /** The value of the first field carrying the tag. */
  function FieldOf(fields: seq<Field>, tag: int): (r: Option<bytes>)
    ensures r.Some? <==> exists i :: 0 <= i < |fields| && fields[i].tag == tag
    ensures r.Some? ==> exists i :: 0 <= i < |fields| && fields[i] == Field(fields[i].tag, r.value)
                                    && fields[i].tag == tag && forall j :: 0 <= j < i ==> fields[j].tag != tag
  {
    if fields == [] then None
    else if fields[0].tag == tag then Some(fields[0].value)
    else
      var r := FieldOf(fields[1..], tag);
      assert forall i :: 1 <= i < |fields| ==> fields[i] == fields[1..][i - 1];
      r
  }

  /** That value read as a number: a decimal prefix is enough. */
  function IntOf(fields: seq<Field>, tag: int): Option<int32> {
    match FieldOf(fields, tag)
    case None => None
    case Some(value) =>
      match FromChars(value)
      case Parsed(n, _) => Some(n)
      case _ => None
  }

  // ----- the text of a message -----

  /** One field as it stands in the bytes: tag text, '=', value, separator. */
  datatype Token = Token(tag: int32, text: bytes, value: bytes)

  function TokenBytes(t: Token, sep: Separator): bytes {
    t.text + ['='] + t.value + [sep]
  }

  function Render(tokens: seq<Token>, sep: Separator): bytes {
    if tokens == [] then [] else TokenBytes(tokens[0], sep) + Render(tokens[1..], sep)
  }

  /** A tag text must be a number from its first to its last byte. */
  function ReadTag(text: bytes): Option<int32> {
    match FromChars(text)
    case Parsed(n, length) => if length == |text| then Some(n) else None
    case _ => None
  }

  predicate GoodToken(t: Token, sep: Separator) {
    ReadTag(t.text) == Some(t.tag) && sep !in t.value
  }

  function TokenFields(tokens: seq<Token>): (fields: seq<Field>)
    ensures |fields| == |tokens|
  {
    seq(|tokens|, i requires 0 <= i < |tokens| => Field(tokens[i].tag, tokens[i].value))
  }

  predicate IsBlank(c: byte, sep: Separator) {
    c == sep || c == '\r' || c == '\n' || c == ' '
  }

  predicate Blank(s: bytes, sep: Separator) {
    forall i :: 0 <= i < |s| ==> IsBlank(s[i], sep)
  }

  // ----- writing -----

  /** Tags the writer generates itself: BeginString, BodyLength and CheckSum. */
  predicate IsFraming(tag: int) { tag == 8 || tag == 9 || tag == 10 }

  /** The fields that survive writing, in order. */
  function Kept(fields: seq<Field>): seq<Field> {
    if fields == [] then []
    else if IsFraming(fields[|fields| - 1].tag) then Kept(fields[..|fields| - 1])
    else Kept(fields[..|fields| - 1]) + [fields[|fields| - 1]]
  }

  function TokenOf(f: Field): Token {
    Token(f.tag, ToChars(f.tag), f.value)
  }

  function TokensOf(fields: seq<Field>): (tokens: seq<Token>)
    ensures |tokens| == |fields|
  {
    seq(|fields|, i requires 0 <= i < |fields| => TokenOf(fields[i]))
  }

  /** The body: every kept field after the first one, one after the other. */
  function BodyText(fields: seq<Field>, sep: Separator): bytes
    requires fields != []
  {
    Render(TokensOf(Kept(fields[1..])), sep)
  }

  /** Everything the checksum covers. */
  function FrontText(fields: seq<Field>, sep: Separator): bytes
    requires fields != []
  {
    var body := BodyText(fields, sep);
    "8=" + fields[0].value + [sep] + "9=" + Digits(|body|) + [sep] + body
  }

  /** The whole message: 8=v, 9=length, body, 10=checksum, each closed by the separator. */
  function Wire(fields: seq<Field>, sep: Separator): bytes
    requires fields != []
  {
    var front := FrontText(fields, sep);
    front + "10=" + ThreeDigits(Sum(front) % 256) + [sep]
  }

  // ----- reading -----

  /** The tokens of a text and the blank tail after them. */
  datatype Scanned = Scanned(tokens: seq<Token>, tail: bytes)

  /** The checks made while fields are read; k fields precede this one. */
  predicate TagInPlace(tag: int32, k: nat) {
    (k == 0 ==> tag == 8) && (k == 1 ==> tag == 9)
  }

  /** What the next field boundary search finds. */
  datatype NextResult = NoEquals | Unterminated | Next(text: bytes, value: bytes, length: nat)

  /** The next field: tag text up to the first '=', value up to the next separator. */
  function NextToken(s: bytes, sep: Separator): (r: NextResult)
    ensures r.Next? ==> 0 < r.length <= |s|
  {
    var eq := IndexOf(s, '=');
    if eq == |s| then NoEquals
    else
      var end := eq + IndexOf(s[eq..], sep);
      if end == |s| then Unterminated else Next(s[..eq], s[eq + 1..end], end + 1)
  }

  /** Reads s field by field when k fields came before it. */
  function Scan(s: bytes, sep: Separator, k: nat): (r: Result<Scanned, ParseError>)
    decreases |s|
  {
    if s == [] then Ok(Scanned([], []))
    else if k >= MAX_FIELDS then Err(TooManyFields)
    else
      match NextToken(s, sep)
      case NoEquals => if Blank(s, sep) then Ok(Scanned([], s)) else Err(InvalidFormat)
      case Unterminated => Err(InvalidFormat)
      case Next(text, value, length) =>
        match ReadTag(text)
        case None => Err(InvalidFormat)
        case Some(tag) =>
          if k == 0 && tag != 8 then Err(InvalidBeginString)
          else if k == 1 && tag != 9 then Err(MissingBodyLength)
          else
            match Scan(s[length..], sep, k + 1)
            case Err(e) => Err(e)
            case Ok(rest) => Ok(Scanned([Token(tag, text, value)] + rest.tokens, rest.tail))
  }

  /** The bytes between the BodyLength field and the trailing CheckSum field. */
  function BodyBytes(tokens: seq<Token>, sep: Separator): bytes
    requires |tokens| >= 3
  {
    Render(tokens[2..|tokens| - 1], sep)
  }

  /** The bytes the checksum covers: all before the trailing CheckSum field. */
  function SummedBytes(tokens: seq<Token>, sep: Separator): bytes
    requires |tokens| >= 1
  {
    Render(tokens[..|tokens| - 1], sep)
  }

  /** The validation of the fields read: trailer in place, length, checksum. */
  function Verify(tokens: seq<Token>, sep: Separator): (r: Result<seq<Field>, ParseError>)
  {
    var n := |tokens|;
    if n < 3 then Err(InvalidFormat)
    else if tokens[n - 1].tag != 10 then Err(MissingChecksum)
    else
      match FromChars(tokens[1].value)
      case Parsed(declared, _) =>
        if WrapInt32(|BodyBytes(tokens, sep)|) != declared then Err(BodyLengthMismatch)
        else
          (match FromChars(tokens[n - 1].value)
           case Parsed(c, _) =>
             if c < 0 || c > 255 then Err(InvalidChecksum)
             else if Sum(SummedBytes(tokens, sep)) % 256 != c then Err(ChecksumMismatch)
             else Ok(TokenFields(tokens))
           case _ => Err(InvalidChecksum))
      case _ => Err(InvalidBodyLength)
  }

  /** What parsing a message from raw bytes yields. */
  function Parsing(raw: bytes, sep: Separator): Result<seq<Field>, ParseError> {
    if raw == [] then Err(EmptyBuffer)
    else
      var scanned :- Scan(raw, sep, 0);
      Verify(scanned.tokens, sep)
  }

  // ----- basic laws of rendering -----

  lemma {:induction false} RenderAppend(a: seq<Token>, b: seq<Token>, sep: Separator)
    ensures Render(a + b, sep) == Render(a, sep) + Render(b, sep)
  {
    if a == [] {
      assert a + b == b;
    } else {
      RenderAppend(a[1..], b, sep);
      assert (a + b)[1..] == a[1..] + b;
      Assoc(TokenBytes(a[0], sep), Render(a[1..], sep), Render(b, sep));
    }
  }

  lemma RenderOne(t: Token, sep: Separator)
    ensures Render([t], sep) == TokenBytes(t, sep)
  {
    assert Render([t][1..], sep) == [];
  }

  lemma RenderSnoc(a: seq<Token>, t: Token, sep: Separator)
    ensures Render(a + [t], sep) == Render(a, sep) + TokenBytes(t, sep)
  {
    RenderAppend(a, [t], sep);
    RenderOne(t, sep);
  }

  /** A tag text holds nothing but a sign and digits. */
  lemma TagTextBytes(text: bytes)
    requires ReadTag(text).Some?
    ensures forall c :: c in text ==> c == '-' || IsDigit(c)
  {
    forall c | c in text
      ensures c == '-' || IsDigit(c)
    {
      var i :| 0 <= i < |text| && text[i] == c;
      if text[0] == '-' {
        assert DigitRun(text[1..]) == |text[1..]|;
        assert i > 0 ==> text[1..][..|text[1..]|][i - 1] == c;
      } else {
        assert text[..DigitRun(text)][i] == c;
      }
    }
  }

  // ----- the scan reads exactly the rendered texts -----

  lemma NextTokenIsSound(s: bytes, sep: Separator)
    ensures var r := NextToken(s, sep);
            r.Next? ==>
              && s[..r.length] == r.text + ['='] + r.value + [sep]
              && '=' !in r.text
              && sep !in r.value
    ensures NextToken(s, sep).NoEquals? <==> '=' !in s
  {
    hide IndexOf;
    var eq := IndexOf(s, '=');
    if eq < |s| {
      var v := s[eq..];
      var n := IndexOf(v, sep);
      if n < |v| {
        assert s[..eq] + ['='] == s[..eq + 1];
        assert s[..eq + 1] + s[eq + 1..eq + n] == s[..eq + n];
        assert s[..eq + n] + [sep] == s[..eq + n + 1];
        var value := s[eq + 1..eq + n];
        assert forall i :: 0 <= i < |value| ==> value[i] == v[i + 1] != sep;
      }
    }
  }

  lemma NextTokenIs(t: Token, rest: bytes, sep: Separator)
    requires '=' !in t.text && sep !in t.value
    ensures NextToken(TokenBytes(t, sep) + rest, sep) == Next(t.text, t.value, |TokenBytes(t, sep)|)
  {
    var s := TokenBytes(t, sep) + rest;
    var eq := |t.text|;
    IndexOfIs(s, '=', eq);
    IndexOfIs(s[eq..], sep, |t.value| + 1);
    assert s[..eq] == t.text;
    assert s[eq + 1..eq + 1 + |t.value|] == t.value;
  }

  /** The conditions the scan puts on the tokens it reads, k fields into the message. */
  ghost predicate Scannable(r: Scanned, sep: Separator, k: nat)
    decreases |r.tokens|
  {
    if r.tokens == [] then Blank(r.tail, sep) && (r.tail != [] ==> k < MAX_FIELDS)
    else
      && GoodToken(r.tokens[0], sep) && TagInPlace(r.tokens[0].tag, k) && k < MAX_FIELDS
      && Scannable(Scanned(r.tokens[1..], r.tail), sep, k + 1)
  }

  lemma ScannableCons(t: Token, rest: Scanned, sep: Separator, k: nat)
    ensures Scannable(Scanned([t] + rest.tokens, rest.tail), sep, k) <==>
            && GoodToken(t, sep) && TagInPlace(t.tag, k)
            && k < MAX_FIELDS && Scannable(rest, sep, k + 1)
  {
    assert ([t] + rest.tokens)[1..] == rest.tokens;
  }

  lemma RenderCons(t: Token, rest: Scanned, sep: Separator)
    ensures Render([t] + rest.tokens, sep) + rest.tail
         == TokenBytes(t, sep) + (Render(rest.tokens, sep) + rest.tail)
  {
    assert ([t] + rest.tokens)[1..] == rest.tokens;
    Assoc(TokenBytes(t, sep), Render(rest.tokens, sep), rest.tail);
  }

  /** A successful scan of a text that has a field: what its first step did. */
  lemma ScanFirst(s: bytes, sep: Separator, k: nat, r: Scanned) returns (t: Token, left: bytes, rest: Scanned)
    requires Scan(s, sep, k) == Ok(r) && '=' in s
    ensures GoodToken(t, sep) && TagInPlace(t.tag, k) && k < MAX_FIELDS
    ensures s == TokenBytes(t, sep) + left && |left| < |s|
    ensures Scan(left, sep, k + 1) == Ok(rest) && r == Scanned([t] + rest.tokens, rest.tail)
  {
    NextTokenIsSound(s, sep);
    var next := NextToken(s, sep);
    t, left := Token(ReadTag(next.text).value, next.text, next.value), s[next.length..];
    assert s == s[..next.length] + left;
    rest := Scan(left, sep, k + 1).value;
  }

  lemma ScanLast(s: bytes, sep: Separator, k: nat, r: Scanned)
    requires Scan(s, sep, k) == Ok(r) && '=' !in s
    ensures r == Scanned([], s)
    ensures Scannable(r, sep, k)
  {
    NextTokenIsSound(s, sep);
  }

  /** Whatever the scan reads, rendering it gives the text back. */
  lemma {:induction false} ScanIsSound(s: bytes, sep: Separator, k: nat, r: Scanned)
    requires Scan(s, sep, k) == Ok(r)
    ensures Scannable(r, sep, k)
    ensures s == Render(r.tokens, sep) + r.tail
    decreases |s|
  {
    if '=' in s {
      var t, left, rest := ScanFirst(s, sep, k, r);
      ScanIsSound(left, sep, k + 1, rest);
      ScanSoundStep(t, left, rest, sep, k);
    } else {
      ScanLast(s, sep, k, r);
    }
  }

  lemma ScanSoundStep(t: Token, left: bytes, rest: Scanned, sep: Separator, k: nat)
    requires GoodToken(t, sep) && TagInPlace(t.tag, k) && k < MAX_FIELDS
    requires Scannable(rest, sep, k + 1) && left == Render(rest.tokens, sep) + rest.tail
    ensures Scannable(Scanned([t] + rest.tokens, rest.tail), sep, k)
    ensures TokenBytes(t, sep) + left == Render([t] + rest.tokens, sep) + rest.tail
  {
    ScannableCons(t, rest, sep, k);
    RenderCons(t, rest, sep);
  }

  /** Whatever has the form the scan accepts is read back token by token. */
  lemma {:induction false} ScanIsComplete(s: bytes, r: Scanned, sep: Separator, k: nat)
    requires Scannable(r, sep, k)
    requires s == Render(r.tokens, sep) + r.tail
    ensures Scan(s, sep, k) == Ok(r)
    decreases |r.tokens|
  {
    if r.tokens == [] {
      ScanTail(s, r, sep, k);
    } else {
      var t, rest := r.tokens[0], Scanned(r.tokens[1..], r.tail);
      assert r.tokens == [t] + rest.tokens;
      var left := Render(rest.tokens, sep) + rest.tail;
      ScannableCons(t, rest, sep, k);
      ScanIsComplete(left, rest, sep, k + 1);
      assert s == TokenBytes(t, sep) + left by { RenderCons(t, rest, sep); }
      ScanStep(s, t, left, r, rest, sep, k);
    }
  }

  lemma ScanTail(s: bytes, r: Scanned, sep: Separator, k: nat)
    requires Scannable(r, sep, k) && r.tokens == []
    requires s == Render(r.tokens, sep) + r.tail
    ensures Scan(s, sep, k) == Ok(r)
  {
    assert s == r.tail;
    NextTokenIsSound(s, sep);
  }

  lemma ScanStep(s: bytes, t: Token, left: bytes, r: Scanned, rest: Scanned, sep: Separator, k: nat)
    requires s == TokenBytes(t, sep) + left && r == Scanned([t] + rest.tokens, rest.tail)
    requires GoodToken(t, sep) && TagInPlace(t.tag, k) && k < MAX_FIELDS
    requires Scan(left, sep, k + 1) == Ok(rest)
    ensures Scan(s, sep, k) == Ok(r)
  {
    TagTextBytes(t.text);
    NextTokenIs(t, left, sep);
    assert s[|TokenBytes(t, sep)|..] == left;
  }
}
