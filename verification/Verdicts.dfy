/**
 What the parser says of every text: which texts are messages of which fields,
 and for each error which texts get it, in terms of the fields a text begins
 with and what comes after them.
 */
module Verdicts {
  import opened Bytes
  import opened Decimal
  import opened Codec
  import opened CodecLaws
  import opened Parser

  // ----- what a text begins with -----

  /** A field as it stands in a text: the tag text denotes the tag, the value is free of the separator. */
  ghost predicate IsField(t: Token, sep: Separator) {
    Denotes(t.text, t.tag) && sep !in t.value
  }

  /** Nothing but separators, CR, LF and blanks. */
  predicate Spaces(s: bytes, sep: Separator) {
    forall i :: 0 <= i < |s| ==> s[i] == sep || s[i] == '\r' || s[i] == '\n' || s[i] == ' '
  }

  /** The text begins with at most 256 fields, 8 and 9 first, and goes on with the rest. */
  ghost predicate Laid(raw: bytes, sep: Separator, tokens: seq<Token>, rest: bytes) {
    && raw == Render(tokens, sep) + rest
    && (forall i :: 0 <= i < |tokens| ==> IsField(tokens[i], sep))
    && |tokens| <= 256
    && (|tokens| > 0 ==> tokens[0].tag == 8)
    && (|tokens| > 1 ==> tokens[1].tag == 9)
  }

  /** The text goes on with tag text, '=', value, separator, whatever the tag text is. */
  ghost predicate GoesOn(rest: bytes, sep: Separator, t: Token, more: bytes) {
    rest == TokenBytes(t, sep) + more && '=' !in t.text && sep !in t.value
  }

  /** The text ends in a field that no separator closes. */
  ghost predicate Dangles(rest: bytes, sep: Separator, text: bytes, value: bytes) {
    rest == text + ['='] + value && '=' !in text && sep !in value
  }

  /** No field can be read from the rest. */
  ghost predicate NoField(rest: bytes, sep: Separator) {
    || ('=' !in rest && !Spaces(rest, sep))
    || (exists text, value :: Dangles(rest, sep, text, value))
    || (exists t, more :: GoesOn(rest, sep, t, more) && forall n: int32 :: !Denotes(t.text, n))
  }

  /** The rest goes on with a field whose tag is another one. */
  ghost predicate OtherTag(rest: bytes, sep: Separator, tag: int) {
    exists t, more :: GoesOn(rest, sep, t, more) && IsField(t, sep) && t.tag != tag
  }

  /** After n fields the rest makes reading stop with an error. */
  ghost predicate Stops(rest: bytes, sep: Separator, n: nat, e: ParseError) {
    && rest != []
    && match e
       case TooManyFields => n == 256
       case InvalidFormat => n < 256 && NoField(rest, sep)
       case InvalidBeginString => n == 0 && OtherTag(rest, sep, 8)
       case MissingBodyLength => n == 1 && OtherTag(rest, sep, 9)
       case _ => false
  }

  /** The text is all fields and white space. */
  ghost predicate ReadThrough(raw: bytes, sep: Separator, tokens: seq<Token>, tail: bytes) {
    && raw != []
    && Laid(raw, sep, tokens, tail)
    && Spaces(tail, sep)
    && (tail != [] ==> |tokens| < 256)
  }

  /** The length of the body: the fields between the second and the last. */
  function BodySize(tokens: seq<Token>, sep: Separator): nat
    requires |tokens| >= 3
  {
    |Render(tokens[2..|tokens| - 1], sep)|
  }

  /** The byte sum, modulo 256, of all fields but the last. */
  function FieldSum(tokens: seq<Token>, sep: Separator): nat
    requires |tokens| >= 1
  {
    Sum(Render(tokens[..|tokens| - 1], sep)) % 256
  }

  /** The second value begins with the length of the body. */
  ghost predicate LengthIsTrue(tokens: seq<Token>, sep: Separator)
    requires |tokens| >= 3
  {
    BeginsWith(tokens[1].value, WrapInt32(BodySize(tokens, sep)))
  }

  /** The last value begins with a number of one byte. */
  ghost predicate ChecksumReads(tokens: seq<Token>)
    requires |tokens| >= 1
  {
    var value := tokens[|tokens| - 1].value;
    exists c: int :: BeginsWith(value, c) && 0 <= c <= 255
  }

  /** The fields read fail a check. */
  ghost predicate Refused(tokens: seq<Token>, sep: Separator, e: ParseError) {
    var n := |tokens|;
    match e
    case InvalidFormat => n < 3
    case MissingChecksum => n >= 3 && tokens[n - 1].tag != 10
    case InvalidBodyLength =>
      n >= 3 && tokens[n - 1].tag == 10 && forall d: int :: !BeginsWith(tokens[1].value, d)
    case BodyLengthMismatch =>
      && n >= 3 && tokens[n - 1].tag == 10
      && (exists d: int :: BeginsWith(tokens[1].value, d)) && !LengthIsTrue(tokens, sep)
    case InvalidChecksum =>
      n >= 3 && tokens[n - 1].tag == 10 && LengthIsTrue(tokens, sep) && !ChecksumReads(tokens)
    case ChecksumMismatch =>
      && n >= 3 && tokens[n - 1].tag == 10 && LengthIsTrue(tokens, sep) && ChecksumReads(tokens)
      && !BeginsWith(tokens[n - 1].value, FieldSum(tokens, sep))
    case _ => false
  }

  /** The texts that get an error. */
  ghost predicate Fails(raw: bytes, sep: Separator, e: ParseError) {
    || (raw == [] && e == EmptyBuffer)
    || (exists tokens, rest :: Laid(raw, sep, tokens, rest) && Stops(rest, sep, |tokens|, e))
    || (exists tokens, tail :: ReadThrough(raw, sep, tokens, tail) && Refused(tokens, sep, e))
  }

  /** The texts that are messages of the given fields. */
  ghost predicate Succeeds(raw: bytes, sep: Separator, fields: seq<Field>) {
    exists tokens, tail ::
      && ReadThrough(raw, sep, tokens, tail)
      && Passed(tokens, sep)
      && Carry(tokens, fields)
  }

  /** The fields read pass all checks. */
  ghost predicate Passed(tokens: seq<Token>, sep: Separator) {
    var n := |tokens|;
    && n >= 3 && tokens[n - 1].tag == 10
    && LengthIsTrue(tokens, sep)
    && BeginsWith(tokens[n - 1].value, FieldSum(tokens, sep))
  }

  ghost predicate Carry(tokens: seq<Token>, fields: seq<Field>) {
    |fields| == |tokens| && forall i :: 0 <= i < |tokens| ==> fields[i] == Field(tokens[i].tag, tokens[i].value)
  }

  // ----- fields -----

  lemma TagMeans(text: bytes, tag: int32)
    ensures ReadTag(text) == Some(tag) <==> Denotes(text, tag)
  {
    hide Denotes, FromChars;
    WholeReadingMeans(text, tag);
  }

  lemma FieldMeans(t: Token, sep: Separator)
    ensures GoodToken(t, sep) <==> IsField(t, sep)
  {
    hide Denotes, ReadTag;
    TagMeans(t.text, t.tag);
  }

  lemma SpacesMean(s: bytes, sep: Separator)
    ensures Spaces(s, sep) <==> Blank(s, sep)
  {
  }

  lemma NoNumber(text: bytes)
    ensures ReadTag(text).None? <==> forall n: int32 :: !Denotes(text, n)
  {
    hide Denotes, ReadTag;
    forall n: int32
      ensures ReadTag(text) == Some(n) <==> Denotes(text, n)
    {
      TagMeans(text, n);
    }
    if ReadTag(text).Some? {
      TagMeans(text, ReadTag(text).value);
    }
  }

  // ----- one step -----

  /** What the next field boundary search says of the rest. */
  lemma NextMeans(rest: bytes, sep: Separator)
    ensures var r := NextToken(rest, sep);
            && (r.NoEquals? <==> '=' !in rest)
            && (r.Unterminated? ==> exists text, value :: Dangles(rest, sep, text, value))
            && (r.Next? ==> GoesOn(rest, sep, Token(0, r.text, r.value), rest[r.length..]))
  {
    hide IndexOf;
    NextTokenIsSound(rest, sep);
    var r := NextToken(rest, sep);
    if r.Unterminated? {
      var eq := IndexOf(rest, '=');
      var v := rest[eq..];
      assert IndexOf(v, sep) == |v|;
      assert forall k :: 0 <= k < |v| ==> v[k] != sep;
      assert v == ['='] + v[1..];
      assert rest == rest[..eq] + ['='] + v[1..];
      assert Dangles(rest, sep, rest[..eq], v[1..]);
    } else if r.Next? {
      assert rest == rest[..r.length] + rest[r.length..];
    }
  }

  lemma DanglingIsUnterminated(rest: bytes, sep: Separator, text: bytes, value: bytes)
    requires Dangles(rest, sep, text, value)
    ensures NextToken(rest, sep).Unterminated?
  {
    IndexOfIs(rest, '=', |text|);
    IndexOfIs(rest[|text|..], sep, |value| + 1);
  }

  lemma GoingOnIsNext(rest: bytes, sep: Separator, t: Token, more: bytes)
    requires GoesOn(rest, sep, t, more)
    ensures NextToken(rest, sep) == Next(t.text, t.value, |TokenBytes(t, sep)|)
    ensures rest[|TokenBytes(t, sep)|..] == more
  {
    hide NextToken, TokenBytes;
    NextTokenIs(t, more, sep);
  }

  /** Reading fails at the next field exactly when that is no field. */
  lemma NoFieldMeans(rest: bytes, sep: Separator)
    ensures NoField(rest, sep) <==> match NextToken(rest, sep)
                                    case NoEquals => !Blank(rest, sep)
                                    case Unterminated => true
                                    case Next(text, _, _) => ReadTag(text).None?
  {
    hide NextToken, ReadTag, Denotes, Blank, Spaces, Dangles, GoesOn;
    NextMeans(rest, sep);
    SpacesMean(rest, sep);
    forall text, value | Dangles(rest, sep, text, value)
      ensures NextToken(rest, sep).Unterminated?
    {
      DanglingIsUnterminated(rest, sep, text, value);
    }
    forall t, more | GoesOn(rest, sep, t, more)
      ensures NextToken(rest, sep).Next? && NextToken(rest, sep).text == t.text
    {
      GoingOnIsNext(rest, sep, t, more);
    }
    var r := NextToken(rest, sep);
    if r.Next? {
      NoNumber(r.text);
      assert GoesOn(rest, sep, Token(0, r.text, r.value), rest[r.length..]);
    }
  }

  lemma OtherTagMeans(rest: bytes, sep: Separator, tag: int)
    ensures OtherTag(rest, sep, tag) <==>
            var r := NextToken(rest, sep);
            r.Next? && ReadTag(r.text).Some? && ReadTag(r.text).value != tag
  {
    hide NextToken, ReadTag, Denotes, Dangles;
    var r := NextToken(rest, sep);
    NextMeans(rest, sep);
    if r.Next? && ReadTag(r.text).Some? {
      var t := Token(ReadTag(r.text).value, r.text, r.value);
      TagMeans(r.text, t.tag);
      assert GoesOn(rest, sep, t, rest[r.length..]);
    }
    forall t, more | GoesOn(rest, sep, t, more) && IsField(t, sep)
      ensures r.Next? && ReadTag(r.text) == Some(t.tag)
    {
      GoingOnIsNext(rest, sep, t, more);
      TagMeans(t.text, t.tag);
    }
  }

  /** The error that reading gives at once. */
  lemma StopMeans(rest: bytes, sep: Separator, n: nat, e: ParseError)
    requires n <= 256 && Stops(rest, sep, n, e)
    ensures Scan(rest, sep, n) == Err(e)
  {
    hide NextToken, ReadTag, NoField, OtherTag, Blank;
    NoFieldMeans(rest, sep);
    OtherTagMeans(rest, sep, 8);
    OtherTagMeans(rest, sep, 9);
  }

  // ----- many steps -----

  ghost predicate FieldsInPlace(tokens: seq<Token>, sep: Separator, k: nat) {
    && (forall i :: 0 <= i < |tokens| ==> GoodToken(tokens[i], sep) && TagInPlace(tokens[i].tag, k + i))
    && k + |tokens| <= 256
  }

  lemma FieldsInPlaceTail(tokens: seq<Token>, sep: Separator, k: nat)
    requires FieldsInPlace(tokens, sep, k) && tokens != []
    ensures GoodToken(tokens[0], sep) && TagInPlace(tokens[0].tag, k) && k < 256
    ensures FieldsInPlace(tokens[1..], sep, k + 1)
  {
    hide GoodToken, TagInPlace;
    assert TagInPlace(tokens[0].tag, k + 0);
    forall i | 0 <= i < |tokens[1..]|
      ensures GoodToken(tokens[1..][i], sep) && TagInPlace(tokens[1..][i].tag, k + 1 + i)
    {
      assert tokens[1..][i] == tokens[i + 1] && TagInPlace(tokens[i + 1].tag, k + (i + 1));
    }
  }

  lemma FieldsInPlaceCons(t: Token, rest: seq<Token>, sep: Separator, k: nat)
    requires GoodToken(t, sep) && TagInPlace(t.tag, k) && FieldsInPlace(rest, sep, k + 1)
    ensures FieldsInPlace([t] + rest, sep, k)
  {
    hide GoodToken, TagInPlace;
    forall i | 0 <= i < |[t] + rest|
      ensures GoodToken(([t] + rest)[i], sep) && TagInPlace(([t] + rest)[i].tag, k + i)
    {
      if i > 0 {
        assert ([t] + rest)[i] == rest[i - 1] && TagInPlace(rest[i - 1].tag, k + 1 + (i - 1));
      }
    }
  }

  lemma ScanOne(t: Token, left: bytes, sep: Separator, k: nat)
    requires GoodToken(t, sep) && TagInPlace(t.tag, k) && k < 256
    ensures Scan(TokenBytes(t, sep) + left, sep, k) == Prepend([t], Scan(left, sep, k + 1))
  {
    hide Scan, NextToken, TokenBytes, ReadTag;
    TagTextBytes(t.text);
    NextTokenIs(t, left, sep);
    var s, n := TokenBytes(t, sep) + left, |TokenBytes(t, sep)|;
    assert s[n..] == left;
    TokenIsNonEmpty(t, sep);
    ScanUnfolds(s, sep, k, Read(t, n));
  }

  lemma TokenIsNonEmpty(t: Token, sep: Separator)
    ensures TokenBytes(t, sep) != []
  {
  }

  lemma PrependTwice(t: Token, tokens: seq<Token>, r: Result<Scanned, ParseError>)
    ensures Prepend([t], Prepend(tokens, r)) == Prepend([t] + tokens, r)
  {
    if r.Ok? {
      Assoc([t], tokens, r.value.tokens);
    }
  }

  lemma PrependNothing(r: Result<Scanned, ParseError>)
    ensures Prepend([], r) == r
  {
    if r.Ok? {
      assert [] + r.value.tokens == r.value.tokens;
    }
  }

  /** The scan reads fields in place and goes on behind them. */
  lemma {:induction false} ScanPast(tokens: seq<Token>, rest: bytes, sep: Separator, k: nat)
    requires FieldsInPlace(tokens, sep, k)
    ensures Scan(Render(tokens, sep) + rest, sep, k) == Prepend(tokens, Scan(rest, sep, k + |tokens|))
    decreases |tokens|
  {
    hide Scan, GoodToken, TokenBytes, FieldsInPlace, Prepend;
    if tokens == [] {
      RenderOfNothing(sep);
      assert Render(tokens, sep) + rest == rest;
      PrependNothing(Scan(rest, sep, k));
    } else {
      var t, others := tokens[0], tokens[1..];
      var left := Render(others, sep) + rest;
      FieldsInPlaceTail(tokens, sep, k);
      assert tokens == [t] + others;
      RenderCons(t, Scanned(others, rest), sep);
      ScanPast(others, rest, sep, k + 1);
      ScanOne(t, left, sep, k);
      PrependTwice(t, others, Scan(rest, sep, k + |tokens|));
    }
  }

  /** A failing scan has read some fields and stops at the rest. */
  lemma {:induction false} ScanStops(s: bytes, sep: Separator, k: nat, e: ParseError)
    returns (tokens: seq<Token>, rest: bytes)
    requires Scan(s, sep, k) == Err(e) && k <= 256
    ensures FieldsInPlace(tokens, sep, k) && s == Render(tokens, sep) + rest
    ensures Stops(rest, sep, k + |tokens|, e)
    decreases |s|
  {
    hide NextToken, ReadTag, NoField, OtherTag, Blank, TokenBytes;
    NoFieldMeans(s, sep);
    OtherTagMeans(s, sep, 8);
    OtherTagMeans(s, sep, 9);
    NextTokenIsSound(s, sep);
    var r := NextToken(s, sep);
    if k < 256 && r.Next? && ReadTag(r.text).Some? && TagInPlace(ReadTag(r.text).value, k) {
      var t, left := Token(ReadTag(r.text).value, r.text, r.value), s[r.length..];
      TokenText(s, sep, t, r.length);
      var others;
      others, rest := ScanStops(left, sep, k + 1, e);
      tokens := [t] + others;
      FieldsInPlaceCons(t, others, sep, k);
      RenderCons(t, Scanned(others, rest), sep);
    } else {
      tokens, rest := [], s;
      RenderOfNothing(sep);
      assert Render(tokens, sep) + rest == rest;
    }
  }

  lemma TokenText(s: bytes, sep: Separator, t: Token, n: nat)
    requires NextToken(s, sep) == Next(t.text, t.value, n)
    ensures n <= |s| && s == TokenBytes(t, sep) + s[n..] && sep !in t.value
  {
    hide NextToken;
    NextTokenIsSound(s, sep);
    assert s == s[..n] + s[n..];
  }

  // ----- the checks -----

  lemma LengthMeans(tokens: seq<Token>, sep: Separator)
    requires |tokens| >= 3
    ensures var r := FromChars(tokens[1].value);
            && (LengthIsTrue(tokens, sep) <==> r.Parsed? && r.value == WrapInt32(|BodyBytes(tokens, sep)|))
            && (r.Parsed? <==> exists d: int :: BeginsWith(tokens[1].value, d))
  {
    hide BeginsWith, FromChars;
    var v := tokens[1].value;
    forall d: int
      ensures BeginsWith(v, d) <==> FromChars(v).Parsed? && FromChars(v).value == d
    {
      ReadingMeans(v, d);
    }
    if FromChars(v).Parsed? {
      ReadingMeans(v, FromChars(v).value);
    }
  }

  lemma ChecksumMeans(tokens: seq<Token>, sep: Separator)
    requires |tokens| >= 3
    ensures var r := FromChars(tokens[|tokens| - 1].value);
            && (ChecksumReads(tokens) <==> r.Parsed? && 0 <= r.value <= 255)
            && (BeginsWith(tokens[|tokens| - 1].value, FieldSum(tokens, sep)) <==>
                r.Parsed? && r.value == Sum(SummedBytes(tokens, sep)) % 256)
  {
    hide BeginsWith, FromChars, Render, Sum;
    var v := tokens[|tokens| - 1].value;
    forall c: int
      ensures BeginsWith(v, c) <==> FromChars(v).Parsed? && FromChars(v).value == c
    {
      ReadingMeans(v, c);
    }
    if FromChars(v).Parsed? {
      ReadingMeans(v, FromChars(v).value);
    }
  }

  /** The checks refuse fields for the reason given. */
  lemma RefusalMeans(tokens: seq<Token>, sep: Separator, e: ParseError)
    ensures Verify(tokens, sep) == Err(e) <==> Refused(tokens, sep, e)
  {
    hide BeginsWith, FromChars, Sum, BodyBytes, SummedBytes, LengthIsTrue, ChecksumReads, FieldSum;
    if |tokens| >= 3 {
      LengthMeans(tokens, sep);
      ChecksumMeans(tokens, sep);
    }
  }

  // ----- the errors -----

  lemma LaidMeans(raw: bytes, sep: Separator, tokens: seq<Token>, rest: bytes)
    ensures Laid(raw, sep, tokens, rest) <==> raw == Render(tokens, sep) + rest && FieldsInPlace(tokens, sep, 0)
  {
    hide IsField, GoodToken;
    forall i | 0 <= i < |tokens|
      ensures GoodToken(tokens[i], sep) <==> IsField(tokens[i], sep)
    {
      FieldMeans(tokens[i], sep);
    }
    if Laid(raw, sep, tokens, rest) {
      assert forall i :: 0 <= i < |tokens| ==> TagInPlace(tokens[i].tag, 0 + i);
    }
    if FieldsInPlace(tokens, sep, 0) {
      assert |tokens| > 0 ==> TagInPlace(tokens[0].tag, 0 + 0);
      assert |tokens| > 1 ==> TagInPlace(tokens[1].tag, 0 + 1);
    }
  }

  lemma LaidStops(raw: bytes, sep: Separator, tokens: seq<Token>, rest: bytes, e: ParseError)
    requires Laid(raw, sep, tokens, rest) && Stops(rest, sep, |tokens|, e)
    ensures Parsing(raw, sep) == Err(e)
  {
    hide Laid, Scan, Verify, Stops, FieldsInPlace, Render;
    LaidMeans(raw, sep, tokens, rest);
    ScanPast(tokens, rest, sep, 0);
    StopsAtSomething(rest, sep, |tokens|, e);
    LaidIsShort(raw, sep, tokens, rest);
    StopMeans(rest, sep, |tokens|, e);
  }

  lemma StopsAtSomething(rest: bytes, sep: Separator, n: nat, e: ParseError)
    requires Stops(rest, sep, n, e)
    ensures rest != []
  {
  }

  lemma LaidIsShort(raw: bytes, sep: Separator, tokens: seq<Token>, rest: bytes)
    requires Laid(raw, sep, tokens, rest)
    ensures |tokens| <= 256
  {
  }

  /** A text of fields and white space is read through. */
  lemma ReadThroughMeans(raw: bytes, sep: Separator, tokens: seq<Token>, tail: bytes)
    requires ReadThrough(raw, sep, tokens, tail)
    ensures Parsing(raw, sep) == Verify(tokens, sep)
  {
    hide Laid, Scan, Verify, FieldsInPlace, Render, Spaces, Blank, NextToken;
    LaidMeans(raw, sep, tokens, tail);
    ScanPast(tokens, tail, sep, 0);
    ScanBlank(tail, sep, |tokens|);
    assert tokens + [] == tokens;
  }

  lemma ScanBlank(tail: bytes, sep: Separator, n: nat)
    requires Spaces(tail, sep) && (tail != [] ==> n < 256)
    ensures Scan(tail, sep, n) == Ok(Scanned([], tail))
  {
    hide NextToken;
    NextTokenIsSound(tail, sep);
    SpacesMean(tail, sep);
  }

  lemma ScanReadsThrough(raw: bytes, sep: Separator, r: Scanned)
    requires raw != [] && Scan(raw, sep, 0) == Ok(r)
    ensures ReadThrough(raw, sep, r.tokens, r.tail)
  {
    hide Scan, GoodToken, IsField, Render, Scannable;
    ScanIsSound(raw, sep, 0, r);
    ScannableAll(r, sep, 0);
    SpacesMean(r.tail, sep);
    assert FieldsInPlace(r.tokens, sep, 0);
    LaidMeans(raw, sep, r.tokens, r.tail);
  }

  /** Parsing yields an error exactly on the texts that get it. */
  lemma ParsingFails(raw: bytes, sep: Separator, e: ParseError)
    ensures Parsing(raw, sep) == Err(e) <==> Fails(raw, sep, e)
  {
    hide Laid, Stops, ReadThrough, Refused, Scan, Verify;
    if raw != [] {
      forall tokens, rest | Laid(raw, sep, tokens, rest) && Stops(rest, sep, |tokens|, e)
        ensures Parsing(raw, sep) == Err(e)
      {
        LaidStops(raw, sep, tokens, rest, e);
      }
      forall tokens, tail | ReadThrough(raw, sep, tokens, tail) && Refused(tokens, sep, e)
        ensures Parsing(raw, sep) == Err(e)
      {
        ReadThroughMeans(raw, sep, tokens, tail);
        RefusalMeans(tokens, sep, e);
      }
      if Parsing(raw, sep) == Err(e) {
        ErrorIsExplained(raw, sep, e);
      }
    } else {
      NothingLaid(sep, e);
    }
  }

  lemma NothingLaid(sep: Separator, e: ParseError)
    ensures forall tokens, rest :: Laid([], sep, tokens, rest) ==> !Stops(rest, sep, |tokens|, e)
    ensures forall tokens, tail :: !ReadThrough([], sep, tokens, tail)
  {
  }

  lemma ErrorIsExplained(raw: bytes, sep: Separator, e: ParseError)
    requires raw != [] && Parsing(raw, sep) == Err(e)
    ensures Fails(raw, sep, e)
  {
    hide Laid, Stops, ReadThrough, Refused, Scan, Verify;
    match Scan(raw, sep, 0)
    case Err(_) =>
      var tokens, rest := ScanStops(raw, sep, 0, e);
      LaidMeans(raw, sep, tokens, rest);
    case Ok(r) =>
      ScanReadsThrough(raw, sep, r);
      RefusalMeans(r.tokens, sep, e);
  }

  lemma PassMeans(tokens: seq<Token>, sep: Separator, fields: seq<Field>)
    ensures Verify(tokens, sep) == Ok(fields) <==> Passed(tokens, sep) && Carry(tokens, fields)
  {
    hide BeginsWith, FromChars, BodyBytes, SummedBytes, LengthIsTrue;
    VerifyAccepts(tokens, sep);
    if |tokens| >= 3 {
      LengthMeans(tokens, sep);
      ChecksumMeans(tokens, sep);
    }
    if Carry(tokens, fields) {
      assert fields == TokenFields(tokens);
    }
  }

  /** Parsing yields fields exactly on the texts that are messages of them. */
  lemma ParsingSucceeds(raw: bytes, sep: Separator, fields: seq<Field>)
    ensures Parsing(raw, sep) == Ok(fields) <==> Succeeds(raw, sep, fields)
  {
    hide ReadThrough, Passed, Carry, Scan, Verify;
    forall tokens, tail | ReadThrough(raw, sep, tokens, tail) && Passed(tokens, sep) && Carry(tokens, fields)
      ensures Parsing(raw, sep) == Ok(fields)
    {
      ReadThroughMeans(raw, sep, tokens, tail);
      PassMeans(tokens, sep, fields);
    }
    if Parsing(raw, sep) == Ok(fields) {
      var r := Scan(raw, sep, 0).value;
      ScanReadsThrough(raw, sep, r);
      PassMeans(r.tokens, sep, fields);
    }
  }

  /** A number is looked up exactly where the first value with the tag begins with it. */
  lemma IntMeans(fields: seq<Field>, tag: int, n: int)
    ensures IntOf(fields, tag).Some? && IntOf(fields, tag).value == n <==>
            exists i :: 0 <= i < |fields| && IsFirstWith(fields, tag, i) && BeginsWith(fields[i].value, n)
  {
    hide BeginsWith, FromChars;
    var r := FieldOf(fields, tag);
    if r.Some? {
      var i :| 0 <= i < |fields| && fields[i] == Field(fields[i].tag, r.value) && fields[i].tag == tag
               && forall j :: 0 <= j < i ==> fields[j].tag != tag;
      assert IsFirstWith(fields, tag, i);
      ReadingMeans(r.value, n);
      assert forall j :: 0 <= j < |fields| && IsFirstWith(fields, tag, j) ==> j == i;
    }
  }

  predicate IsFirstWith(fields: seq<Field>, tag: int, i: nat)
    requires i < |fields|
  {
    fields[i].tag == tag && forall j :: 0 <= j < i ==> fields[j].tag != tag
  }
}
