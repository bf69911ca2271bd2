/**
 The laws of the tag=value format: what parsing accepts, the round trip
 through the wire text, and the boundaries between fields.
 */
module CodecLaws {
  import opened Bytes
  import opened Decimal
  import opened Codec

  // ----- parsing accepts exactly a grammar -----

  /** The fields lie in the raw bytes one after the other, then a blank tail. */
  ghost predicate Segmentation(raw: bytes, sep: Separator, r: Scanned) {
    && raw == Render(r.tokens, sep) + r.tail
    && (forall i :: 0 <= i < |r.tokens| ==> GoodToken(r.tokens[i], sep))
    && Blank(r.tail, sep)
  }

  /** A well-formed message. */
  ghost predicate WellFormed(raw: bytes, sep: Separator, r: Scanned) {
    var n := |r.tokens|;
    && Segmentation(raw, sep, r)
    && 3 <= n <= MAX_FIELDS
    && (r.tail != [] ==> n < MAX_FIELDS)
    && r.tokens[0].tag == 8 && r.tokens[1].tag == 9 && r.tokens[n - 1].tag == 10
    && LengthHolds(r.tokens, sep)
    && ChecksumHolds(r.tokens, sep)
  }

  /** The BodyLength field starts with the decimal length of the body. */
  ghost predicate LengthHolds(tokens: seq<Token>, sep: Separator)
    requires |tokens| >= 3
  {
    var declared := FromChars(tokens[1].value);
    declared.Parsed? && declared.value == WrapInt32(|BodyBytes(tokens, sep)|)
  }

  /** The last field starts with the byte sum, modulo 256, of all that precedes it. */
  ghost predicate ChecksumHolds(tokens: seq<Token>, sep: Separator)
    requires |tokens| >= 3
  {
    var declared := FromChars(tokens[|tokens| - 1].value);
    declared.Parsed? && declared.value == Sum(SummedBytes(tokens, sep)) % 256
  }

  lemma {:induction false} ScannableAll(r: Scanned, sep: Separator, k: nat)
    ensures Scannable(r, sep, k) <==>
            && Blank(r.tail, sep)
            && (r.tokens != [] ==> k + |r.tokens| <= MAX_FIELDS)
            && (r.tail != [] ==> k + |r.tokens| < MAX_FIELDS)
            && (forall i :: 0 <= i < |r.tokens| ==> GoodToken(r.tokens[i], sep))
            && (forall i :: 0 <= i < |r.tokens| ==> TagInPlace(r.tokens[i].tag, k + i))
    decreases |r.tokens|
  {
    if r.tokens != [] {
      var rest := Scanned(r.tokens[1..], r.tail);
      ScannableAll(rest, sep, k + 1);
      assert forall i :: 0 < i < |r.tokens| ==> r.tokens[i] == rest.tokens[i - 1];
      assert forall i :: 0 <= i < |rest.tokens| ==> rest.tokens[i] == r.tokens[i + 1];
    }
  }

  lemma VerifyAccepts(tokens: seq<Token>, sep: Separator)
    ensures Verify(tokens, sep).Ok? <==>
            |tokens| >= 3 && tokens[|tokens| - 1].tag == 10 && LengthHolds(tokens, sep) && ChecksumHolds(tokens, sep)
    ensures Verify(tokens, sep).Ok? ==> Verify(tokens, sep).value == TokenFields(tokens)
  {
  }

  /** What a successful parse has read. */
  lemma ParsingIsSound(raw: bytes, sep: Separator) returns (r: Scanned)
    requires Parsing(raw, sep).Ok?
    ensures WellFormed(raw, sep, r) && Parsing(raw, sep) == Ok(TokenFields(r.tokens))
  {
    r := Scan(raw, sep, 0).value;
    ScanIsSound(raw, sep, 0, r);
    ScannableAll(r, sep, 0);
    VerifyAccepts(r.tokens, sep);
    assert TagInPlace(r.tokens[0].tag, 0) && TagInPlace(r.tokens[1].tag, 1);
  }

  lemma RenderIsNonEmpty(tokens: seq<Token>, sep: Separator)
    requires tokens != []
    ensures Render(tokens, sep) != []
  {
  }

  lemma ScanOfWellFormed(raw: bytes, sep: Separator, r: Scanned)
    requires WellFormed(raw, sep, r)
    ensures raw != [] && Scan(raw, sep, 0) == Ok(r)
  {
    RenderIsNonEmpty(r.tokens, sep);
    ScannableAll(r, sep, 0);
    ScanIsComplete(raw, r, sep, 0);
  }

  lemma ParsingIsComplete(raw: bytes, sep: Separator, r: Scanned)
    requires WellFormed(raw, sep, r)
    ensures Parsing(raw, sep) == Ok(TokenFields(r.tokens)) && Scan(raw, sep, 0) == Ok(r)
  {
    ScanOfWellFormed(raw, sep, r);
    VerifyAccepts(r.tokens, sep);
  }

  /** Parsing succeeds with the given fields exactly on the well-formed messages carrying them. */
  lemma ParsingAcceptsGrammar(raw: bytes, sep: Separator, fields: seq<Field>)
    ensures Parsing(raw, sep) == Ok(fields) <==>
            exists r :: WellFormed(raw, sep, r) && fields == TokenFields(r.tokens)
  {
    if Parsing(raw, sep) == Ok(fields) {
      var r := ParsingIsSound(raw, sep);
    }
    forall r | WellFormed(raw, sep, r) && fields == TokenFields(r.tokens)
      ensures Parsing(raw, sep) == Ok(fields)
    {
      ParsingIsComplete(raw, sep, r);
    }
  }

  /** A message has one segmentation only. */
  lemma WellFormedIsUnique(raw: bytes, sep: Separator, a: Scanned, b: Scanned)
    requires WellFormed(raw, sep, a) && WellFormed(raw, sep, b)
    ensures a == b
  {
    ParsingIsComplete(raw, sep, a);
    ParsingIsComplete(raw, sep, b);
  }

  // ----- the round trip -----

  /** The fields a written message is read back as. */
  function Canonical(fields: seq<Field>, sep: Separator): (r: seq<Field>)
    requires fields != []
  {
    [Field(8, fields[0].value), Field(9, Digits(|BodyText(fields, sep)|))]
    + Kept(fields[1..])
    + [Field(10, ThreeDigits(Sum(FrontText(fields, sep)) % 256))]
  }

  ghost predicate FreeOf(fields: seq<Field>, c: byte) {
    forall f :: f in fields ==> c !in f.value
  }

  /** The values to be written are free of the separator. */
  ghost predicate Separable(fields: seq<Field>, sep: Separator) {
    && fields != []
    && sep !in fields[0].value
    && FreeOf(Kept(fields[1..]), sep)
  }

  /** Values free of the separator, and within the parser's limits. */
  ghost predicate Writable(fields: seq<Field>, sep: Separator) {
    && Separable(fields, sep)
    && |Kept(fields[1..])| <= MAX_FIELDS - 3
    && |BodyText(fields, sep)| < 0x8000_0000
  }

  function WireTokens(fields: seq<Field>, sep: Separator): seq<Token>
    requires fields != []
  {
    TokensOf(Canonical(fields, sep))
  }

  lemma FramingTags()
    ensures ToChars(8) == "8" && ToChars(9) == "9" && ToChars(10) == "10"
  {
    assert Digits(10) == Digits(1) + [DigitByte(0)];
  }

  lemma TokensOfAppend(a: seq<Field>, b: seq<Field>)
    ensures TokensOf(a + b) == TokensOf(a) + TokensOf(b)
  {
  }

  lemma GoodTokenOf(f: Field, sep: Separator)
    requires sep !in f.value
    ensures GoodToken(TokenOf(f), sep)
  {
    FromToChars(f.tag, []);
    assert ToChars(f.tag) + [] == ToChars(f.tag);
  }

  /** The wire text is the rendering of the canonical fields. */
  lemma WireRenders(fields: seq<Field>, sep: Separator)
    requires fields != []
    ensures var tokens := WireTokens(fields, sep);
            && |tokens| == |Kept(fields[1..])| + 3
            && SummedBytes(tokens, sep) == FrontText(fields, sep)
            && BodyBytes(tokens, sep) == BodyText(fields, sep)
            && Wire(fields, sep) == Render(tokens, sep)
  {
    var tokens := WireTokens(fields, sep);
    var n := |tokens| - 1;
    var checksum := ThreeDigits(Sum(FrontText(fields, sep)) % 256);
    WireTokensSplit(fields, sep);
    FrontRenders(fields, sep);
    assert tokens == tokens[..n] + [tokens[n]];
    RenderSnoc(tokens[..n], tokens[n], sep);
    FramingTags();
    TrailerText(FrontText(fields, sep), checksum, sep);
  }

  lemma WireTokensSplit(fields: seq<Field>, sep: Separator)
    requires fields != []
    ensures var tokens, kept := WireTokens(fields, sep), TokensOf(Kept(fields[1..]));
            var n := |tokens| - 1;
            && n == |kept| + 2
            && tokens[2..n] == kept
            && tokens[..n] == [TokenOf(Field(8, fields[0].value)),
                               TokenOf(Field(9, Digits(|BodyText(fields, sep)|)))] + kept
            && tokens[n] == TokenOf(Field(10, ThreeDigits(Sum(FrontText(fields, sep)) % 256)))
  {
    hide BodyText, FrontText, Kept, Digits, ThreeDigits, TokenOf;
  }

  lemma TrailerText(front: bytes, checksum: bytes, sep: Separator)
    ensures front + "10=" + checksum + [sep] == front + ("10" + ['='] + checksum + [sep])
  {
  }

  lemma HeaderText(first: bytes, length: bytes, body: bytes, sep: Separator)
    ensures "8=" + first + [sep] + "9=" + length + [sep] + body
         == ("8" + ['='] + first + [sep]) + (("9" + ['='] + length + [sep]) + body)
  {
  }

  lemma FrontRenders(fields: seq<Field>, sep: Separator)
    requires fields != []
    ensures var body := BodyText(fields, sep);
            var header := [TokenOf(Field(8, fields[0].value)), TokenOf(Field(9, Digits(|body|)))];
            Render(header + TokensOf(Kept(fields[1..])), sep) == FrontText(fields, sep)
  {
    var body := BodyText(fields, sep);
    var t8, t9 := TokenOf(Field(8, fields[0].value)), TokenOf(Field(9, Digits(|body|)));
    var kept := TokensOf(Kept(fields[1..]));
    var all := [t8, t9] + kept;
    assert all[1..] == [t9] + kept && all[1..][1..] == kept;
    FramingTags();
    HeaderText(fields[0].value, Digits(|body|), body, sep);
  }

  lemma CanonicalFields(fields: seq<Field>, sep: Separator)
    requires fields != []
    ensures TokenFields(WireTokens(fields, sep)) == Canonical(fields, sep)
  {
  }

  lemma WireIsSegmented(fields: seq<Field>, sep: Separator)
    requires Separable(fields, sep)
    ensures Segmentation(Wire(fields, sep), sep, Scanned(WireTokens(fields, sep), []))
  {
    hide Wire, Render, GoodToken, Kept, TokenOf, Canonical, FreeOf;
    var tokens := WireTokens(fields, sep);
    var canonical := Canonical(fields, sep);
    WireRenders(fields, sep);
    assert Wire(fields, sep) == Render(tokens, sep) + [];
    forall i | 0 <= i < |tokens|
      ensures GoodToken(tokens[i], sep)
    {
      CanonicalIsFree(fields, sep, i);
      GoodTokenOf(canonical[i], sep);
    }
  }

  lemma WireIsWellFormed(fields: seq<Field>, sep: Separator)
    requires Writable(fields, sep)
    ensures WellFormed(Wire(fields, sep), sep, Scanned(WireTokens(fields, sep), []))
  {
    hide Wire, Segmentation, LengthHolds, ChecksumHolds, Kept, FreeOf, BodyText, FrontText;
    WireIsSegmented(fields, sep);
    WireRenders(fields, sep);
    WireChecks(fields, sep);
  }

  lemma CanonicalIsFree(fields: seq<Field>, sep: Separator, i: nat)
    requires Separable(fields, sep) && i < |Canonical(fields, sep)|
    ensures sep !in Canonical(fields, sep)[i].value
  {
    var canonical := Canonical(fields, sep);
    if 2 <= i < |canonical| - 1 {
      assert canonical[i] == Kept(fields[1..])[i - 2];
      assert canonical[i] in Kept(fields[1..]);
    }
  }

  lemma WireChecks(fields: seq<Field>, sep: Separator)
    requires Writable(fields, sep)
    ensures LengthHolds(WireTokens(fields, sep), sep) && ChecksumHolds(WireTokens(fields, sep), sep)
  {
    hide BodyText, FrontText, Kept, FromChars, Digits, ThreeDigits, Wire, Render;
    WireRenders(fields, sep);
    var body := BodyText(fields, sep);
    var tokens := WireTokens(fields, sep);
    DigitsDenote(|body|);
    FromDigits(Digits(|body|));
    ThreeDigitsDenote(Sum(FrontText(fields, sep)) % 256);
  }

  /**
   Writing and reading back gives the canonical fields exactly when the values
   are free of the separator, the fields fit the parser's table, and the
   length can be declared in 32 bits.
   */
  lemma RoundTrip(fields: seq<Field>, sep: Separator)
    requires fields != []
    ensures Parsing(Wire(fields, sep), sep) == Ok(Canonical(fields, sep)) <==> Writable(fields, sep)
  {
    CanonicalFields(fields, sep);
    if Writable(fields, sep) {
      WireIsWellFormed(fields, sep);
      ParsingIsComplete(Wire(fields, sep), sep, Scanned(WireTokens(fields, sep), []));
    }
    if Parsing(Wire(fields, sep), sep) == Ok(Canonical(fields, sep)) {
      ReadBackIsWritable(fields, sep);
    }
  }

  lemma ReadBackIsWritable(fields: seq<Field>, sep: Separator)
    requires fields != []
    requires Parsing(Wire(fields, sep), sep) == Ok(Canonical(fields, sep))
    ensures Writable(fields, sep)
  {
    var r := ParsingIsSound(Wire(fields, sep), sep);
    var canonical := Canonical(fields, sep);
    assert forall i :: 0 <= i < |canonical| ==> canonical[i].value == r.tokens[i].value;
    ReadBackIsFree(r.tokens, canonical, Kept(fields[1..]), sep);
    DeclaredLength(|BodyText(fields, sep)|, r.tokens[1].value);
  }

  lemma ReadBackIsFree(tokens: seq<Token>, canonical: seq<Field>, kept: seq<Field>, sep: Separator)
    requires |tokens| == |canonical| == |kept| + 3 && canonical[2..|kept| + 2] == kept
    requires forall i :: 0 <= i < |canonical| ==> canonical[i].value == tokens[i].value
    requires forall i :: 0 <= i < |tokens| ==> GoodToken(tokens[i], sep)
    ensures sep !in canonical[0].value && FreeOf(kept, sep)
  {
    assert GoodToken(tokens[0], sep);
    forall f | f in kept
      ensures sep !in f.value
    {
      var i :| 0 <= i < |kept| && kept[i] == f;
      assert canonical[i + 2] == f && GoodToken(tokens[i + 2], sep);
    }
  }

  /** A declared length is readable only below 2^31. */
  lemma DeclaredLength(n: nat, text: bytes)
    requires text == Digits(n) && FromChars(text).Parsed?
    ensures n < 0x8000_0000
  {
    DigitsDenote(n);
    DigitRunIs(text, |text|);
    assert text[..|text|] == text && IsDigit(text[0]);
  }

  // ----- reading and writing again -----

  lemma {:induction false} KeptAppend(a: seq<Field>, b: seq<Field>)
    ensures Kept(a + b) == Kept(a) + Kept(b)
  {
    if b == [] {
      assert a + b == a;
    } else {
      assert (a + b)[..|a + b| - 1] == a + b[..|b| - 1];
      KeptAppend(a, b[..|b| - 1]);
    }
  }

  /** The kept fields are those not generated by the writer. */
  lemma {:induction false} KeptMembers(fields: seq<Field>)
    ensures forall f :: f in Kept(fields) <==> f in fields && !IsFraming(f.tag)
  {
    if fields != [] {
      var n := |fields| - 1;
      assert fields == fields[..n] + [fields[n]];
      KeptMembers(fields[..n]);
    }
  }

  lemma {:induction false} KeptAll(fields: seq<Field>)
    requires forall i :: 0 <= i < |fields| ==> !IsFraming(fields[i].tag)
    ensures Kept(fields) == fields
  {
    if fields != [] {
      var n := |fields| - 1;
      KeptAll(fields[..n]);
      assert fields == fields[..n] + [fields[n]];
    }
  }

  lemma KeptCanonical(fields: seq<Field>, sep: Separator)
    requires fields != []
    ensures Kept(Canonical(fields, sep)[1..]) == Kept(fields[1..])
  {
    var kept := Kept(fields[1..]);
    var canonical := Canonical(fields, sep);
    var second, last := canonical[1], canonical[|canonical| - 1];
    assert canonical[1..] == [second] + kept + [last];
    KeptAppend([second] + kept, [last]);
    KeptAppend([second], kept);
    KeptFraming(second);
    KeptFraming(last);
    KeptMembers(fields[1..]);
    assert forall i :: 0 <= i < |kept| ==> kept[i] in kept;
    KeptAll(kept);
  }

  lemma KeptFraming(f: Field)
    requires IsFraming(f.tag)
    ensures Kept([f]) == []
  {
    assert [f][..0] == [];
  }

  /** The wire text depends on the first value and the kept fields alone. */
  lemma WireDependsOn(a: seq<Field>, b: seq<Field>, sep: Separator)
    requires a != [] && b != []
    requires a[0].value == b[0].value && Kept(a[1..]) == Kept(b[1..])
    ensures Wire(a, sep) == Wire(b, sep)
  {
  }

  /** Writing the fields read back reproduces the message byte for byte. */
  lemma RewritingIsIdentity(fields: seq<Field>, sep: Separator)
    requires fields != []
    ensures Wire(Canonical(fields, sep), sep) == Wire(fields, sep)
  {
    KeptCanonical(fields, sep);
    WireDependsOn(Canonical(fields, sep), fields, sep);
  }

  /** Different kept fields have different wire texts. */
  lemma WritingIsInjective(a: seq<Field>, b: seq<Field>, sep: Separator)
    requires Separable(a, sep) && Separable(b, sep)
    requires Wire(a, sep) == Wire(b, sep)
    ensures a[0].value == b[0].value && Kept(a[1..]) == Kept(b[1..])
  {
    hide Wire, Segmentation, FreeOf, WireTokens, Kept, BodyText, FrontText;
    WireIsSegmented(a, sep);
    WireIsSegmented(b, sep);
    SegmentationIsUnique(Wire(a, sep), sep, Scanned(WireTokens(a, sep), []), Scanned(WireTokens(b, sep), []));
    CanonicalFields(a, sep);
    CanonicalFields(b, sep);
    var x, y := Canonical(a, sep), Canonical(b, sep);
    assert x == y;
    assert Kept(a[1..]) == x[2..|x| - 1] && Kept(b[1..]) == y[2..|y| - 1];
    assert x[0].value == y[0].value;
  }

  // ----- looking a field up -----

  /** The first field with a tag is the one found. */
  lemma {:induction false} FieldAt(fields: seq<Field>, tag: int, i: nat)
    requires i < |fields| && fields[i].tag == tag
    requires forall j :: 0 <= j < i ==> fields[j].tag != tag
    ensures FieldOf(fields, tag) == Some(fields[i].value)
  {
    if i > 0 {
      FieldAt(fields[1..], tag, i - 1);
    }
  }

  // ----- boundaries between fields -----

  lemma RenderSplit(tokens: seq<Token>, j: nat, sep: Separator)
    requires j <= |tokens|
    ensures Render(tokens, sep) == Render(tokens[..j], sep) + Render(tokens[j..], sep)
  {
    assert tokens == tokens[..j] + tokens[j..];
    RenderAppend(tokens[..j], tokens[j..], sep);
  }

  /** The bytes the checksum covers end with a separator. */
  lemma SummedEnd(tokens: seq<Token>, sep: Separator)
    requires |tokens| >= 2
    ensures var s := SummedBytes(tokens, sep);
            s != [] && s[|s| - 1] == sep
  {
    var front := tokens[..|tokens| - 1];
    var n := |front| - 1;
    assert front == front[..n] + [front[n]];
    RenderSnoc(front[..n], front[n], sep);
  }

  lemma RenderOfNothing(sep: Separator)
    ensures Render([], sep) == []
  {
  }

  lemma SegmentationCons(raw: bytes, sep: Separator, r: Scanned, t: Token, left: bytes)
    requires Segmentation(raw, sep, r)
    requires GoodToken(t, sep) && raw == TokenBytes(t, sep) + left
    ensures r.tokens != [] && r.tokens[0] == t
    ensures Segmentation(left, sep, Scanned(r.tokens[1..], r.tail))
  {
    hide ReadTag, NextToken, Render;
    TagTextBytes(t.text);
    NextTokenIs(t, left, sep);
    RenderOfNothing(sep);
    assert raw[|t.text|] == '=';
    assert '=' !in r.tail;
    assert r.tokens == [] ==> raw == r.tail;
    var u, rest := r.tokens[0], Scanned(r.tokens[1..], r.tail);
    TagTextBytes(u.text);
    var after := Render(rest.tokens, sep) + rest.tail;
    assert r.tokens == [u] + rest.tokens;
    RenderCons(u, rest, sep);
    NextTokenIs(u, after, sep);
    assert left == raw[|TokenBytes(t, sep)|..] == after;
  }

  lemma SegmentationHasEquals(raw: bytes, sep: Separator, r: Scanned)
    requires Segmentation(raw, sep, r) && r.tokens != []
    ensures '=' in raw
  {
    assert raw == TokenBytes(r.tokens[0], sep) + Render(r.tokens[1..], sep) + r.tail;
    assert raw[|r.tokens[0].text|] == '=';
  }

  lemma {:induction false} SegmentationIsUnique(raw: bytes, sep: Separator, a: Scanned, b: Scanned)
    requires Segmentation(raw, sep, a) && Segmentation(raw, sep, b)
    ensures a == b
    decreases |a.tokens|
  {
    if a.tokens == [] {
      assert raw == a.tail;
      assert '=' !in raw;
      if b.tokens != [] {
        SegmentationHasEquals(raw, sep, b);
      }
    } else {
      var t, rest := a.tokens[0], Scanned(a.tokens[1..], a.tail);
      var left := Render(rest.tokens, sep) + rest.tail;
      assert a.tokens == [t] + rest.tokens;
      RenderCons(t, rest, sep);
      SegmentationCons(raw, sep, b, t, left);
      SegmentationIsUnique(left, sep, rest, Scanned(b.tokens[1..], b.tail));
    }
  }

  /** Field boundaries are recognisable: right after a separator a new field begins. */
  lemma {:induction false} BoundaryAfterSeparator(tokens: seq<Token>, sep: Separator, p: nat) returns (j: nat)
    requires forall i :: 0 <= i < |tokens| ==> GoodToken(tokens[i], sep)
    requires 0 < p <= |Render(tokens, sep)| && Render(tokens, sep)[p - 1] == sep
    ensures j <= |tokens| && |Render(tokens[..j], sep)| == p
  {
    var first := TokenBytes(tokens[0], sep);
    if p <= |first| {
      SeparatorEndsToken(tokens[0], sep);
      j := 1;
      RenderOne(tokens[0], sep);
      assert tokens[..1] == [tokens[0]];
    } else {
      var k := BoundaryAfterSeparator(tokens[1..], sep, p - |first|);
      j := k + 1;
      assert tokens[..j][1..] == tokens[1..][..k];
    }
  }

  lemma SeparatorEndsToken(t: Token, sep: Separator)
    requires GoodToken(t, sep)
    ensures var b := TokenBytes(t, sep);
            forall i :: 0 <= i < |b| - 1 ==> b[i] != sep
  {
    var b := TokenBytes(t, sep);
    TagTextBytes(t.text);
    forall i | 0 <= i < |b| - 1
      ensures b[i] != sep
    {
      if i < |t.text| {
        assert b[i] == t.text[i];
      } else if i > |t.text| {
        assert b[i] == t.value[i - |t.text| - 1];
      }
    }
  }
}
