/**
 What the receiver of a written message reads, field by field: nothing that was
 supplied is lost but the tags that the writer or the session provides itself.
 */
module ReadBack {
  import opened Bytes
  import opened Decimal
  import opened Codec
  import opened CodecLaws
  import opened Session
  import opened Outgoing

  /** The fields whose tags are not among the given ones, in order. */
  function Omitting(fields: seq<Field>, tags: set<int>): seq<Field> {
    if fields == [] then []
    else
      var n := |fields| - 1;
      if (fields[n].tag as int) in tags then Omitting(fields[..n], tags) else Omitting(fields[..n], tags) + [fields[n]]
  }

  /** The fields with the tag, in order. */
  function OfTag(fields: seq<Field>, tag: int): seq<Field> {
    if fields == [] then []
    else
      var n := |fields| - 1;
      if fields[n].tag == tag then OfTag(fields[..n], tag) + [fields[n]] else OfTag(fields[..n], tag)
  }

  lemma {:induction false} OfTagAppend(a: seq<Field>, b: seq<Field>, tag: int)
    ensures OfTag(a + b, tag) == OfTag(a, tag) + OfTag(b, tag)
  {
    if b == [] {
      assert a + b == a;
    } else {
      var n := |b| - 1;
      assert (a + b)[..|a + b| - 1] == a + b[..n];
      OfTagAppend(a, b[..n], tag);
    }
  }

  lemma OfTagOne(f: Field, tag: int)
    ensures OfTag([f], tag) == if f.tag == tag then [f] else []
  {
    assert [f][..0] == [];
  }

  /** Omitting some tags keeps every other tag's fields and none of theirs. */
  lemma {:induction false} OmittingByTag(fields: seq<Field>, tags: set<int>, tag: int)
    ensures OfTag(Omitting(fields, tags), tag) == if tag in tags then [] else OfTag(fields, tag)
  {
    if fields != [] {
      var n := |fields| - 1;
      OmittingByTag(fields[..n], tags, tag);
      OfTagOne(fields[n], tag);
      OfTagAppend(Omitting(fields[..n], tags), [fields[n]], tag);
    }
  }

  lemma {:induction false} OmittingTwice(fields: seq<Field>, a: set<int>, b: set<int>)
    ensures Omitting(Omitting(fields, a), b) == Omitting(fields, a + b)
  {
    if fields != [] {
      var n := |fields| - 1;
      OmittingTwice(fields[..n], a, b);
      OmittingNext(Omitting(fields[..n], a), fields[n], b);
    }
  }

  lemma OmittingNext(fields: seq<Field>, f: Field, tags: set<int>)
    ensures Omitting(fields + [f], tags)
         == if (f.tag as int) in tags then Omitting(fields, tags) else Omitting(fields, tags) + [f]
  {
    assert (fields + [f])[..|fields|] == fields;
  }

  lemma {:induction false} KeptIs(fields: seq<Field>)
    ensures Kept(fields) == Omitting(fields, {8, 9, 10})
  {
    if fields != [] {
      KeptIs(fields[..|fields| - 1]);
    }
  }

  lemma {:induction false} WithoutHeaderIs(fields: seq<Field>)
    ensures WithoutHeader(fields) == Omitting(fields, {8, 34, 35, 49, 52, 56})
  {
    if fields != [] {
      WithoutHeaderIs(fields[..|fields| - 1]);
    }
  }

  /**
   A written message reads as the first value under tag 8, the body length, the
   other fields but those with tags 8, 9 and 10, and the checksum.
   */
  lemma WrittenReadsAs(fields: seq<Field>, sep: Separator)
    requires Writable(fields, sep)
    ensures var parsed := Parsing(Wire(fields, sep), sep);
            && parsed.Ok?
            && var p, body := parsed.value, Omitting(fields[1..], {8, 9, 10});
               && |p| == |body| + 3
               && p[0] == Field(8, fields[0].value)
               && p[1].tag == 9 && Denotes(p[1].value, |BodyText(fields, sep)|)
               && p[2..|p| - 1] == body
               && p[|p| - 1].tag == 10 && |p[|p| - 1].value| == 3
               && Denotes(p[|p| - 1].value, Sum(FrontText(fields, sep)) % 256)
  {
    hide Wire, Parsing, Kept, BodyText, FrontText, Omitting, Digits, ThreeDigits, Writable;
    WritableIsSome(fields, sep);
    RoundTrip(fields, sep);
    KeptIs(fields[1..]);
    DigitsDenote(|BodyText(fields, sep)|);
    ChecksumDenotes(Sum(FrontText(fields, sep)) % 256);
    var c, kept := Canonical(fields, sep), Kept(fields[1..]);
    assert c[2..|c| - 1] == kept;
  }

  lemma ChecksumDenotes(c: nat)
    requires c < 256
    ensures |ThreeDigits(c)| == 3 && Denotes(ThreeDigits(c), c)
  {
    hide FromChars, Denotes;
    ThreeDigitsDenote(c);
    WholeReadingMeans(ThreeDigits(c), c);
  }

  lemma WritableIsSome(fields: seq<Field>, sep: Separator)
    requires Writable(fields, sep)
    ensures fields != []
  {
  }

  // ----- outgoing messages -----

  /** The tags that the writer and the session provide. */
  const PROVIDED: set<int> := {8, 9, 10, 34, 35, 49, 52, 56}

  /**
   The bytes read as the message of a session numbered n: header, then the
   supplied fields but those with tags 8, 9, 10, 34, 35, 49, 52 and 56, trailer.
   */
  ghost predicate ReadsAs(data: bytes, config: SessionConfig, n: int, msgType: bytes, time: bytes,
                          supplied: seq<Field>)
  {
    var parsed := Parsing(data, SOH);
    && parsed.Ok?
    && var p, body := parsed.value, Omitting(supplied, {8, 9, 10, 34, 35, 49, 52, 56});
       && |p| == |body| + 8
       && p[0] == Field(8, config.beginString)
       && p[1].tag == 9
       && p[2] == Field(35, msgType)
       && p[3] == Field(49, config.senderCompId)
       && p[4] == Field(56, config.targetCompId)
       && p[5].tag == 34 && Denotes(p[5].value, n)
       && p[6] == Field(52, time)
       && p[7..|p| - 1] == body
       && p[|p| - 1].tag == 10
  }

  lemma NumberDenotes(n: int)
    ensures Denotes(ToChars(n), n)
  {
    if n < 0 {
      DigitsDenote(-n);
      assert ToChars(n)[1..] == Digits(-n);
    } else {
      DigitsDenote(n);
    }
  }

  /** What the receiver of an outgoing message reads, whatever fields were supplied. */
  lemma OutgoingReadsAs(config: SessionConfig, nextOut: int, msgType: bytes, time: bytes, extra: seq<Field>)
    requires Writable(OutgoingFields(config, nextOut, msgType, time, extra), SOH)
    ensures var data := Wire(OutgoingFields(config, nextOut, msgType, time, extra), SOH);
            ReadsAs(data, config, nextOut, msgType, time, extra)
  {
    hide Wire, Parsing, Kept, WithoutHeader, BodyText, FrontText, Omitting, Digits, ThreeDigits, Writable, ToChars,
         Denotes;
    var fields := OutgoingFields(config, nextOut, msgType, time, extra);
    var header := Header(config, nextOut, msgType, time);
    RoundTrip(fields, SOH);
    HeaderIsKept(config, nextOut, msgType, time, extra);
    WithoutHeaderIs(extra);
    KeptIs(WithoutHeader(extra));
    OmittingTwice(extra, {8, 34, 35, 49, 52, 56}, {8, 9, 10});
    assert {8, 34, 35, 49, 52, 56} + {8, 9, 10} == {8, 9, 10, 34, 35, 49, 52, 56};
    NumberDenotes(nextOut);
    var body := Omitting(extra, {8, 9, 10, 34, 35, 49, 52, 56});
    CanonicalParts(Canonical(fields, SOH), Field(8, config.beginString), header, body);
  }

  lemma CanonicalParts(c: seq<Field>, first: Field, header: seq<Field>, body: seq<Field>)
    requires |header| == 6 && |c| >= 3 && c[2..|c| - 1] == header[1..] + body && c[0] == first
    ensures |c| == |body| + 8
    ensures c[2] == header[1] && c[3] == header[2] && c[4] == header[3] && c[5] == header[4] && c[6] == header[5]
    ensures c[7..|c| - 1] == body
  {
    var m := c[2..|c| - 1];
    assert forall i :: 1 <= i < 6 ==> m[i - 1] == header[i];
    assert c[7..|c| - 1] == m[5..];
  }

  /**
   Tag by tag: a supplied field of any other tag arrives, all of them in order;
   the provided tags arrive once each.
   */
  lemma ReadTagByTag(data: bytes, config: SessionConfig, n: int, msgType: bytes, time: bytes, supplied: seq<Field>,
                     tag: int)
    requires ReadsAs(data, config, n, msgType, time, supplied)
    ensures var p := Parsing(data, SOH).value;
            && (tag !in PROVIDED ==> OfTag(p, tag) == OfTag(supplied, tag))
            && (tag in PROVIDED ==> |OfTag(p, tag)| == 1)
            && OfTag(p, 8) == [Field(8, config.beginString)] && OfTag(p, 35) == [Field(35, msgType)]
            && OfTag(p, 49) == [Field(49, config.senderCompId)] && OfTag(p, 56) == [Field(56, config.targetCompId)]
            && OfTag(p, 52) == [Field(52, time)]
  {
    hide Parsing, Omitting, OfTag, Denotes;
    var p := Parsing(data, SOH).value;
    PartsByTag(p, supplied, tag);
    PartsByTag(p, supplied, 8);
    PartsByTag(p, supplied, 35);
    PartsByTag(p, supplied, 49);
    PartsByTag(p, supplied, 56);
    PartsByTag(p, supplied, 52);
  }

  /** Header, body and trailer, seen through one tag. */
  lemma PartsByTag(p: seq<Field>, supplied: seq<Field>, tag: int)
    requires var body := Omitting(supplied, {8, 9, 10, 34, 35, 49, 52, 56});
             |p| == |body| + 8 && p[7..|p| - 1] == body
    ensures OfTag(p, tag)
         == OneOf(p[0], tag) + OneOf(p[1], tag) + OneOf(p[2], tag) + OneOf(p[3], tag) + OneOf(p[4], tag)
            + OneOf(p[5], tag) + OneOf(p[6], tag) + (if tag in PROVIDED then [] else OfTag(supplied, tag))
            + OneOf(p[|p| - 1], tag)
  {
    hide Omitting, OfTag;
    var last := |p| - 1;
    OmittingByTag(supplied, {8, 9, 10, 34, 35, 49, 52, 56}, tag);
    assert p == p[..7] + p[7..last] + [p[last]];
    OfTagAppend(p[..7] + p[7..last], [p[last]], tag);
    OfTagAppend(p[..7], p[7..last], tag);
    OfTagOne(p[last], tag);
    SevenByTag(p[..7], tag);
  }

  function OneOf(f: Field, tag: int): seq<Field> { if f.tag == tag then [f] else [] }

  lemma SevenByTag(s: seq<Field>, tag: int)
    requires |s| == 7
    ensures OfTag(s, tag)
         == OneOf(s[0], tag) + OneOf(s[1], tag) + OneOf(s[2], tag) + OneOf(s[3], tag) + OneOf(s[4], tag)
            + OneOf(s[5], tag) + OneOf(s[6], tag)
  {
    hide OfTag;
    assert s == [s[0]] + [s[1]] + [s[2]] + [s[3]] + [s[4]] + [s[5]] + [s[6]];
    OfTagAppend([s[0]] + [s[1]] + [s[2]] + [s[3]] + [s[4]] + [s[5]], [s[6]], tag);
    OfTagAppend([s[0]] + [s[1]] + [s[2]] + [s[3]] + [s[4]], [s[5]], tag);
    OfTagAppend([s[0]] + [s[1]] + [s[2]] + [s[3]], [s[4]], tag);
    OfTagAppend([s[0]] + [s[1]] + [s[2]], [s[3]], tag);
    OfTagAppend([s[0]] + [s[1]], [s[2]], tag);
    OfTagAppend([s[0]], [s[1]], tag);
    OfTagOne(s[0], tag);
    OfTagOne(s[1], tag);
    OfTagOne(s[2], tag);
    OfTagOne(s[3], tag);
    OfTagOne(s[4], tag);
    OfTagOne(s[5], tag);
    OfTagOne(s[6], tag);
  }
}
