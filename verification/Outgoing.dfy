/**
 Outgoing messages: the session header, then the fields a scenario supplies
 apart from header tags. Read back, such a message carries the session's own
 type and number.
 */
module Outgoing {
  import opened Bytes
  import opened Decimal
  import opened Codec
  import opened CodecLaws
  import opened Session

  /** Tags that the session header owns. */
  predicate IsHeaderTag(tag: int) {
    tag == 8 || tag == 35 || tag == 49 || tag == 56 || tag == 34 || tag == 52
  }

  function WithoutHeader(fields: seq<Field>): seq<Field> {
    if fields == [] then []
    else if IsHeaderTag(fields[|fields| - 1].tag) then WithoutHeader(fields[..|fields| - 1])
    else WithoutHeader(fields[..|fields| - 1]) + [fields[|fields| - 1]]
  }

  /** The fields of the next outgoing message. */
  function OutgoingFields(config: SessionConfig, nextOut: int, msgType: bytes, time: bytes,
                          extra: seq<Field>): seq<Field> {
    Header(config, nextOut, msgType, time) + WithoutHeader(extra)
  }

  lemma HeaderIsKept(config: SessionConfig, nextOut: int, msgType: bytes, time: bytes, extra: seq<Field>)
    ensures var header := Header(config, nextOut, msgType, time);
            Kept(OutgoingFields(config, nextOut, msgType, time, extra)[1..]) == header[1..] + Kept(WithoutHeader(extra))
  {
    var header := Header(config, nextOut, msgType, time);
    assert OutgoingFields(config, nextOut, msgType, time, extra)[1..] == header[1..] + WithoutHeader(extra);
    KeptAppend(header[1..], WithoutHeader(extra));
    KeptAll(header[1..]);
  }

  /** Read back, an outgoing message shows the header's type and number, whatever was supplied. */
  lemma OutgoingReadsBack(config: SessionConfig, nextOut: int32, msgType: bytes, time: bytes, extra: seq<Field>,
                          sep: Separator)
    requires Writable(OutgoingFields(config, nextOut, msgType, time, extra), sep)
    ensures var fields := OutgoingFields(config, nextOut, msgType, time, extra);
            var parsed := Parsing(Wire(fields, sep), sep);
            && parsed == Ok(Canonical(fields, sep))
            && FieldOf(parsed.value, 35) == Some(msgType)
            && IntOf(parsed.value, 34) == Some(nextOut)
  {
    hide Wire, Parsing, Kept, BodyText, FrontText, FieldOf, FromChars, ToChars, WithoutHeader, Digits, ThreeDigits,
         Writable;
    var fields := OutgoingFields(config, nextOut, msgType, time, extra);
    RoundTrip(fields, sep);
    HeaderIsKept(config, nextOut, msgType, time, extra);
    var c := Canonical(fields, sep);
    assert c[2..|c| - 1] == Kept(fields[1..]);
    HeaderInCanonical(c, Header(config, nextOut, msgType, time), Kept(WithoutHeader(extra)));
    HeaderIsFound(c, Header(config, nextOut, msgType, time));
    FromToChars(nextOut, []);
    assert ToChars(nextOut) + [] == ToChars(nextOut);
  }

  /** The type and the number are the first fields with their tags. */
  lemma HeaderIsFound(c: seq<Field>, header: seq<Field>)
    requires |header| == 6 && |c| >= 8 && c[0].tag == 8 && c[1].tag == 9
    requires header[1].tag == 35 && header[2].tag == 49 && header[3].tag == 56 && header[4].tag == 34
    requires forall i :: 1 <= i < 6 ==> c[i + 1] == header[i]
    ensures FieldOf(c, 35) == Some(header[1].value) && FieldOf(c, 34) == Some(header[4].value)
  {
    hide FieldOf;
    assert c[2] == header[1] && c[3] == header[2] && c[4] == header[3] && c[5] == header[4];
    FieldAt(c, 35, 2);
    FieldAt(c, 34, 5);
  }

  lemma HeaderInCanonical(c: seq<Field>, header: seq<Field>, rest: seq<Field>)
    requires |header| == 6 && |c| >= 8 && c[2..|c| - 1] == header[1..] + rest
    ensures forall i :: 1 <= i < 6 ==> c[i + 1] == header[i]
  {
    forall i | 1 <= i < 6
      ensures c[i + 1] == header[i]
    {
      assert c[2..|c| - 1][i - 1] == header[i];
    }
  }

  // ----- what makes an outgoing message writable -----

  /** Values free of the separator, and few enough fields for the parser's table. */
  ghost predicate Sendable(config: SessionConfig, msgType: bytes, time: bytes, extra: seq<Field>, sep: Separator) {
    && sep !in config.beginString && sep !in config.senderCompId && sep !in config.targetCompId
    && sep !in msgType && sep !in time
    && FreeOf(Kept(WithoutHeader(extra)), sep)
    && |Kept(WithoutHeader(extra))| <= MAX_FIELDS - 8
  }

  lemma ToCharsIsFree(n: int, sep: Separator)
    ensures sep !in ToChars(n)
  {
  }

  lemma BodyFits(fields: seq<Field>, sep: Separator)
    requires fields != []
    ensures |BodyText(fields, sep)| < |Wire(fields, sep)|
  {
  }

  lemma SendableIsWritable(config: SessionConfig, nextOut: int, msgType: bytes, time: bytes, extra: seq<Field>,
                           sep: Separator)
    requires Sendable(config, msgType, time, extra, sep)
    requires |Wire(OutgoingFields(config, nextOut, msgType, time, extra), sep)| < 0x8000_0000
    ensures Writable(OutgoingFields(config, nextOut, msgType, time, extra), sep)
  {
    hide Wire, Kept, BodyText, FrontText, ToChars, WithoutHeader;
    var fields := OutgoingFields(config, nextOut, msgType, time, extra);
    var header := Header(config, nextOut, msgType, time);
    HeaderIsKept(config, nextOut, msgType, time, extra);
    ToCharsIsFree(nextOut, sep);
    BodyFits(fields, sep);
    forall f | f in header[1..] + Kept(WithoutHeader(extra))
      ensures sep !in f.value
    {
      if f in header[1..] {
        assert f in [header[1], header[2], header[3], header[4], header[5]];
      }
    }
  }

  // ----- how long an outgoing message is -----

  /** The length of the outgoing message, whenever it is sent. */
  function OutgoingSize(config: SessionConfig, nextOut: int, msgType: bytes, extra: seq<Field>, sep: Separator): nat {
    |Wire(OutgoingFields(config, nextOut, msgType, EPOCH, extra), sep)|
  }

  /** The length of a message depends on the lengths of its first value and its body alone. */
  lemma SameSize(a: seq<Field>, b: seq<Field>, sep: Separator)
    requires a != [] && b != []
    requires |a[0].value| == |b[0].value| && |BodyText(a, sep)| == |BodyText(b, sep)|
    ensures |Wire(a, sep)| == |Wire(b, sep)|
  {
    hide BodyText;
  }

  lemma BodyParts(config: SessionConfig, nextOut: int, msgType: bytes, time: bytes, extra: seq<Field>, sep: Separator)
    ensures var front := Header(config, nextOut, msgType, [])[1..5];
            BodyText(OutgoingFields(config, nextOut, msgType, time, extra), sep)
            == (Render(TokensOf(front), sep) + TokenBytes(TokenOf(Field(52, time)), sep))
               + Render(TokensOf(Kept(WithoutHeader(extra))), sep)
  {
    hide Kept, WithoutHeader, TokenBytes, ToChars, Render;
    var header, rest := Header(config, nextOut, msgType, time), Kept(WithoutHeader(extra));
    var front, last := Header(config, nextOut, msgType, [])[1..5], Field(52, time);
    HeaderIsKept(config, nextOut, msgType, time, extra);
    assert header[1..] == front + [last];
    TokensOfAppend(front + [last], rest);
    TokensOfAppend(front, [last]);
    assert TokensOf([last]) == [TokenOf(last)];
    RenderAppend(TokensOf(front + [last]), TokensOf(rest), sep);
    RenderSnoc(TokensOf(front), TokenOf(last), sep);
  }

  /** A time stamp does not change the length of the message. */
  lemma SizeIgnoresTime(config: SessionConfig, nextOut: int, msgType: bytes, time: bytes, extra: seq<Field>,
                        sep: Separator)
    requires IsTimestamp(time)
    ensures |Wire(OutgoingFields(config, nextOut, msgType, time, extra), sep)|
         == OutgoingSize(config, nextOut, msgType, extra, sep)
  {
    hide Wire, BodyText, Render, ToChars, WithoutHeader, Kept, TokensOf;
    BodyParts(config, nextOut, msgType, time, extra, sep);
    BodyParts(config, nextOut, msgType, EPOCH, extra, sep);
    assert |EPOCH| == 21;
    SameSize(OutgoingFields(config, nextOut, msgType, time, extra),
             OutgoingFields(config, nextOut, msgType, EPOCH, extra), sep);
  }

  lemma WireSize(fields: seq<Field>, sep: Separator)
    requires fields != []
    ensures |Wire(fields, sep)| == |fields[0].value| + |BodyText(fields, sep)| + |Digits(|BodyText(fields, sep)|)| + 13
  {
    hide BodyText, Digits;
  }

  /** A message of short header values and nothing else is short. */
  lemma ShortIsShort(config: SessionConfig, nextOut: nat, msgType: bytes, extra: seq<Field>, sep: Separator)
    requires nextOut < 10 && |msgType| <= 100 && Kept(WithoutHeader(extra)) == []
    requires |config.beginString| <= 100 && |config.senderCompId| <= 100 && |config.targetCompId| <= 100
    ensures OutgoingSize(config, nextOut, msgType, extra, sep) <= 1000
  {
    hide Digits, Wire, WithoutHeader, Kept;
    var fields := OutgoingFields(config, nextOut, msgType, EPOCH, extra);
    WireSize(fields, sep);
    BodyParts(config, nextOut, msgType, EPOCH, extra, sep);
    var front := Header(config, nextOut, msgType, [])[1..5];
    assert front == [front[0], front[1], front[2], front[3]];
    HeaderSize(front[0], front[1], front[2], front[3], sep);
    TwoDigitTags(nextOut);
    NothingRendered(sep);
    assert |BodyText(fields, sep)| < 400;
    assert Pow10(3) == 1000 by { assert Pow10(2) == 10 * Pow10(1) == 10 * (10 * Pow10(0)); }
    DigitsLength(|BodyText(fields, sep)|, 3);
  }

  lemma NothingRendered(sep: Separator)
    ensures Render(TokensOf([]), sep) == []
  {
    assert TokensOf([]) == [];
  }

  lemma HeaderSize(a: Field, b: Field, c: Field, d: Field, sep: Separator)
    ensures |Render(TokensOf([a, b, c, d]), sep)|
         == |TokenBytes(TokenOf(a), sep)| + |TokenBytes(TokenOf(b), sep)| + |TokenBytes(TokenOf(c), sep)|
            + |TokenBytes(TokenOf(d), sep)|
  {
    hide TokenBytes, TokenOf;
    var s, t, u, v := TokenOf(a), TokenOf(b), TokenOf(c), TokenOf(d);
    assert TokensOf([a, b, c, d]) == [s] + [t] + [u] + [v];
    RenderOne(s, sep);
    RenderSnoc([s], t, sep);
    RenderSnoc([s] + [t], u, sep);
    RenderSnoc([s] + [t] + [u], v, sep);
  }

  lemma TwoDigitTags(n: nat)
    requires n < 10
    ensures |ToChars(35)| == |ToChars(49)| == |ToChars(56)| == |ToChars(34)| == |ToChars(52)| == 2 && |ToChars(n)| == 1
  {
    assert |Digits(3)| == |Digits(4)| == |Digits(5)| == 1;
    assert Digits(35) == Digits(3) + [DigitByte(5)] && Digits(34) == Digits(3) + [DigitByte(4)];
    assert Digits(49) == Digits(4) + [DigitByte(9)];
    assert Digits(56) == Digits(5) + [DigitByte(6)] && Digits(52) == Digits(5) + [DigitByte(2)];
  }
}
