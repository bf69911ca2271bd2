/**
 A peer's messages from its session, over a byte stream cut into chunks, into
 the receiving session.
 */
module EndToEnd {
  import opened Bytes
  import opened Decimal
  import opened Codec
  import opened CodecLaws
  import opened Framing
  import opened Framability
  import opened Session
  import opened Delivery
  import opened Outgoing
  import opened Stream

  /** What a peer sends besides its header. */
  datatype Outbound = Outbound(msgType: bytes, time: bytes, extra: seq<Field>)

  /** The fields of the peer's messages, numbered from first on. */
  function PeerMessages(config: SessionConfig, first: int, sent: seq<Outbound>): (r: seq<seq<Field>>)
    ensures |r| == |sent|
  {
    seq(|sent|, i requires 0 <= i < |sent| =>
          OutgoingFields(config, first + i, sent[i].msgType, sent[i].time, sent[i].extra))
  }

  /** A conversation: one Logon, which comes first, no reset and no logout. */
  predicate Conversation(sent: seq<Outbound>) {
    && sent != [] && sent[0].msgType == "A"
    && forall i :: 1 <= i < |sent| ==> sent[i].msgType != "A" && sent[i].msgType != "4" && sent[i].msgType != "5"
  }

  /** What the session reads from framed messages. */
  function Read(raws: seq<bytes>): seq<Incoming>
    requires forall i :: 0 <= i < |raws| ==> Parsing(raws[i], SOH).Ok?
  {
    seq(|raws|, i requires 0 <= i < |raws| => ReadIncoming(Parsing(raws[i], SOH).value))
  }

  /** What arrives bears the type and number it was sent with. */
  lemma ArrivesAsSent(config: SessionConfig, first: int, sent: seq<Outbound>, i: nat)
    requires -0x8000_0000 <= first && first + |sent| <= 0x8000_0000 && i < |sent|
    requires Transmissible(PeerMessages(config, first, sent), SOH)
    ensures var parsed := Parsing(Wires(PeerMessages(config, first, sent), SOH)[i], SOH);
            && parsed.Ok?
            && var m := ReadIncoming(parsed.value);
               m.msgType == Some(sent[i].msgType) && m.seqNum == Some(first + i)
  {
    hide Wire, Parsing, Writable, FieldOf, IntOf, Canonical, OutgoingFields, FrontText, IndexOfText;
    var fields := PeerMessages(config, first, sent);
    assert Writable(fields[i], SOH);
    OutgoingReadsBack(config, first + i, sent[i].msgType, sent[i].time, sent[i].extra, SOH);
  }

  lemma SessionFollows(s: SessionState, first: int, sent: seq<Outbound>, arrived: seq<Incoming>)
    requires !s.loggedOn && Conversation(sent) && |arrived| == |sent|
    requires forall i :: 0 <= i < |sent| ==>
               && arrived[i].msgType == Some(sent[i].msgType)
               && arrived[i].seqNum.Some? && arrived[i].seqNum.value == first + i
    ensures Process(s, arrived) == Outcome(SessionState(true, first + |sent|, s.nextOut), Applications(arrived[1..]))
  {
    var rest := arrived[1..];
    assert forall i :: 0 <= i < |rest| ==> rest[i] == arrived[i + 1];
    var logged := Receive(s, arrived[0]).state;
    assert Consecutive(rest, logged.nextIn);
    ConsecutiveAdvances(logged, rest);
    ConsecutiveDelivers(logged, rest);
  }

  /**
   End to end: the peer's messages, written, concatenated and cut into chunks
   anywhere but after a message's first byte, are framed, parsed and consumed in
   order; the session ends expecting the peer's next number, with every
   application message delivered and nothing left in the buffer.
   */
  lemma EndToEnd(config: SessionConfig, first: int, sent: seq<Outbound>, chunks: seq<bytes>, s: SessionState)
    requires -0x8000_0000 <= first && first + |sent| <= 0x8000_0000
    requires Conversation(sent) && !s.loggedOn
    requires Transmissible(PeerMessages(config, first, sent), SOH)
    requires Concat(chunks) == Concat(Wires(PeerMessages(config, first, sent), SOH))
    requires !EndsAfterFirstByte(0, chunks, Wires(PeerMessages(config, first, sent), SOH))
    ensures var d := FeedAll([], chunks, SOH);
            && d.residue == [] && |d.messages| == |sent|
            && (forall i :: 0 <= i < |sent| ==> Parsing(d.messages[i], SOH).Ok?)
            && var arrived := Read(d.messages);
               && (forall i :: 0 <= i < |sent| ==> arrived[i].msgType == Some(sent[i].msgType))
               && Process(s, arrived)
                  == Outcome(SessionState(true, first + |sent|, s.nextOut), Applications(arrived[1..]))
  {
    hide Wire, Parsing, Writable, FieldOf, IntOf, Canonical, FeedAll, EndsAfterFirstByte, Concat, FrontText,
         Transmissible, Process, Applications, Conversation;
    var wires := Wires(PeerMessages(config, first, sent), SOH);
    StreamRoundTrip(PeerMessages(config, first, sent), chunks, SOH);
    forall i | 0 <= i < |sent|
      ensures Parsing(wires[i], SOH).Ok?
      ensures var m := ReadIncoming(Parsing(wires[i], SOH).value);
              m.msgType == Some(sent[i].msgType) && m.seqNum == Some(first + i)
    {
      ArrivesAsSent(config, first, sent, i);
    }
    SessionFollows(s, first, sent, Read(wires));
  }

  /** What a peer may supply: separator-free values, room for the fields, and nothing that fakes a trailer. */
  ghost predicate Suppliable(config: SessionConfig, m: Outbound) {
    && Sendable(config, m.msgType, m.time, m.extra, SOH)
    && !HoldsTrailer(config.beginString) && !HoldsTrailer(config.senderCompId) && !HoldsTrailer(config.targetCompId)
    && !HoldsTrailer(m.msgType) && !HoldsTrailer(m.time)
    && forall f :: f in Kept(WithoutHeader(m.extra)) ==> !HoldsTrailer(f.value) && !EndsInTen(f.tag)
  }

  /** The conditions of the stream round trip, in terms of what the peer supplies. */
  lemma SuppliedIsTransmissible(config: SessionConfig, first: int, sent: seq<Outbound>)
    requires forall i :: 0 <= i < |sent| ==> Suppliable(config, sent[i])
    requires forall i :: 0 <= i < |sent| ==> |Wire(PeerMessages(config, first, sent)[i], SOH)| < 0x8000_0000
    ensures Transmissible(PeerMessages(config, first, sent), SOH)
  {
    hide Wire, Writable, FramesWhole, Suppliable, Sendable, OutgoingFields;
    var messages := PeerMessages(config, first, sent);
    forall i | 0 <= i < |messages|
      ensures messages[i] != [] && Writable(messages[i], SOH) && FramesWhole(messages[i])
    {
      assert Suppliable(config, sent[i]);
      SuppliedFramesWhole(config, first + i, sent[i]);
      SendableIsWritable(config, first + i, sent[i].msgType, sent[i].time, sent[i].extra, SOH);
    }
  }

  lemma SuppliedFramesWhole(config: SessionConfig, n: int, m: Outbound)
    requires Suppliable(config, m)
    ensures var fields := OutgoingFields(config, n, m.msgType, m.time, m.extra);
            fields != [] && FramesWhole(fields) && Sendable(config, m.msgType, m.time, m.extra, SOH)
  {
    hide HoldsTrailer, Kept, WithoutHeader, Sendable, ToChars;
    var header := Header(config, n, m.msgType, m.time);
    HeaderIsKept(config, n, m.msgType, m.time, m.extra);
    NumberHoldsNothing(n);
    forall f | f in header[1..] + Kept(WithoutHeader(m.extra))
      ensures !HoldsTrailer(f.value) && !EndsInTen(f.tag)
    {
      if f in header[1..] {
        assert f in [header[1], header[2], header[3], header[4], header[5]];
      }
    }
  }

  lemma NumberHoldsNothing(n: int)
    ensures !HoldsTrailer(ToChars(n))
  {
    var s := ToChars(n);
    forall i: nat
      ensures !OccursAt(s, TRAILER, i)
    {
      OccursMeans(s, i);
      assert i + 2 < |s| ==> s[i + 2] == '-' || IsDigit(s[i + 2]);
    }
  }
}
