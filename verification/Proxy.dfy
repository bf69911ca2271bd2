/**
 The proxy: it frames traffic that uses either separator, and measures how
 long orders take to be answered.
 */
module Proxy {
  import opened Bytes
  import opened Codec
  import opened Framing

  // ----- framing with two separators -----

  /** Taking messages out of a buffer: up to SOH if that succeeds, else up to '|'. */
  function DrainBoth(s: bytes): Drained
    decreases |s|
  {
    var t := FromHead(s);
    match MessageEnd(t, SOH)
    case Some(n) =>
      var d := DrainBoth(t[n..]);
      Drained([t[..n]] + d.messages, d.residue)
    case None =>
      var u := FromHead(t);
      match MessageEnd(u, PIPE)
      case Some(n) =>
        var d := DrainBoth(u[n..]);
        Drained([u[..n]] + d.messages, d.residue)
      case None => Drained([], u)
  }

  /** The separator a framed message is parsed with. */
  function ParseSeparator(msg: bytes): Separator {
    if IndexOf(msg, '|') < |msg| then PIPE else SOH
  }

  /** The drain loop on the receive buffer. */
  method DrainTraffic(buffer: ReceiveBuffer) returns (messages: seq<bytes>)
    modifies buffer
    ensures Drained(messages, buffer.data) == DrainBoth(old(buffer.data))
  {
    hide FromHead, MessageEnd;
    messages := [];
    while true
      invariant DrainBoth(old(buffer.data))
             == Drained(messages + DrainBoth(buffer.data).messages, DrainBoth(buffer.data).residue)
      decreases |buffer.data|
    {
      ghost var s := buffer.data;
      var next := buffer.ExtractNextMessage(SOH);
      if next.None? {
        next := buffer.ExtractNextMessage(PIPE);
        if next.None? {
          assert messages + [] == messages;
          return;
        }
        SumParts(next.value, buffer.data);
      } else {
        SumParts(next.value, buffer.data);
      }
      Assoc(messages, [next.value], DrainBoth(buffer.data).messages);
      messages := messages + [next.value];
    }
  }

  lemma NoEndWithout(t: bytes, c: Separator)
    requires c !in t
    ensures MessageEnd(t, c).None?
  {
    var i := IndexOfText(t, TRAILER);
    if i < |t| {
      var n := IndexOf(t[i..], c);
      assert forall k :: 0 <= k < |t[i..]| ==> t[i..][k] == t[i + k] && t[i + k] in t;
    }
  }

  lemma TrimIsPart(s: bytes, c: byte)
    requires c !in s
    ensures c !in FromHead(s)
  {
  }

  /** On a stream free of '|' the second attempt never takes anything. */
  lemma {:induction false} SohTraffic(s: bytes)
    requires PIPE !in s
    ensures DrainBoth(s) == Drain(s, SOH)
    ensures forall m :: m in Drain(s, SOH).messages ==> ParseSeparator(m) == SOH
    decreases |s|
  {
    hide FromHead, MessageEnd;
    var t := FromHead(s);
    TrimIsPart(s, PIPE);
    match MessageEnd(t, SOH)
    case Some(n) =>
      SohTraffic(t[n..]);
      assert PIPE !in t[..n];
    case None =>
      TrimIsIdempotent(s);
      NoEndWithout(t, PIPE);
  }

  /** On a stream free of SOH the first attempt only trims, which the second would do anyway. */
  lemma {:induction false} PipeTraffic(s: bytes)
    requires SOH !in s
    ensures DrainBoth(s) == Drain(s, PIPE)
    ensures forall m :: m in Drain(s, PIPE).messages ==> ParseSeparator(m) == PIPE
    decreases |s|
  {
    hide FromHead, MessageEnd;
    var t := FromHead(s);
    TrimIsPart(s, SOH);
    NoEndWithout(t, SOH);
    TrimIsIdempotent(s);
    match MessageEnd(t, PIPE)
    case Some(n) =>
      PipeTraffic(t[n..]);
      assert t[..n][n - 1] == PIPE;
    case None =>
  }

  /** Chunk after chunk through the proxy's buffer. */
  function FeedBoth(r: bytes, chunks: seq<bytes>): Drained
    decreases |chunks|
  {
    if chunks == [] then Drained([], r)
    else
      var d := DrainBoth(r + chunks[0]);
      var rest := FeedBoth(d.residue, chunks[1..]);
      Drained(d.messages + rest.messages, rest.residue)
  }

  ghost predicate AllWithout(chunks: seq<bytes>, c: byte) {
    forall i :: 0 <= i < |chunks| ==> c !in chunks[i]
  }

  lemma {:induction false} ResidueWithout(s: bytes, sep: Separator, c: byte)
    requires c !in s
    ensures c !in Drain(s, sep).residue
    decreases |s|
  {
    hide FromHead, MessageEnd;
    TrimIsPart(s, c);
    match MessageEnd(FromHead(s), sep)
    case Some(n) => ResidueWithout(FromHead(s)[n..], sep, c);
    case None =>
  }

  /**
   Traffic that uses only one of the separators goes through the proxy exactly
   as through a buffer that knows the separator, however it is cut into chunks.
   */
  lemma {:induction false} SingleSeparatorTraffic(r: bytes, chunks: seq<bytes>, other: Separator, sep: Separator)
    requires (sep == SOH && other == PIPE) || (sep == PIPE && other == SOH)
    requires other !in r && AllWithout(chunks, other)
    ensures FeedBoth(r, chunks) == FeedAll(r, chunks, sep)
    decreases |chunks|
  {
    hide Drain, DrainBoth;
    if chunks != [] {
      var s := r + chunks[0];
      assert other !in s;
      if sep == SOH { SohTraffic(s); } else { PipeTraffic(s); }
      ResidueWithout(s, sep, other);
      assert forall i :: 0 <= i < |chunks[1..]| ==> chunks[1..][i] == chunks[i + 1];
      SingleSeparatorTraffic(Drain(s, sep).residue, chunks[1..], other, sep);
    }
  }

  // ----- SOH traffic with bars in it -----

  /** A partial message that the second attempt cuts off at a bar. */
  predicate CutEarly(residue: bytes) {
    MessageEnd(residue, PIPE).Some?
  }

  /** On any stream, the two attempts do as SOH alone exactly when no bar follows the first "10=" of what SOH leaves. */
  lemma {:induction false} BarsInterfere(s: bytes)
    ensures DrainBoth(s) == Drain(s, SOH) <==> !CutEarly(Drain(s, SOH).residue)
    ensures CutEarly(Drain(s, SOH).residue) ==> SomeEndsIn(DrainBoth(s).messages, PIPE)
    ensures AllEndIn(Drain(s, SOH).messages, SOH)
    decreases |s|
  {
    hide FromHead, MessageEnd;
    var t := FromHead(s);
    match MessageEnd(t, SOH)
    case Some(n) =>
      BarsInterfere(t[n..]);
      EndsFirst(t[..n], DrainBoth(t[n..]).messages, Drain(t[n..], SOH).messages);
    case None =>
      TrimIsIdempotent(s);
      if CutEarly(t) {
        var n := MessageEnd(t, PIPE).value;
        assert DrainBoth(s).messages[0] == t[..n];
      }
  }

  /** SOH traffic whose last message has not arrived whole: it is cut off at the bar in its CheckSum field. */
  lemma BarCutsEarly()
    ensures DrainBoth("8=F10=0|") != Drain("8=F10=0|", SOH)
  {
    hide IndexOfText, IndexOf;
    var s: bytes := "8=F10=0|";
    assert s[0..2] == HEAD && s[0..] == s;
    IndexOfTextIs(s, HEAD, 0);
    assert s[3..6] == TRAILER;
    assert s[0..3] == "8=F" && s[1..4] == "=F1" && s[2..5] == "F10";
    IndexOfTextIs(s, TRAILER, 3);
    NoEndWithout(s, SOH);
    assert s[3..][4] == '|';
    assert IndexOf(s[3..], '|') <= 4;
    DrainEnd(s, SOH);
    BarsInterfere(s);
  }

  ghost predicate EndsIn(m: bytes, c: byte) {
    m != [] && m[|m| - 1] == c
  }

  ghost predicate SomeEndsIn(messages: seq<bytes>, c: byte) {
    exists i :: 0 <= i < |messages| && EndsIn(messages[i], c)
  }

  ghost predicate AllEndIn(messages: seq<bytes>, c: byte) {
    forall i :: 0 <= i < |messages| ==> EndsIn(messages[i], c)
  }

  lemma EndsFirst(m: bytes, both: seq<bytes>, soh: seq<bytes>)
    requires EndsIn(m, SOH)
    ensures SomeEndsIn(both, PIPE) ==> SomeEndsIn([m] + both, PIPE)
    ensures AllEndIn(soh, SOH) ==> AllEndIn([m] + soh, SOH)
  {
    hide EndsIn;
    if SomeEndsIn(both, PIPE) {
      var i :| 0 <= i < |both| && EndsIn(both[i], PIPE);
      assert ([m] + both)[i + 1] == both[i];
    }
  }

  lemma EndsAfter(front: seq<bytes>, both: seq<bytes>, soh: seq<bytes>)
    ensures SomeEndsIn(front, PIPE) || SomeEndsIn(both, PIPE) ==> SomeEndsIn(front + both, PIPE)
    ensures AllEndIn(front, SOH) && AllEndIn(soh, SOH) ==> AllEndIn(front + soh, SOH)
  {
    hide EndsIn;
    if SomeEndsIn(front, PIPE) {
      var i :| 0 <= i < |front| && EndsIn(front[i], PIPE);
      assert (front + both)[i] == front[i];
    } else if SomeEndsIn(both, PIPE) {
      var i :| 0 <= i < |both| && EndsIn(both[i], PIPE);
      assert (front + both)[|front| + i] == both[i];
    }
  }

  lemma NotBoth(messages: seq<bytes>)
    ensures !(SomeEndsIn(messages, PIPE) && AllEndIn(messages, SOH))
  {
  }

  /** Some chunk leaves a partial message that is cut off at a bar. */
  predicate CutsEarly(r: bytes, chunks: seq<bytes>)
    decreases |chunks|
  {
    chunks != [] &&
    var residue := Drain(r + chunks[0], SOH).residue;
    CutEarly(residue) || CutsEarly(residue, chunks[1..])
  }

  /** A run through the proxy does as SOH alone exactly when no partial message is cut off at a bar on the way. */
  lemma {:induction false} BarsInterfereInRuns(r: bytes, chunks: seq<bytes>)
    ensures FeedBoth(r, chunks) == FeedAll(r, chunks, SOH) <==> !CutsEarly(r, chunks)
    ensures CutsEarly(r, chunks) ==> SomeEndsIn(FeedBoth(r, chunks).messages, PIPE)
    ensures AllEndIn(FeedAll(r, chunks, SOH).messages, SOH)
    decreases |chunks|
  {
    hide Drain, DrainBoth, CutEarly, SomeEndsIn, AllEndIn, EndsIn;
    if chunks == [] {
      NothingEnds();
    } else {
      var s, rest := r + chunks[0], chunks[1..];
      var both, soh := DrainBoth(s), Drain(s, SOH);
      BarsInterfere(s);
      BarsInterfereInRuns(soh.residue, rest);
      var more, tail := FeedBoth(both.residue, rest), FeedAll(soh.residue, rest, SOH);
      EndsAfter(both.messages, more.messages, []);
      EndsAfter(soh.messages, [], tail.messages);
      NotBoth(FeedBoth(r, chunks).messages);
    }
  }

  lemma NothingEnds()
    ensures AllEndIn([], SOH)
  {
  }

  // ----- the latency registry -----

  datatype LatencyTracker = LatencyTracker(startTime: int, msgType: bytes)

  /** The registry, and the latest client message still waiting for any answer. */
  datatype ProxyState = ProxyState(orders: map<bytes, LatencyTracker>, lastTime: int, lastType: bytes)

  const IDLE := ProxyState(map[], 0, "")

  /** A message passing through, as far as latency is concerned. */
  datatype Passing = Passing(fromClient: bool, msgType: Option<bytes>, clOrdId: Option<bytes>, time: int)

  /** A measurement the proxy reports. */
  datatype Timing =
    | NoTiming
    | OrderLatency(clOrdId: bytes, duration: int)
    | RoundTripTime(clientType: bytes, serverType: bytes, duration: int)

  datatype Analyzed = Analyzed(state: ProxyState, timing: Timing)

  function Analyze(s: ProxyState, m: Passing): Analyzed {
    if m.msgType.None? then Analyzed(s, NoTiming)
    else if m.fromClient then
      var orders := if m.msgType.value == "D" && m.clOrdId.Some?
                    then s.orders[m.clOrdId.value := LatencyTracker(m.time, "D")] else s.orders;
      Analyzed(ProxyState(orders, m.time, m.msgType.value), NoTiming)
    else if m.msgType.value == "8" && m.clOrdId.Some? && m.clOrdId.value in s.orders then
      var id := m.clOrdId.value;
      Analyzed(s.(orders := s.orders - {id}), OrderLatency(id, m.time - s.orders[id].startTime))
    else if s.lastType != "" then
      Analyzed(s.(lastType := ""), RoundTripTime(s.lastType, m.msgType.value, m.time - s.lastTime))
    else Analyzed(s, NoTiming)
  }

  class ProxyMonitor {
    var orderLatency: map<bytes, LatencyTracker>
    var lastClientMsgTime: int
    var lastClientMsgType: bytes

    function State(): ProxyState
      reads this
    {
      ProxyState(orderLatency, lastClientMsgTime, lastClientMsgType)
    }

    constructor ()
      ensures State() == IDLE
    {
      orderLatency, lastClientMsgTime, lastClientMsgType := map[], 0, "";
    }

    /** Takes note of a parsed message passing at a time. */
    method AnalyzeMessage(fields: seq<Field>, isClientToServer: bool, now: int) returns (timing: Timing)
      modifies this
      ensures Analyzed(State(), timing)
           == Analyze(old(State()), Passing(isClientToServer, FieldOf(fields, 35), FieldOf(fields, 11), now))
    {
      timing := NoTiming;
      var msgType := FieldOf(fields, 35);
      if msgType.None? {
        return;
      }
      if isClientToServer {
        if msgType.value == "D" {
          var clOrdId := FieldOf(fields, 11);
          if clOrdId.Some? {
            orderLatency := orderLatency[clOrdId.value := LatencyTracker(now, "D")];
          }
        }
        lastClientMsgTime := now;
        lastClientMsgType := msgType.value;
      } else {
        var measuredOrder := false;
        if msgType.value == "8" {
          var clOrdId := FieldOf(fields, 11);
          if clOrdId.Some? {
            if clOrdId.value in orderLatency {
              timing := OrderLatency(clOrdId.value, now - orderLatency[clOrdId.value].startTime);
              orderLatency := orderLatency - {clOrdId.value};
              measuredOrder := true;
            }
          }
        }
        if !measuredOrder && lastClientMsgType != "" {
          timing := RoundTripTime(lastClientMsgType, msgType.value, now - lastClientMsgTime);
          lastClientMsgType := "";
        }
      }
    }
  }

  /** The proxy after a history of messages. */
  function Observed(h: seq<Passing>): ProxyState {
    if h == [] then IDLE else Analyze(Observed(h[..|h| - 1]), h[|h| - 1]).state
  }

  predicate IsOrder(m: Passing, id: bytes) {
    m.fromClient && m.msgType == Some("D") && m.clOrdId == Some(id)
  }

  predicate IsReport(m: Passing, id: bytes) {
    !m.fromClient && m.msgType == Some("8") && m.clOrdId == Some(id)
  }

  /** The position of the latest order with the id. */
  function LatestOrder(h: seq<Passing>, id: bytes): (r: Option<nat>)
    ensures r.Some? ==> r.value < |h| && IsOrder(h[r.value], id)
    ensures forall j :: (if r.Some? then r.value + 1 else 0) <= j < |h| ==> !IsOrder(h[j], id)
  {
    if h == [] then None
    else if IsOrder(h[|h| - 1], id) then Some(|h| - 1)
    else LatestOrder(h[..|h| - 1], id)
  }

  /** The latest order with the id has not been reported on. */
  ghost predicate Pending(h: seq<Passing>, id: bytes) {
    var i := LatestOrder(h, id);
    i.Some? && forall j :: i.value < j < |h| ==> !IsReport(h[j], id)
  }

  /** An order is registered exactly while it is pending, with the time it was sent. */
  lemma {:induction false} RegistryAgreesWithHistory(h: seq<Passing>, id: bytes)
    ensures id in Observed(h).orders <==> Pending(h, id)
    ensures id in Observed(h).orders ==>
              Observed(h).orders[id] == LatencyTracker(h[LatestOrder(h, id).value].time, "D")
  {
    if h != [] {
      var n := |h| - 1;
      RegistryAgreesWithHistory(h[..n], id);
      PendingNext(h, id);
    }
  }

  lemma PendingNext(h: seq<Passing>, id: bytes)
    requires h != []
    ensures var n := |h| - 1;
            && (IsOrder(h[n], id) ==> Pending(h, id) && LatestOrder(h, id) == Some(n))
            && (!IsOrder(h[n], id) ==> LatestOrder(h, id) == LatestOrder(h[..n], id))
            && (!IsOrder(h[n], id) ==> (Pending(h, id) <==> Pending(h[..n], id) && !IsReport(h[n], id)))
  {
    var n := |h| - 1;
    assert forall j :: 0 <= j < n ==> h[..n][j] == h[j];
  }

  /** A reported latency is the time from the latest order with that id to the report. */
  lemma ReportMeasuresLatestOrder(h: seq<Passing>, m: Passing)
    ensures var timing := Analyze(Observed(h), m).timing;
            timing.OrderLatency? <==> exists id :: IsReport(m, id) && Pending(h, id)
    ensures var timing := Analyze(Observed(h), m).timing;
            timing.OrderLatency? ==>
              && IsReport(m, timing.clOrdId) && Pending(h, timing.clOrdId)
              && timing.duration == m.time - h[LatestOrder(h, timing.clOrdId).value].time
  {
    if m.clOrdId.Some? {
      RegistryAgreesWithHistory(h, m.clOrdId.value);
    }
  }

  function OrderCount(h: seq<Passing>, id: bytes): nat {
    if h == [] then 0 else OrderCount(h[..|h| - 1], id) + if IsOrder(h[|h| - 1], id) then 1 else 0
  }

  /** How many latencies were reported for the id. */
  function ReportCount(h: seq<Passing>, id: bytes): nat {
    if h == [] then 0
    else
      var timing := Analyze(Observed(h[..|h| - 1]), h[|h| - 1]).timing;
      ReportCount(h[..|h| - 1], id) + if timing.OrderLatency? && timing.clOrdId == id then 1 else 0
  }

  /** How many orders came while an earlier one with the same id was still registered. */
  function RepeatCount(h: seq<Passing>, id: bytes): nat {
    if h == [] then 0
    else RepeatCount(h[..|h| - 1], id) + if IsOrder(h[|h| - 1], id) && id in Observed(h[..|h| - 1]).orders then 1 else 0
  }

  /** Every order is reported once, still registered, or was overwritten by a repetition. */
  lemma {:induction false} OrdersAreConserved(h: seq<Passing>, id: bytes)
    ensures OrderCount(h, id)
         == ReportCount(h, id) + (if id in Observed(h).orders then 1 else 0) + RepeatCount(h, id)
  {
    if h != [] {
      OrdersAreConserved(h[..|h| - 1], id);
    }
  }

  // ----- round trips -----

  /** The position of the latest client message that has a type. */
  function LatestClient(h: seq<Passing>): (r: Option<nat>)
    ensures r.Some? ==> r.value < |h| && h[r.value].fromClient && h[r.value].msgType.Some?
    ensures forall j :: (if r.Some? then r.value + 1 else 0) <= j < |h| ==> !(h[j].fromClient && h[j].msgType.Some?)
  {
    if h == [] then None
    else if h[|h| - 1].fromClient && h[|h| - 1].msgType.Some? then Some(|h| - 1)
    else LatestClient(h[..|h| - 1])
  }

  /** After the history, the message would be reported as the answer to an order. */
  ghost predicate AnswersOrder(h: seq<Passing>, m: Passing) {
    exists id :: IsReport(m, id) && Pending(h, id)
  }

  /** The latest client message has had no answer yet, apart from answers to orders. */
  ghost predicate Unanswered(h: seq<Passing>) {
    var i := LatestClient(h);
    && i.Some? && h[i.value].msgType.value != ""
    && forall j :: i.value < j < |h| && h[j].msgType.Some? ==> AnswersOrder(h[..j], h[j])
  }

  lemma UnansweredNext(h: seq<Passing>)
    requires h != []
    ensures var n, m := |h| - 1, h[|h| - 1];
            && (m.msgType.None? ==> (Unanswered(h) <==> Unanswered(h[..n])) && LatestClient(h) == LatestClient(h[..n]))
            && (m.msgType.Some? && m.fromClient ==>
                  LatestClient(h) == Some(n) && (Unanswered(h) <==> m.msgType.value != ""))
            && (m.msgType.Some? && !m.fromClient ==>
                  && LatestClient(h) == LatestClient(h[..n])
                  && (Unanswered(h) <==> Unanswered(h[..n]) && AnswersOrder(h[..n], m)))
  {
    hide AnswersOrder;
    var n := |h| - 1;
    assert forall j :: 0 <= j < n ==> h[..n][j] == h[j];
    assert forall j :: 0 <= j < n ==> h[..n][..j] == h[..j];
  }

  /** A client message waits for its round trip exactly while it is unanswered, with its type and time. */
  lemma {:induction false} WaitingAgreesWithHistory(h: seq<Passing>)
    ensures Observed(h).lastType != "" <==> Unanswered(h)
    ensures Unanswered(h) ==>
              var m := h[LatestClient(h).value];
              Some(Observed(h).lastType) == m.msgType && Observed(h).lastTime == m.time
  {
    hide Unanswered, AnswersOrder, LatestClient;
    if h == [] {
      NothingWaits();
    } else {
      var n := |h| - 1;
      WaitingAgreesWithHistory(h[..n]);
      UnansweredNext(h);
      OrderIsAnswered(h[..n], h[n]);
      LatestClientIs(h);
      LatestClientIs(h[..n]);
      assert forall j :: 0 <= j < n ==> h[..n][j] == h[j];
    }
  }

  lemma NothingWaits()
    ensures Observed([]) == IDLE && !Unanswered([])
  {
  }

  lemma LatestClientIs(h: seq<Passing>)
    ensures Unanswered(h) ==> LatestClient(h).Some?
    ensures var r := LatestClient(h);
            r.Some? ==> r.value < |h| && h[r.value].fromClient && h[r.value].msgType.Some?
  {
  }

  lemma OrderIsAnswered(h: seq<Passing>, m: Passing)
    ensures AnswersOrder(h, m) <==> Analyze(Observed(h), m).timing.OrderLatency?
  {
    ReportMeasuresLatestOrder(h, m);
  }

  /**
   A round trip is reported exactly for a typed server message that answers no
   order while a client message waits, and it measures the latest client
   message.
   */
  lemma RoundTripMeasuresLatestClient(h: seq<Passing>, m: Passing)
    ensures var timing := Analyze(Observed(h), m).timing;
            timing.RoundTripTime? <==>
              !m.fromClient && m.msgType.Some? && !AnswersOrder(h, m) && Unanswered(h)
    ensures var timing := Analyze(Observed(h), m).timing;
            timing.RoundTripTime? ==>
              && LatestClient(h).Some?
              && var client := h[LatestClient(h).value];
                 && client.msgType == Some(timing.clientType)
                 && m.msgType == Some(timing.serverType)
                 && timing.duration == m.time - client.time
  {
    hide Unanswered, AnswersOrder, LatestClient;
    WaitingAgreesWithHistory(h);
    OrderIsAnswered(h, m);
    LatestClientIs(h);
  }
}
