/**
 What the session rules guarantee over whole runs: in-order, at-most-once
 delivery over a network that loses, repeats and reorders, and recovery from
 gaps by replay.
 */
module Delivery {
  import opened Bytes
  import opened Session

  // ----- delivery over an adversarial network -----

  /** Admin messages that an in-sequence session does not hand to the application. */
  predicate IsAdmin(msgType: bytes) {
    msgType == "0" || msgType == "1" || msgType == "2" || msgType == "4" || msgType == "5"
  }

  /** What the peer sends: numbered without holes, one Logon in front, no reset and no logout. */
  ghost predicate PeerStream(peer: seq<Incoming>, first: int) {
    && |peer| > 0
    && (forall i :: 0 <= i < |peer| ==>
          peer[i].seqNum.Some? && peer[i].seqNum.value == first + i && peer[i].msgType.Some?)
    && peer[0].msgType == Some("A")
    && (forall i :: 1 <= i < |peer| ==>
          peer[i].msgType.value != "A" && peer[i].msgType.value != "4" && peer[i].msgType.value != "5")
  }

  /** A copy of the message at a position of the stream, perhaps marked as a duplicate. */
  datatype Packet = Packet(index: nat, msg: Incoming)

  /** The network only carries copies of what was sent, in any order and number. */
  ghost predicate Carried(peer: seq<Incoming>, p: Packet) {
    p.index < |peer| && p.msg.msgType == peer[p.index].msgType && p.msg.seqNum == peer[p.index].seqNum
  }

  /** A session after a run: its state, the messages it consumed in sequence, those it delivered. */
  datatype Trace = Trace(state: SessionState, consumed: seq<nat>, delivered: seq<nat>)

  /** The message carries the number a logged-on session expects. */
  predicate Consumes(s: SessionState, m: Incoming) {
    s.loggedOn && m.msgType.Some? && m.seqNum.Some? && m.seqNum.value == s.nextIn
  }

  function Observe(t: Trace, p: Packet): Trace {
    var r := Receive(t.state, p.msg);
    Trace(r.state,
          if Consumes(t.state, p.msg) then t.consumed + [p.index] else t.consumed,
          if r.result.action == ProcessApplicationMessage then t.delivered + [p.index] else t.delivered)
  }

  function Run(s: SessionState, packets: seq<Packet>): Trace {
    if packets == [] then Trace(s, [], [])
    else Observe(Run(s, packets[..|packets| - 1]), packets[|packets| - 1])
  }

  /** The positions start..end-1. */
  function Range(start: nat, end: nat): seq<nat> {
    if end <= start then [] else Range(start, end - 1) + [end - 1]
  }

  /** The positions start..end-1 that hold application messages. */
  function AppPositions(peer: seq<Incoming>, start: nat, end: nat): seq<nat>
    requires end <= |peer|
  {
    if end <= start then []
    else
      var front := AppPositions(peer, start, end - 1);
      if peer[end - 1].msgType.Some? && IsAdmin(peer[end - 1].msgType.value) then front else front + [end - 1]
  }

  /** The session stands after exactly the first c messages following the Logon. */
  ghost predicate Prefixed(peer: seq<Incoming>, first: int, t: Trace) {
    var c := |t.consumed|;
    && c < |peer|
    && t.consumed == Range(1, c + 1)
    && t.delivered == AppPositions(peer, 1, c + 1)
    && (t.state.loggedOn ==> t.state.nextIn == first + 1 + c)
    && (!t.state.loggedOn ==> c == 0)
  }

  lemma ObservePrefixed(peer: seq<Incoming>, first: int, t: Trace, p: Packet)
    requires PeerStream(peer, first) && Carried(peer, p) && Prefixed(peer, first, t)
    ensures Prefixed(peer, first, Observe(t, p))
  {
    var c := |t.consumed|;
    if Consumes(t.state, p.msg) {
      assert p.index == c + 1;
    }
  }

  lemma {:induction false} RunIsPrefixed(peer: seq<Incoming>, first: int, s: SessionState, packets: seq<Packet>)
    requires PeerStream(peer, first) && !s.loggedOn
    requires forall i :: 0 <= i < |packets| ==> Carried(peer, packets[i])
    ensures Prefixed(peer, first, Run(s, packets))
  {
    if packets != [] {
      var n := |packets| - 1;
      RunIsPrefixed(peer, first, s, packets[..n]);
      assert Carried(peer, packets[n]);
      ObservePrefixed(peer, first, Run(s, packets[..n]), packets[n]);
    }
  }

  lemma {:induction false} AppPositionsGrow(peer: seq<Incoming>, start: nat, mid: nat, end: nat)
    requires mid <= end <= |peer|
    ensures AppPositions(peer, start, mid) <= AppPositions(peer, start, end)
    decreases end
  {
    if mid < end && start < end {
      AppPositionsGrow(peer, start, mid, end - 1);
    }
  }

  lemma {:induction false} RangeGrows(start: nat, mid: nat, end: nat)
    requires mid <= end
    ensures Range(start, mid) <= Range(start, end)
    decreases end
  {
    if mid < end && start < end {
      RangeGrows(start, mid, end - 1);
    }
  }

  /**
   Safe delivery: whatever the network loses, repeats or reorders, the session
   consumes a prefix of what follows the Logon, each message once and in order,
   delivers a prefix of the application messages, and expects the next number.
   */
  lemma {:induction false} SafeDelivery(peer: seq<Incoming>, first: int, s: SessionState, packets: seq<Packet>)
    requires PeerStream(peer, first) && !s.loggedOn
    requires forall i :: 0 <= i < |packets| ==> Carried(peer, packets[i])
    ensures var t := Run(s, packets);
            && |t.consumed| < |peer| && t.consumed <= Range(1, |peer|)
            && t.delivered <= AppPositions(peer, 1, |peer|)
            && t.delivered == AppPositions(peer, 1, |t.consumed| + 1)
            && (t.state.loggedOn ==> t.state.nextIn == first + 1 + |t.consumed|)
  {
    hide Run, Range, AppPositions;
    RunIsPrefixed(peer, first, s, packets);
    var c := |Run(s, packets).consumed|;
    RangeGrows(1, c + 1, |peer|);
    AppPositionsGrow(peer, 1, c + 1, |peer|);
  }

  // ----- recovery from gaps -----

  /** A session's state and the application messages it delivered. */
  datatype Outcome = Outcome(state: SessionState, delivered: seq<Incoming>)

  function Process(s: SessionState, messages: seq<Incoming>): Outcome
    decreases |messages|
  {
    if messages == [] then Outcome(s, [])
    else
      var r := Receive(s, messages[0]);
      var rest := Process(r.state, messages[1..]);
      Outcome(rest.state, (if r.result.action == ProcessApplicationMessage then [messages[0]] else []) + rest.delivered)
  }

  /** A message that neither moves the session nor makes it disconnect. */
  predicate Noise(s: SessionState, m: Incoming) {
    || m.msgType.None?
    || m.seqNum.None?
    || (s.loggedOn && (m.seqNum.value > s.nextIn || (m.seqNum.value < s.nextIn && m.possDup)))
  }

  /** An in-sequence SequenceReset that names its own number. */
  predicate ResetsToItself(s: SessionState, m: Incoming) {
    Consumes(s, m) && m.msgType.value == "4" && m.newSeqNo.Some? && m.newSeqNo.value == s.nextIn
  }

  /** Noise is exactly what leaves the state alone without delivering or disconnecting, one odd reset aside. */
  lemma NoiseStutters(s: SessionState, m: Incoming)
    ensures var r := Receive(s, m);
            Noise(s, m) || ResetsToItself(s, m)
            <==> r.state == s && r.result.action != ProcessApplicationMessage && r.result.action != Disconnect
  {
  }

  /** The run t is the run u with noise put in. */
  ghost predicate AddsNoise(s: SessionState, u: seq<Incoming>, t: seq<Incoming>)
    decreases |t|
  {
    if t == [] then u == []
    else
      || (Noise(s, t[0]) && AddsNoise(s, u, t[1..]))
      || (u != [] && u[0] == t[0] && AddsNoise(Receive(s, t[0]).state, u[1..], t[1..]))
  }

  /** Noise changes neither the final state nor what is delivered. */
  lemma {:induction false} NoiseIsHarmless(s: SessionState, u: seq<Incoming>, t: seq<Incoming>)
    requires AddsNoise(s, u, t)
    ensures Process(s, t) == Process(s, u)
    decreases |t|
  {
    if t != [] {
      if Noise(s, t[0]) && AddsNoise(s, u, t[1..]) {
        NoiseStutters(s, t[0]);
        NoiseIsHarmless(s, u, t[1..]);
      } else {
        NoiseIsHarmless(Receive(s, t[0]).state, u[1..], t[1..]);
      }
    }
  }

  /** Messages numbered without holes from n on, none of them a reset or a logout. */
  ghost predicate Consecutive(messages: seq<Incoming>, n: int) {
    forall i :: 0 <= i < |messages| ==>
      && messages[i].msgType.Some? && messages[i].msgType.value != "4" && messages[i].msgType.value != "5"
      && messages[i].seqNum.Some? && messages[i].seqNum.value == n + i
  }

  /** Messages numbered beyond n. */
  ghost predicate Beyond(messages: seq<Incoming>, n: int) {
    forall i :: 0 <= i < |messages| ==>
      messages[i].msgType.Some? && messages[i].seqNum.Some? && messages[i].seqNum.value > n
  }

  lemma {:induction false} ConsecutiveAdvances(s: SessionState, messages: seq<Incoming>)
    requires s.loggedOn && Consecutive(messages, s.nextIn)
    ensures Process(s, messages).state == s.(nextIn := s.nextIn + |messages|)
    decreases |messages|
  {
    if messages != [] {
      var r := Receive(s, messages[0]);
      assert r.state == s.(nextIn := s.nextIn + 1);
      assert forall i :: 0 <= i < |messages| - 1 ==> messages[1..][i] == messages[i + 1];
      ConsecutiveAdvances(r.state, messages[1..]);
    }
  }

  /** The messages an in-sequence session hands to the application. */
  function Applications(messages: seq<Incoming>): seq<Incoming> {
    if messages == [] then []
    else
      var first := messages[0];
      (if first.msgType.Some? && !IsAdmin(first.msgType.value) then [first] else []) + Applications(messages[1..])
  }

  lemma {:induction false} ConsecutiveDelivers(s: SessionState, messages: seq<Incoming>)
    requires s.loggedOn && Consecutive(messages, s.nextIn)
    ensures Process(s, messages).delivered == Applications(messages)
    decreases |messages|
  {
    if messages != [] {
      var r := Receive(s, messages[0]);
      assert r.state == s.(nextIn := s.nextIn + 1);
      assert forall i :: 0 <= i < |messages| - 1 ==> messages[1..][i] == messages[i + 1];
      ConsecutiveDelivers(r.state, messages[1..]);
    }
  }

  lemma {:induction false} EarlyIsNoise(s: SessionState, early: seq<Incoming>, replay: seq<Incoming>)
    requires s.loggedOn && Beyond(early, s.nextIn)
    ensures AddsNoise(s, replay, early + replay)
    decreases |early|
  {
    if early == [] {
      assert early + replay == replay;
      SameRun(s, replay);
    } else {
      var t := early + replay;
      assert t[0] == early[0] && t[1..] == early[1..] + replay;
      EarlyIsNoise(s, early[1..], replay);
    }
  }

  lemma {:induction false} SameRun(s: SessionState, u: seq<Incoming>)
    ensures AddsNoise(s, u, u)
    decreases |u|
  {
    if u != [] {
      SameRun(Receive(s, u[0]).state, u[1..]);
    }
  }

  lemma {:induction false} NoiseAfter(s: SessionState, front: seq<Incoming>, u: seq<Incoming>, t: seq<Incoming>)
    requires AddsNoise(Process(s, front).state, u, t)
    ensures AddsNoise(s, front + u, front + t)
    decreases |front|
  {
    if front == [] {
      assert front + u == u && front + t == t;
    } else {
      assert (front + u)[1..] == front[1..] + u && (front + t)[1..] == front[1..] + t;
      NoiseAfter(Receive(s, front[0]).state, front[1..], u, t);
    }
  }

  /**
   Gap recovery: a run that misses the messages from position j on, takes
   later ones in the meantime, and is then replayed from there, ends exactly
   like the lossless run.
   */
  lemma GapRecovery(s: SessionState, stream: seq<Incoming>, j: nat, early: seq<Incoming>)
    requires s.loggedOn && Consecutive(stream, s.nextIn) && j <= |stream|
    requires Beyond(early, s.nextIn + j)
    ensures Process(s, stream[..j] + early + stream[j..]) == Process(s, stream)
  {
    var front, replay := stream[..j], stream[j..];
    ConsecutiveAdvances(s, front);
    EarlyIsNoise(Process(s, front).state, early, replay);
    NoiseAfter(s, front, replay, early + replay);
    assert front + replay == stream;
    Assoc(front, early, replay);
    NoiseIsHarmless(s, stream, front + early + replay);
  }

  /** While the gap lasts, every later message is answered with a request for the first missing number. */
  lemma GapIsReported(s: SessionState, stream: seq<Incoming>, j: nat, early: seq<Incoming>, i: nat)
    requires s.loggedOn && Consecutive(stream, s.nextIn) && j <= |stream|
    requires Beyond(early, s.nextIn + j) && i < |early|
    ensures var before := Process(s, stream[..j] + early[..i]).state;
            Receive(before, early[i]) == Received(before, ProcessResult(SendResendRequest, s.nextIn + j))
  {
    var front := stream[..j];
    ConsecutiveAdvances(s, front);
    EarlyIsNoise(Process(s, front).state, early[..i], []);
    assert early[..i] + [] == early[..i] && front + [] == front;
    NoiseAfter(s, front, [], early[..i]);
    NoiseIsHarmless(s, front, front + early[..i]);
  }
}
