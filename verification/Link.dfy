/**
 The in-memory connection, and two sessions talking over one direction of it.
 */
module Link {
  import opened Bytes
  import opened Codec
  import opened CodecLaws
  import opened Session
  import opened Outgoing

  /** The two queues of the connection and whether it is connected. */
  datatype Pipe = Pipe(connected: bool, toServer: seq<bytes>, toClient: seq<bytes>)

  function Push(p: Pipe, data: bytes): (Pipe, bool) {
    if p.connected then (p.(toServer := p.toServer + [data]), true) else (p, false)
  }

  function Pop(p: Pipe): (Pipe, Option<bytes>) {
    if !p.connected || p.toServer == [] then (p, None)
    else (p.(toServer := p.toServer[1..]), Some(p.toServer[0]))
  }

  /** The same pipe seen from the other end. */
  function Turned(p: Pipe): Pipe {
    Pipe(p.connected, p.toClient, p.toServer)
  }

  class InMemoryConnection {
    var toServer: seq<bytes>
    var toClient: seq<bytes>
    var connected: bool

    function State(): Pipe
      reads this
    {
      Pipe(connected, toServer, toClient)
    }

    constructor ()
      ensures State() == Pipe(false, [], [])
    {
      toServer, toClient, connected := [], [], false;
    }

    method Connect() returns (ok: bool)
      modifies this
      ensures ok && State() == old(State()).(connected := true)
    {
      connected := true;
      return true;
    }

    method Disconnect()
      modifies this
      ensures State() == old(State()).(connected := false)
    {
      connected := false;
    }

    method Send(data: bytes) returns (ok: bool)
      modifies this
      ensures ok <==> old(connected)
      ensures toServer == if ok then old(toServer) + [data] else old(toServer)
      ensures connected == old(connected) && toClient == old(toClient)
      ensures (State(), ok) == Push(old(State()), data)
    {
      if !connected {
        return false;
      }
      toServer := toServer + [data];
      return true;
    }

    /** The next message to the client, when the wait for it did not time out. */
    method Receive() returns (r: Option<bytes>)
      modifies this
      ensures r.Some? <==> old(connected) && old(toClient) != []
      ensures old(toClient) == if r.Some? then [r.value] + toClient else toClient
      ensures connected == old(connected) && toServer == old(toServer)
      ensures (Turned(State()), r) == Pop(Turned(old(State())))
    {
      if !connected || toClient == [] {
        return None;
      }
      r := Some(toClient[0]);
      toClient := toClient[1..];
    }

    method ServerSend(data: bytes) returns (ok: bool)
      modifies this
      ensures ok <==> old(connected)
      ensures toClient == if ok then old(toClient) + [data] else old(toClient)
      ensures connected == old(connected) && toServer == old(toServer)
      ensures (Turned(State()), ok) == Push(Turned(old(State())), data)
    {
      if !connected {
        return false;
      }
      toClient := toClient + [data];
      return true;
    }

    method ServerReceive() returns (r: Option<bytes>)
      modifies this
      ensures r.Some? <==> old(connected) && old(toServer) != []
      ensures old(toServer) == if r.Some? then [r.value] + toServer else toServer
      ensures connected == old(connected) && toClient == old(toClient)
      ensures (State(), r) == Pop(old(State()))
    {
      if !connected || toServer == [] {
        return None;
      }
      r := Some(toServer[0]);
      toServer := toServer[1..];
    }
  }

  // ----- two sessions over one direction -----

  /** The sending session, the connection, and the receiving session. */
  datatype System = System(sender: SessionState, pipe: Pipe, receiver: SessionState)

  datatype Event =
    | Connect
    | Disconnect
    | Transmit(msgType: bytes, time: bytes, extra: seq<Field>)
    | Deliver

  /** What the receiving side sees of an event. */
  datatype Reaction = Quiet | Unparsable(error: ParseError) | Handled(result: ProcessResult)

  /** One event; the sender counts a message only when the connection took it. */
  function Step(config: SessionConfig, s: System, e: Event): (System, Reaction) {
    match e
    case Connect => (s.(pipe := s.pipe.(connected := true)), Quiet)
    case Disconnect => (s.(pipe := s.pipe.(connected := false)), Quiet)
    case Transmit(msgType, time, extra) =>
      var (pipe, ok) := Push(s.pipe, Wire(OutgoingFields(config, s.sender.nextOut, msgType, time, extra), SOH));
      (s.(pipe := pipe, sender := if ok then s.sender.(nextOut := s.sender.nextOut + 1) else s.sender), Quiet)
    case Deliver =>
      var (pipe, data) := Pop(s.pipe);
      match data {
        case None => (s, Quiet)
        case Some(raw) =>
          match Parsing(raw, SOH) {
            case Err(error) => (s.(pipe := pipe), Unparsable(error))
            case Ok(fields) =>
              var r := Receive(s.receiver, ReadIncoming(fields));
              (s.(pipe := pipe, receiver := r.state), Handled(r.result))
          }
      }
  }

  /** The state after a list of events. */
  function After(config: SessionConfig, s: System, events: seq<Event>): System {
    if events == [] then s
    else Step(config, After(config, s, events[..|events| - 1]), events[|events| - 1]).0
  }

  /** Transmissions are writable; the first is the only Logon; none is a reset or a logout. */
  ghost predicate Orderly(config: SessionConfig, first: int, s: System, e: Event) {
    e.Transmit? ==>
      && s.sender.nextOut < 0x8000_0000
      && Writable(OutgoingFields(config, s.sender.nextOut, e.msgType, e.time, e.extra), SOH)
      && (e.msgType == "A" <==> s.sender.nextOut == first)
      && e.msgType != "4" && e.msgType != "5"
  }

  ghost predicate OrderlyRun(config: SessionConfig, first: int, s: System, events: seq<Event>) {
    forall i :: 0 <= i < |events| ==> Orderly(config, first, After(config, s, events[..i]), events[i])
  }

  /** A message in flight with a given number: readable, the Logon exactly when it is the first. */
  ghost predicate InFlight(raw: bytes, n: int, first: int) {
    var parsed := Parsing(raw, SOH);
    && parsed.Ok?
    && var m := ReadIncoming(parsed.value);
       && m.seqNum.Some? && m.seqNum.value == n
       && m.msgType.Some? && (m.msgType.value == "A" <==> n == first)
       && m.msgType.value != "4" && m.msgType.value != "5"
  }

  /** The queue holds the messages numbered from what the receiver expects to what the sender sends next. */
  ghost predicate Conserved(s: System, first: int) {
    && -0x8000_0000 <= first <= s.receiver.nextIn
    && s.receiver.nextIn + |s.pipe.toServer| == s.sender.nextOut
    && (s.receiver.loggedOn <==> s.receiver.nextIn > first)
    && forall i :: 0 <= i < |s.pipe.toServer| ==> InFlight(s.pipe.toServer[i], s.receiver.nextIn + i, first)
  }

  /** The receiver never asks for a resend, never rejects and never disconnects. */
  predicate Smooth(o: Reaction) {
    && !o.Unparsable?
    && (o.Handled? ==> o.result.action !in {SendResendRequest, SessionAction.Disconnect, SendReject})
  }

  lemma TransmitConserves(config: SessionConfig, first: int, s: System, e: Event)
    requires e.Transmit? && Conserved(s, first) && Orderly(config, first, s, e)
    ensures Conserved(Step(config, s, e).0, first)
  {
    hide Wire, Parsing, Writable, FieldOf, IntOf, Canonical;
    var n := s.sender.nextOut;
    OutgoingReadsBack(config, n, e.msgType, e.time, e.extra, SOH);
    var raw := Wire(OutgoingFields(config, n, e.msgType, e.time, e.extra), SOH);
    assert InFlight(raw, n, first);
  }

  lemma DeliverConserves(config: SessionConfig, first: int, s: System)
    requires Conserved(s, first)
    ensures Conserved(Step(config, s, Deliver).0, first) && Smooth(Step(config, s, Deliver).1)
  {
    hide Parsing, FieldOf, IntOf;
    if s.pipe.connected && s.pipe.toServer != [] {
      assert InFlight(s.pipe.toServer[0], s.receiver.nextIn, first);
      var next := Step(config, s, Deliver).0;
      assert next.receiver.nextIn == s.receiver.nextIn + 1;
      forall i | 0 <= i < |next.pipe.toServer|
        ensures InFlight(next.pipe.toServer[i], next.receiver.nextIn + i, first)
      {
        assert InFlight(s.pipe.toServer[i + 1], s.receiver.nextIn + (i + 1), first);
      }
    }
  }

  lemma StepConserves(config: SessionConfig, first: int, s: System, e: Event)
    requires Conserved(s, first) && Orderly(config, first, s, e)
    ensures Conserved(Step(config, s, e).0, first) && Smooth(Step(config, s, e).1)
  {
    hide Parsing, Wire, Writable, InFlight;
    match e
    case Transmit(_, _, _) => TransmitConserves(config, first, s, e);
    case Deliver => DeliverConserves(config, first, s);
    case _ =>
  }

  /**
   Conservation: in every interleaving of sends, deliveries, disconnects and
   reconnects, the receiver's expected number plus the messages in the queue is
   the sender's next number, and nothing received is ever out of order.
   */
  lemma {:induction false} LinkConserves(config: SessionConfig, first: int, s: System, events: seq<Event>)
    requires Conserved(s, first) && OrderlyRun(config, first, s, events)
    ensures Conserved(After(config, s, events), first)
    ensures forall i :: 0 <= i < |events| ==> Smooth(Step(config, After(config, s, events[..i]), events[i]).1)
    decreases |events|
  {
    hide Parsing, Wire, Writable, InFlight, Conserved, Orderly, Step, Smooth;
    if events != [] {
      var n := |events| - 1;
      var front := events[..n];
      assert forall i :: 0 <= i <= n ==> front[..i] == events[..i];
      assert forall i :: 0 <= i < n ==> front[i] == events[i];
      assert OrderlyRun(config, first, s, front);
      LinkConserves(config, first, s, front);
      assert Orderly(config, first, After(config, s, front), events[n]);
      StepConserves(config, first, After(config, s, front), events[n]);
    }
  }

  /** Two fresh sessions on an empty connection. */
  lemma FreshLink(config: SessionConfig, events: seq<Event>)
    requires OrderlyRun(config, 1, System(FRESH, Pipe(false, [], []), FRESH), events)
    ensures var s := After(config, System(FRESH, Pipe(false, [], []), FRESH), events);
            s.receiver.nextIn + |s.pipe.toServer| == s.sender.nextOut
    ensures forall i :: 0 <= i < |events| ==>
              Smooth(Step(config, After(config, System(FRESH, Pipe(false, [], []), FRESH), events[..i]), events[i]).1)
  {
    hide Parsing, Wire, Writable, InFlight, Step, Smooth, OrderlyRun, After;
    LinkConserves(config, 1, System(FRESH, Pipe(false, [], []), FRESH), events);
  }

  // ----- what an event list does -----

  /** Whether the link is connected after some events: what the last Connect or Disconnect says. */
  function ConnectedAfter(connected: bool, events: seq<Event>): bool {
    if events == [] then connected
    else
      match events[|events| - 1]
      case Connect => true
      case Disconnect => false
      case _ => ConnectedAfter(connected, events[..|events| - 1])
  }

  /** The messages transmitted while connected, numbered from n on. */
  function Transmitted(config: SessionConfig, n: int, connected: bool, events: seq<Event>): seq<bytes> {
    if events == [] then []
    else
      var front := events[..|events| - 1];
      var sent := Transmitted(config, n, connected, front);
      match events[|events| - 1]
      case Transmit(msgType, time, extra) =>
        if ConnectedAfter(connected, front)
        then sent + [Wire(OutgoingFields(config, n + |sent|, msgType, time, extra), SOH)] else sent
      case _ => sent
  }

  function TransmittedCount(connected: bool, events: seq<Event>): nat {
    if events == [] then 0
    else
      var front := events[..|events| - 1];
      TransmittedCount(connected, front)
      + if events[|events| - 1].Transmit? && ConnectedAfter(connected, front) then 1 else 0
  }

  /** How many messages are delivered, when so many were queued: one at each delivery while connected that finds one. */
  function DeliveredCount(queued: nat, connected: bool, events: seq<Event>): nat {
    if events == [] then 0
    else
      var front := events[..|events| - 1];
      var done := DeliveredCount(queued, connected, front);
      if events[|events| - 1].Deliver? && ConnectedAfter(connected, front)
         && done < queued + TransmittedCount(connected, front)
      then done + 1 else done
  }

  /** A session after hearing some messages; what cannot be parsed does not reach it. */
  function Hear(s: SessionState, raws: seq<bytes>): SessionState {
    if raws == [] then s
    else
      var before := Hear(s, raws[..|raws| - 1]);
      match Parsing(raws[|raws| - 1], SOH)
      case Err(_) => before
      case Ok(fields) => Receive(before, ReadIncoming(fields)).state
  }

  /** The system after some events, in terms of what was transmitted and how much of it was delivered. */
  ghost predicate Stands(config: SessionConfig, s: System, events: seq<Event>, t: System) {
    var sent := Transmitted(config, s.sender.nextOut, s.pipe.connected, events);
    var all, k := s.pipe.toServer + sent, DeliveredCount(|s.pipe.toServer|, s.pipe.connected, events);
    && |sent| == TransmittedCount(s.pipe.connected, events) && k <= |all|
    && t.pipe == Pipe(ConnectedAfter(s.pipe.connected, events), all[k..], s.pipe.toClient)
    && t.sender == s.sender.(nextOut := s.sender.nextOut + |sent|)
    && t.receiver == Hear(s.receiver, all[..k])
  }

  /**
   After any events, from any state: the sender has counted the messages
   transmitted while connected, the receiver has heard exactly the first ones of
   them, in order, and the others are in the queue.
   */
  lemma {:induction false} LinkMeans(config: SessionConfig, s: System, events: seq<Event>)
    ensures Stands(config, s, events, After(config, s, events))
  {
    hide Wire, OutgoingFields, Parsing, Receive, ReadIncoming, Stands, Step;
    if events == [] {
      NothingDone(config, s);
    } else {
      var n := |events| - 1;
      LinkMeans(config, s, events[..n]);
      StandsNext(config, s, events[..n], After(config, s, events[..n]), events[n]);
      assert events[..n] + [events[n]] == events;
    }
  }

  lemma NothingDone(config: SessionConfig, s: System)
    ensures Stands(config, s, [], s)
  {
    assert s.pipe.toServer + [] == s.pipe.toServer;
    assert s.pipe.toServer[0..] == s.pipe.toServer && s.pipe.toServer[..0] == [];
  }

  lemma StandsNext(config: SessionConfig, s: System, events: seq<Event>, t: System, e: Event)
    requires Stands(config, s, events, t)
    ensures Stands(config, s, events + [e], Step(config, t, e).0)
  {
    hide Wire, OutgoingFields, Parsing, Receive, ReadIncoming;
    var all := events + [e];
    assert all[..|all| - 1] == events && all[|all| - 1] == e;
    match e
    case Connect =>
    case Disconnect =>
    case Transmit(_, _, _) => TransmitStands(config, s, events, t, e);
    case Deliver => DeliverStands(config, s, events, t);
  }

  lemma TransmitStands(config: SessionConfig, s: System, events: seq<Event>, t: System, e: Event)
    requires Stands(config, s, events, t) && e.Transmit?
    ensures Stands(config, s, events + [e], Step(config, t, e).0)
  {
    hide Wire, WithoutHeader, Hear;
    var more := events + [e];
    assert more[..|more| - 1] == events && more[|more| - 1] == e;
    var sent := Transmitted(config, s.sender.nextOut, s.pipe.connected, events);
    var all, k := s.pipe.toServer + sent, DeliveredCount(|s.pipe.toServer|, s.pipe.connected, events);
    if t.pipe.connected {
      var raw := Wire(OutgoingFields(config, t.sender.nextOut, e.msgType, e.time, e.extra), SOH);
      Assoc(s.pipe.toServer, sent, [raw]);
      assert (all + [raw])[k..] == all[k..] + [raw] && (all + [raw])[..k] == all[..k];
    }
  }

  lemma DeliverStands(config: SessionConfig, s: System, events: seq<Event>, t: System)
    requires Stands(config, s, events, t)
    ensures Stands(config, s, events + [Deliver], Step(config, t, Deliver).0)
  {
    hide Wire, OutgoingFields, Parsing, Receive, ReadIncoming;
    var more := events + [Deliver];
    assert more[..|more| - 1] == events && more[|more| - 1] == Deliver;
    var sent := Transmitted(config, s.sender.nextOut, s.pipe.connected, events);
    var all, k := s.pipe.toServer + sent, DeliveredCount(|s.pipe.toServer|, s.pipe.connected, events);
    if t.pipe.connected && k < |all| {
      assert all[k..][0] == all[k] && all[k..][1..] == all[k + 1..];
      assert all[..k + 1][..k] == all[..k];
    }
  }

  /** Between a Disconnect and the next Connect, neither a session nor a queue moves, and nothing is heard. */
  lemma {:induction false} StillWhileDisconnected(config: SessionConfig, s: System, events: seq<Event>)
    requires !s.pipe.connected && forall i :: 0 <= i < |events| ==> !events[i].Connect?
    ensures After(config, s, events) == s
    ensures forall e: Event :: !e.Connect? ==> Step(config, s, e) == (s, Quiet)
  {
    hide Wire, OutgoingFields, Parsing, Receive, ReadIncoming;
    if events != [] {
      var n := |events| - 1;
      StillWhileDisconnected(config, s, events[..n]);
      assert !events[n].Connect?;
    }
  }
}
