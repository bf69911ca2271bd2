/**
 The scenario runner: it drives the session and a connection step by step,
 answers messages from mock rules, and checks the messages it expects.
 */
module Runner {
  import opened Bytes
  import opened Codec
  import opened Parser
  import opened Serializer
  import opened Framing
  import opened Session
  import opened Outgoing
  import opened Scenario
  import opened History

  /** Any connection: what it answers is up to the environment. Its history is kept for the specification. */
  class Connection {
    ghost var switches: seq<Switch>
    ghost var attempts: seq<Attempt>
    ghost var received: seq<bytes>

    constructor ()
      ensures switches == [] && attempts == [] && received == []
    {
      switches, attempts, received := [], [], [];
    }

    method Connect() returns (ok: bool)
      modifies this`switches
      ensures switches == old(switches) + [if ok then Opened else Refused]
    {
      ok := *;
      switches := switches + [if ok then Opened else Refused];
    }

    method Disconnect()
      modifies this`switches
      ensures switches == old(switches) + [Closed]
    {
      switches := switches + [Closed];
    }

    method Send(data: bytes, ghost msgType: bytes, ghost time: bytes, ghost extra: seq<Field>) returns (ok: bool)
      modifies this`attempts
      ensures attempts == old(attempts) + [Attempt(data, msgType, time, extra, ok)]
    {
      ok := *;
      attempts := attempts + [Attempt(data, msgType, time, extra, ok)];
    }

    method Receive() returns (r: Option<bytes>)
      modifies this`received
      ensures received == if r.Some? then old(received) + [r.value] else old(received)
    {
      var arrived: bool := *;
      if !arrived {
        return None;
      }
      var chunk: bytes := *;
      received := received + [chunk];
      return Some(chunk);
    }
  }

  /** The time stamp of a header: any text of its shape. */
  method SendingTime() returns (time: bytes)
    ensures IsTimestamp(time)
  {
    assert IsTimestamp(EPOCH);
    time :| IsTimestamp(time);
  }

  lemma WithoutHeaderNext(extra: seq<Field>, i: nat)
    requires i < |extra|
    ensures WithoutHeader(extra[..i + 1])
         == if IsHeaderTag(extra[i].tag) then WithoutHeader(extra[..i]) else WithoutHeader(extra[..i]) + [extra[i]]
  {
    assert extra[..i + 1][..i] == extra[..i];
  }

  lemma NothingWithoutHeader(extra: seq<Field>)
    ensures WithoutHeader(extra[..0]) == []
  {
  }

  class ScenarioRunner {
    const session: FixSession
    const conn: Connection
    var activeMocks: seq<ScenarioStep>

    constructor (session: FixSession, conn: Connection)
      ensures this.session == session && this.conn == conn && activeMocks == []
    {
      this.session, this.conn, activeMocks := session, conn, [];
    }

    /** Builds the message for a type and some fields, exactly when it fits the buffer. */
    method Compose(msgType: bytes, extra: seq<Field>) returns (data: Option<bytes>, time: bytes)
      ensures IsTimestamp(time)
      ensures data == if TooLong(session.config, session.nextOutSeq, msgType, extra) then None
                      else Some(Wire(OutgoingFields(session.config, session.nextOutSeq, msgType, time, extra), SOH))
    {
      hide Wire, WithoutHeader, OutgoingSize;
      time := SendingTime();
      SizeIgnoresTime(session.config, session.nextOutSeq, msgType, time, extra, SOH);
      var header := new Field[HEADER_SIZE](_ => Field(0, []));
      var count := session.PrepareHeader(msgType, header, time);
      var allFields := header[..count];
      NothingWithoutHeader(extra);
      for i := 0 to |extra|
        invariant allFields == Header(session.config, session.nextOutSeq, msgType, time) + WithoutHeader(extra[..i])
      {
        var f := extra[i];
        WithoutHeaderNext(extra, i);
        if f.tag == 8 || f.tag == 35 || f.tag == 49 || f.tag == 56 || f.tag == 34 || f.tag == 52 {
          continue;
        }
        allFields := allFields + [f];
      }
      assert extra[..|extra|] == extra;
      var buffer := new byte[BUFFER_SIZE](_ => ' ');
      var r := SerializeMessage(allFields, buffer, SOH);
      if r.Err? {
        return None, time;
      }
      return Some(buffer[..r.value]), time;
    }

    /** A SEND step: the message with the next number goes out exactly when it fits, and counts when it was taken. */
    method SendStep(step: ScenarioStep) returns (error: Option<RunError>, ghost sent: seq<Attempt>)
      requires step.action == Send && step.fields != []
      modifies session, conn`attempts
      ensures conn.attempts == old(conn.attempts) + sent
      ensures error == Some(SerializationFailed) <==>
              TooLong(session.config, old(session.nextOutSeq), SendType(step), step.fields)
      ensures error.Some? ==> error.value.SerializationFailed? || error.value.SendFailed?
      ensures |sent| == (if error == Some(SerializationFailed) then 0 else 1)
      ensures forall a :: a in sent ==>
                Composed(session.config, old(session.nextOutSeq), a) && IsSend(a, step) && (a.ok <==> error.None?)
      ensures session.State() == if error.None? then old(session.State()).(nextOut := old(session.nextOutSeq) + 1)
                                 else old(session.State())
    {
      hide Wire, OutgoingSize;
      sent := [];
      var msgType := if step.fields[0].tag == 35 then step.fields[0].value else "0";
      var data, time := Compose(msgType, step.fields);
      if data.None? {
        return Some(SerializationFailed), sent;
      }
      var ok := conn.Send(data.value, msgType, time, step.fields);
      sent := [Attempt(data.value, msgType, time, step.fields, ok)];
      if !ok {
        return Some(SendFailed), sent;
      }
      session.OnMessageSent();
      return None, sent;
    }

    method MatchFields(fields: seq<Field>, expected: seq<Field>) returns (ok: bool)
      ensures ok == MatchesFields(fields, expected)
    {
      for i := 0 to |expected|
        invariant forall j :: 0 <= j < i ==> FieldOf(fields, expected[j].tag) == Some(expected[j].value)
      {
        var actual := FieldOf(fields, expected[i].tag);
        if actual.None? || actual.value != expected[i].value {
          return false;
        }
      }
      return true;
    }

    /**
     Answers a message from the first triggered rule whose reply fits, if there
     is one; the answer counts even when the connection refuses it.
     */
    method ProcessMocks(fields: seq<Field>) returns (handled: bool, ghost rule: nat, ghost sent: seq<Attempt>)
      modifies session, conn`attempts
      ensures conn.attempts == old(conn.attempts) + sent
      ensures FirstAnswer(session.config, old(session.nextOutSeq), activeMocks, fields)
           == if handled then Some(rule) else None
      ensures |sent| == (if handled then 1 else 0)
      ensures handled ==>
                Composed(session.config, old(session.nextOutSeq), sent[0]) && IsReply(sent[0], activeMocks[rule])
      ensures session.State() == old(session.State()).(nextOut := old(session.nextOutSeq) + |sent|)
    {
      hide Wire, OutgoingSize, FirstAnswer;
      rule, sent := 0, [];
      for i := 0 to |activeMocks|
        invariant session.State() == old(session.State()) && conn.attempts == old(conn.attempts)
        invariant forall j :: 0 <= j < i ==> !Answers(session.config, session.nextOutSeq, activeMocks[j], fields)
      {
        var mockRule := activeMocks[i];
        if mockRule.fields == [] {
          continue;
        }
        var trigger := mockRule.fields[0];
        var actual := FieldOf(fields, trigger.tag);
        if actual.Some? && actual.value == trigger.value {
          var replyType := "8";
          if |mockRule.fields| > 1 && mockRule.fields[1].tag == 35 {
            replyType := mockRule.fields[1].value;
          }
          var data, time := Compose(replyType, mockRule.fields[1..]);
          if data.Some? {
            FirstAnswerIs(session.config, session.nextOutSeq, activeMocks, fields, i);
            var ok := conn.Send(data.value, replyType, time, mockRule.fields[1..]);
            session.OnMessageSent();
            rule, sent := i, [Attempt(data.value, replyType, time, mockRule.fields[1..], ok)];
            return true, rule, sent;
          }
        }
      }
      FirstAnswerIs(session.config, session.nextOutSeq, activeMocks, fields, |activeMocks|);
      return false, rule, sent;
    }

    /** The session stands where the logged messages have brought it. */
    ghost predicate Followed(s0: SessionState, log: seq<Inspected>)
      reads session
    {
      Accepted(s0, log) && SameIncoming(session.State(), AfterLog(s0, log))
    }

    /** Looks at one framed message: session first, then the expectation, then the mock rules, then heartbeats. */
    method InspectMessage(raw: bytes, step: ScenarioStep, ghost s0: SessionState, ghost log: seq<Inspected>)
      returns (error: Option<RunError>, matched: bool, ghost m: Inspected, ghost sent: seq<Attempt>)
      requires Followed(s0, log)
      modifies session, conn`attempts
      ensures conn.attempts == old(conn.attempts) + sent
      ensures session.nextOutSeq == old(session.nextOutSeq) + |sent|
      ensures m.raw == raw && |sent| == (if m.verdict.Mocked? then 1 else 0)
      ensures error.Some? ==>
                && sent == []
                && Rejects(error.value, session.config, old(session.nextOutSeq), step, m, activeMocks,
                           AfterLog(s0, log))
      ensures error.None? ==> Followed(s0, log + [m])
      ensures error.None? && matched ==> m.verdict == Matched && MatchesFields(m.fields, step.fields)
      ensures error.None? && !matched ==> Passes(session.config, old(session.nextOutSeq), step, m, activeMocks)
      ensures error.None? && m.verdict.Mocked? ==>
                && m.verdict.rule < |activeMocks|
                && Composed(session.config, old(session.nextOutSeq), sent[0])
                && IsReply(sent[0], activeMocks[m.verdict.rule])
    {
      hide Composed, Accepted, Parsing, Receive, FieldOf, IntOf, AfterLog, MatchesFields, Answers, IsReply, FirstAnswer;
      matched, sent, m := false, [], Inspected(raw, [], Ignored);
      var parsed := FixMessage.Parse(raw, SOH);
      if parsed.Err? {
        return Some(ParseFailed(parsed.error)), matched, m, sent;
      }
      var fields := parsed.value.fields;
      m := m.(fields := fields);
      ghost var before := session.State();
      var result := session.ReceiveMessage(fields);
      SameIncomingReceives(before, AfterLog(s0, log), ReadIncoming(fields));
      if result.action == SessionAction.Disconnect {
        return Some(SessionDisconnected), matched, m, sent;
      }
      matched := MatchFields(fields, step.fields);
      if matched {
        m := m.(verdict := Matched);
        LogGrows(s0, log, m, before);
        return None, matched, m, sent;
      }
      var handled: bool;
      ghost var rule: nat;
      handled, rule, sent := ProcessMocks(fields);
      if handled {
        m := m.(verdict := Mocked(rule));
        LogGrows(s0, log, m, before);
        return None, matched, m, sent;
      }
      var msgType := FieldOf(fields, 35);
      if msgType.Some? && (msgType.value == "0" || msgType.value == "1") {
        LogGrows(s0, log, m, before);
        return None, matched, m, sent;
      }
      return Some(FieldsMismatch), matched, m, sent;
    }

    /** An EXPECT step: frames, inspects and passes over messages until one matches, time permitting. */
    method ExpectStep(step: ScenarioStep, rx: ReceiveBuffer, ghost s0: SessionState, ghost log: seq<Inspected>)
      returns (error: Option<RunError>, ghost deed: Deed, ghost culprit: Option<Inspected>)
      requires step.action == Expect
      requires Followed(s0, log) && Framed(conn.received, log, rx.data)
      modifies session, conn`attempts, conn`received, rx
      ensures conn.attempts == old(conn.attempts) + deed.sent
      ensures session.nextOutSeq == old(session.nextOutSeq) + |deed.sent|
      ensures Followed(s0, log + deed.looked) || (error.Some? && Accepted(s0, log + deed.looked))
      ensures Framed(conn.received, log + deed.looked + OptionSeq(culprit), rx.data)
      ensures error.None? ==>
                culprit.None? && StepDone(session.config, old(session.nextOutSeq), step, deed, activeMocks)
      ensures error.Some? ==>
                StepFails(error.value, session.config, old(session.nextOutSeq), step, deed, activeMocks,
                          AfterLog(s0, log + deed.looked), culprit)
    {
      hide Rejects, Passes, PassesOver, Composed, Accepted, Framed, IsReply, MatchesFields, FromHead, MessageEnd,
           AfterLog;
      ghost var n, looked, sent := session.nextOutSeq, [], [];
      deed, culprit := NOTHING, None;
      PassNothing(session.config, n, step, activeMocks);
      assert log + [] == log;
      var readings: nat := *;
      while true
        invariant Followed(s0, log + looked) && Framed(conn.received, log + looked, rx.data)
        invariant conn.attempts == old(conn.attempts) + sent && session.nextOutSeq == n + |sent|
        invariant PassesOver(session.config, n, step, looked, sent, activeMocks)
        decreases readings
      {
        if readings == 0 {
          assert log + looked + [] == log + looked;
          return Some(TimedOut), Deed(looked, sent, []), None;
        }
        readings := readings - 1;
        ghost var buffer := rx.data;
        var raw := rx.ExtractNextMessage(SOH);
        if raw.None? {
          FramedByHead(conn.received, log + looked, buffer);
          ghost var had := conn.received;
          var chunk := conn.Receive();
          if chunk.Some? {
            SettledForChunk(buffer);
            FramedByChunk(had, log + looked, rx.data, chunk.value);
            rx.Append(chunk.value);
          }
          continue;
        }
        var failed, found, m, replies := InspectMessage(raw.value, step, s0, log + looked);
        Assoc(old(conn.attempts), sent, replies);
        Assoc(log, looked, [m]);
        FramedByMessage(conn.received, log + looked, buffer, m, rx.data);
        if failed.Some? {
          RejectionFails(failed.value, session.config, n, step, Deed(looked, sent, []), activeMocks,
                         AfterLog(s0, log + looked), m);
          return failed, Deed(looked, sent, []), Some(m);
        }
        if found {
          assert (looked + [m])[..|looked|] == looked;
          assert log + (looked + [m]) + [] == log + (looked + [m]);
          return None, Deed(looked + [m], sent, []), None;
        }
        PassNext(session.config, n, step, looked, sent, activeMocks, m, replies);
        looked, sent := looked + [m], sent + replies;
      }
    }

    /** One step of a scenario. */
    method TakeStep(step: ScenarioStep, rx: ReceiveBuffer, ghost s0: SessionState, ghost log: seq<Inspected>)
      returns (error: Option<RunError>, ghost deed: Deed, ghost culprit: Option<Inspected>)
      requires step.action == Send ==> step.fields != []
      requires Followed(s0, log) && Framed(conn.received, log, rx.data)
      modifies this, session, conn, rx
      ensures conn.attempts == old(conn.attempts) + deed.sent && conn.switches == old(conn.switches) + deed.switches
      ensures Accepted(s0, log + deed.looked) && Framed(conn.received, log + deed.looked + OptionSeq(culprit), rx.data)
      ensures error.None? ==>
                && culprit.None? && Followed(s0, log + deed.looked)
                && StepDone(session.config, old(session.nextOutSeq), step, deed, old(activeMocks))
      ensures error.Some? ==>
                StepFails(error.value, session.config, old(session.nextOutSeq), step, deed, old(activeMocks),
                          AfterLog(s0, log + deed.looked), culprit)
      ensures session.nextOutSeq == old(session.nextOutSeq) + |deed.sent| - if error == Some(SendFailed) then 1 else 0
      ensures activeMocks == if step.action == Mock then old(activeMocks) + [step] else old(activeMocks)
    {
      hide Composed, Accepted, Framed, PassesOver, AfterLog, TooLong;
      error, deed, culprit := None, NOTHING, None;
      assert log + [] == log && log + [] + [] == log;
      match step.action {
        case Connect =>
          var ok := conn.Connect();
          deed := Deed([], [], [if ok then Opened else Refused]);
          if !ok {
            error := Some(ConnectionFailed);
          }
        case Disconnect =>
          conn.Disconnect();
          deed := Deed([], [], [Closed]);
        case Send =>
          ghost var sent;
          error, sent := SendStep(step);
          deed := Deed([], sent, []);
        case Expect =>
          error, deed, culprit := ExpectStep(step, rx, s0, log);
        case Mock =>
          activeMocks := activeMocks + [step];
      }
    }

    /**
     Runs a scenario. Whatever the outcome, the deeds are all that happened, and
     they are what the steps prescribe up to the one that failed, if one did.
     */
    method Run(steps: seq<ScenarioStep>)
      returns (r: RunResult, ghost deeds: seq<Deed>, ghost culprit: Option<Inspected>, ghost buffered: bytes)
      requires forall k :: 0 <= k < |steps| && steps[k].action == Send ==> steps[k].fields != []
      modifies this, session, conn
      ensures conn.attempts == SentBy(deeds) && conn.switches == SwitchesBy(deeds)
      ensures Ran(r, session.config, old(session.State()), steps, old(activeMocks), deeds, culprit, conn.received,
                  buffered)
      ensures session.nextOutSeq
           == old(session.nextOutSeq) + |conn.attempts| - if r.error == Some(SendFailed) then 1 else 0
      ensures r.stepsExecuted <= |steps| && activeMocks == MocksAfter(old(activeMocks), steps[..r.stepsExecuted])
      ensures r.Success() ==> SameIncoming(session.State(), AfterLog(old(session.State()), LookedAt(deeds)))
    {
      hide Accepted, Framed, Done, StepDone, StepFails, AfterLog, MocksAfter, SentBy, LookedAt, SwitchesBy;
      ghost var s0, initial := session.State(), activeMocks;
      conn.switches, conn.attempts, conn.received := [], [], [];
      deeds, culprit, buffered := [], None, [];
      var rx := new ReceiveBuffer();
      RunStarts(session.config, s0, initial);
      assert steps[..0] == [];
      for i := 0 to |steps|
        invariant |deeds| == i && fresh(rx)
        invariant conn.attempts == SentBy(deeds) && conn.switches == SwitchesBy(deeds)
        invariant session.nextOutSeq == s0.nextOut + |conn.attempts|
        invariant Followed(s0, LookedAt(deeds)) && Framed(conn.received, LookedAt(deeds), rx.data)
        invariant activeMocks == MocksAfter(initial, steps[..i])
        invariant Done(session.config, s0.nextOut, steps[..i], deeds, initial)
      {
        var step := steps[i];
        MocksNext(initial, steps, i);
        assert steps[..i + 1] == steps[..i] + [step];
        var error, deed, cause := TakeStep(step, rx, s0, LookedAt(deeds));
        DeedNext(deeds, deed);
        if error.Some? {
          assert (deeds + [deed])[..i] == deeds;
          return RunResult(error, i + 1), deeds + [deed], cause, rx.data;
        }
        DoneNext(session.config, s0.nextOut, steps[..i], deeds, initial, step, deed);
        assert LookedAt(deeds) + deed.looked + [] == LookedAt(deeds) + deed.looked;
        deeds := deeds + [deed];
      }
      assert steps[..|steps|] == steps;
      assert LookedAt(deeds) + [] == LookedAt(deeds);
      buffered := rx.data;
      return RunResult(None, |steps|), deeds, None, buffered;
    }
  }

  lemma RunStarts(config: SessionConfig, s0: SessionState, initial: seq<ScenarioStep>)
    ensures SentBy([]) == [] && LookedAt([]) == [] && SwitchesBy([]) == []
    ensures Accepted(s0, []) && AfterLog(s0, []) == s0 && Framed([], [], [])
    ensures MocksAfter(initial, []) == initial && Done(config, s0.nextOut, [], [], initial)
  {
    FramedAtStart();
  }

  lemma PassNothing(config: SessionConfig, n: int, step: ScenarioStep, mocks: seq<ScenarioStep>)
    ensures PassesOver(config, n, step, [], [], mocks)
  {
  }

  lemma SettledForChunk(buffer: bytes)
    requires MessageEnd(FromHead(buffer), SOH).None?
    ensures FromHead(FromHead(buffer)) == FromHead(buffer)
  {
    TrimIsIdempotent(buffer);
  }
}
