/**
 The history of a scenario run: what each step looked at, sent and asked of the
 connection, and what it means for a step to be done or to fail.
 */
module History {
  import opened Bytes
  import opened Codec
  import opened Framing
  import opened Session
  import opened Outgoing
  import opened Scenario

  /** The size of the buffer a message is written into. */
  const BUFFER_SIZE: nat := 4096

  /** A message handed to the connection: its bytes, what it was made of, and whether it was taken. */
  datatype Attempt = Attempt(data: bytes, msgType: bytes, time: bytes, extra: seq<Field>, ok: bool)

  /** What was asked of the connection itself. */
  datatype Switch = Opened | Refused | Closed

  /** What an EXPECT step made of a message: its match, the trigger of a mock rule, or neither. */
  datatype Verdict = Matched | Mocked(rule: nat) | Ignored

  /** A message an EXPECT step has looked at. */
  datatype Inspected = Inspected(raw: bytes, fields: seq<Field>, verdict: Verdict)

  /** What a step did. */
  datatype Deed = Deed(looked: seq<Inspected>, sent: seq<Attempt>, switches: seq<Switch>)

  const NOTHING := Deed([], [], [])

  datatype RunError =
    | ConnectionFailed
    | SerializationFailed
    | SendFailed
    | TimedOut
    | ParseFailed(error: ParseError)
    | SessionDisconnected
    | FieldsMismatch

  datatype RunResult = RunResult(error: Option<RunError>, stepsExecuted: nat) {
    predicate Success() { error.None? }
  }

  // ----- messages -----

  /** Every expected field is found with its value. */
  predicate MatchesFields(fields: seq<Field>, expected: seq<Field>) {
    forall i :: 0 <= i < |expected| ==> FieldOf(fields, expected[i].tag) == Some(expected[i].value)
  }

  predicate IsHeartbeat(fields: seq<Field>) {
    FieldOf(fields, 35) == Some("0") || FieldOf(fields, 35) == Some("1")
  }

  /** The message type of a SEND step. */
  function SendType(step: ScenarioStep): bytes
    requires step.fields != []
  {
    if step.fields[0].tag == 35 then step.fields[0].value else "0"
  }

  /** The message type a mock rule answers with. */
  function ReplyType(rule: ScenarioStep): bytes {
    if |rule.fields| > 1 && rule.fields[1].tag == 35 then rule.fields[1].value else "8"
  }

  /** The message numbered n does not fit the buffer. */
  predicate TooLong(config: SessionConfig, n: int, msgType: bytes, extra: seq<Field>) {
    OutgoingSize(config, n, msgType, extra, SOH) > BUFFER_SIZE
  }

  /** The attempt carries the outgoing message numbered n. */
  ghost predicate Composed(config: SessionConfig, n: int, a: Attempt) {
    && IsTimestamp(a.time)
    && a.data == Wire(OutgoingFields(config, n, a.msgType, a.time, a.extra), SOH)
    && !TooLong(config, n, a.msgType, a.extra)
  }

  /** A SEND step's message. */
  predicate IsSend(a: Attempt, step: ScenarioStep) {
    step.action == Send && step.fields != [] && a.msgType == SendType(step) && a.extra == step.fields
  }

  /** A mock rule's reply. */
  predicate IsReply(a: Attempt, rule: ScenarioStep) {
    rule.fields != [] && a.msgType == ReplyType(rule) && a.extra == rule.fields[1..]
  }

  // ----- mock rules -----

  /** The first field of a mock rule is its trigger. */
  predicate Triggers(rule: ScenarioStep, fields: seq<Field>) {
    rule.fields != [] && FieldOf(fields, rule.fields[0].tag) == Some(rule.fields[0].value)
  }

  /** A triggered rule whose reply, numbered n, fits the buffer. */
  predicate Answers(config: SessionConfig, n: int, rule: ScenarioStep, fields: seq<Field>) {
    Triggers(rule, fields) && !TooLong(config, n, ReplyType(rule), rule.fields[1..])
  }

  /** The first of the rules that answers a message. */
  function FirstAnswer(config: SessionConfig, n: int, mocks: seq<ScenarioStep>, fields: seq<Field>): (r: Option<nat>)
    ensures r.Some? ==> r.value < |mocks|
  {
    if mocks == [] then None
    else
      var last := |mocks| - 1;
      var r := FirstAnswer(config, n, mocks[..last], fields);
      if r.None? && Answers(config, n, mocks[last], fields) then Some(last) else r
  }

  /** The mock rules in force after some steps. */
  function MocksAfter(initial: seq<ScenarioStep>, steps: seq<ScenarioStep>): seq<ScenarioStep> {
    if steps == [] then initial
    else
      var front := MocksAfter(initial, steps[..|steps| - 1]);
      if steps[|steps| - 1].action == Mock then front + [steps[|steps| - 1]] else front
  }

  // ----- one step -----

  /** The step passes over a message when n is the next outgoing number. */
  predicate Passes(config: SessionConfig, n: int, step: ScenarioStep, m: Inspected, mocks: seq<ScenarioStep>) {
    && !MatchesFields(m.fields, step.fields)
    && var answer := FirstAnswer(config, n, mocks, m.fields);
       match m.verdict
       case Matched => false
       case Mocked(rule) => answer == Some(rule)
       case Ignored => answer == None && IsHeartbeat(m.fields)
  }

  /** The step passes over messages, sending one reply for each message that a mock rule answers, in order. */
  ghost predicate PassesOver(config: SessionConfig, n: int, step: ScenarioStep, looked: seq<Inspected>,
                             sent: seq<Attempt>, mocks: seq<ScenarioStep>)
    decreases |looked|
  {
    if looked == [] then sent == []
    else
      var m, front := looked[|looked| - 1], looked[..|looked| - 1];
      if m.verdict.Mocked? then
        && sent != []
        && var k := |sent| - 1;
           && Passes(config, n + k, step, m, mocks)
           && Composed(config, n + k, sent[k]) && IsReply(sent[k], mocks[m.verdict.rule])
           && PassesOver(config, n, step, front, sent[..k], mocks)
      else
        Passes(config, n + |sent|, step, m, mocks) && PassesOver(config, n, step, front, sent, mocks)
  }

  /** What a step does when n is the next outgoing number and the given mock rules are in force. */
  ghost predicate StepDone(config: SessionConfig, n: int, step: ScenarioStep, d: Deed, mocks: seq<ScenarioStep>) {
    match step.action
    case Connect => d == Deed([], [], [Opened])
    case Disconnect => d == Deed([], [], [Closed])
    case Mock => d == NOTHING
    case Send =>
      && d.looked == [] && d.switches == [] && |d.sent| == 1
      && IsSend(d.sent[0], step) && Composed(config, n, d.sent[0]) && d.sent[0].ok
    case Expect =>
      && d.looked != [] && d.switches == []
      && var i := |d.looked| - 1;
         && d.looked[i].verdict == Matched && MatchesFields(d.looked[i].fields, step.fields)
         && PassesOver(config, n, step, d.looked[..i], d.sent, mocks)
  }

  /**
   Why a step fails, and what it did before. An EXPECT step gives up in time, or
   at a culprit that it looks at when the session stands at s.
   */
  ghost predicate StepFails(error: RunError, config: SessionConfig, n: int, step: ScenarioStep, d: Deed,
                            mocks: seq<ScenarioStep>, s: SessionState, culprit: Option<Inspected>)
  {
    match error
    case ConnectionFailed => step.action == Connect && d == Deed([], [], [Refused]) && culprit.None?
    case SerializationFailed =>
      && step.action == Send && step.fields != [] && TooLong(config, n, SendType(step), step.fields)
      && d == NOTHING && culprit.None?
    case SendFailed =>
      && d.looked == [] && d.switches == [] && |d.sent| == 1
      && IsSend(d.sent[0], step) && Composed(config, n, d.sent[0]) && !d.sent[0].ok
      && culprit.None?
    case _ =>
      && step.action == Expect && d.switches == []
      && PassesOver(config, n, step, d.looked, d.sent, mocks)
      && if culprit.None? then error == TimedOut
         else Rejects(error, config, n + |d.sent|, step, culprit.value, mocks, s)
  }

  /** Why an EXPECT step gives up on a message: unparsable, refused by the session, or neither expected nor answered. */
  ghost predicate Rejects(error: RunError, config: SessionConfig, n: int, step: ScenarioStep, m: Inspected,
                          mocks: seq<ScenarioStep>, s: SessionState) {
    match error
    case ParseFailed(e) => Parsing(m.raw, SOH) == Err(e)
    case SessionDisconnected =>
      && Parsing(m.raw, SOH) == Ok(m.fields)
      && Receive(s, ReadIncoming(m.fields)).result.action == SessionAction.Disconnect
    case FieldsMismatch =>
      && Parsing(m.raw, SOH) == Ok(m.fields)
      && Receive(s, ReadIncoming(m.fields)).result.action != SessionAction.Disconnect
      && !MatchesFields(m.fields, step.fields) && !IsHeartbeat(m.fields)
      && FirstAnswer(config, n, mocks, m.fields) == None
    case _ => false
  }

  // ----- whole runs -----

  /** All that was handed to the connection, in order. */
  function SentBy(deeds: seq<Deed>): seq<Attempt> {
    if deeds == [] then [] else SentBy(deeds[..|deeds| - 1]) + deeds[|deeds| - 1].sent
  }

  /** All messages looked at, in order. */
  function LookedAt(deeds: seq<Deed>): seq<Inspected> {
    if deeds == [] then [] else LookedAt(deeds[..|deeds| - 1]) + deeds[|deeds| - 1].looked
  }

  function SwitchesBy(deeds: seq<Deed>): seq<Switch> {
    if deeds == [] then [] else SwitchesBy(deeds[..|deeds| - 1]) + deeds[|deeds| - 1].switches
  }

  /** Every step is done, each with the number that follows what the earlier ones sent. */
  ghost predicate Done(config: SessionConfig, first: int, steps: seq<ScenarioStep>, deeds: seq<Deed>,
                       initial: seq<ScenarioStep>)
    decreases |steps|
  {
    && |deeds| == |steps|
    && (steps == [] ||
        var n := |steps| - 1;
        && Done(config, first, steps[..n], deeds[..n], initial)
        && StepDone(config, first + |SentBy(deeds[..n])|, steps[n], deeds[n], MocksAfter(initial, steps[..n])))
  }

  /** The session after the messages of a log, in their order. */
  function AfterLog(s: SessionState, log: seq<Inspected>): SessionState {
    if log == [] then s
    else Receive(AfterLog(s, log[..|log| - 1]), ReadIncoming(log[|log| - 1].fields)).state
  }

  /** Every message of the log was parsed from its bytes, and none made the session disconnect. */
  ghost predicate Accepted(s: SessionState, log: seq<Inspected>) {
    forall i :: 0 <= i < |log| ==>
      && Parsing(log[i].raw, SOH) == Ok(log[i].fields)
      && Receive(AfterLog(s, log[..i]), ReadIncoming(log[i].fields)).result.action != SessionAction.Disconnect
  }

  function Raws(log: seq<Inspected>): seq<bytes> {
    seq(|log|, i requires 0 <= i < |log| => log[i].raw)
  }

  /** The messages framed from the received chunks: those looked at, then those still in the buffer. */
  ghost predicate Framed(received: seq<bytes>, log: seq<Inspected>, buffer: bytes) {
    FeedAll([], received, SOH) == Drained(Raws(log) + Drain(buffer, SOH).messages, Drain(buffer, SOH).residue)
  }

  function OptionSeq<T>(x: Option<T>): seq<T> {
    match x
    case None => []
    case Some(value) => [value]
  }

  /**
   The history of a run of the steps from session state s0 with some mock rules
   in force. All steps but the last one executed are done, and so is that one
   when the run succeeds; otherwise it fails for the reason given. The messages
   looked at are those framed from what arrived, in wire order; each was parsed
   and went to the session once.
   */
  ghost predicate Ran(r: RunResult, config: SessionConfig, s0: SessionState, steps: seq<ScenarioStep>,
                      initial: seq<ScenarioStep>, deeds: seq<Deed>, culprit: Option<Inspected>,
                      received: seq<bytes>, buffered: bytes)
  {
    && Accepted(s0, LookedAt(deeds))
    && Framed(received, LookedAt(deeds) + OptionSeq(culprit), buffered)
    && |deeds| == r.stepsExecuted <= |steps|
    && match r.error
       case None =>
         r.stepsExecuted == |steps| && Done(config, s0.nextOut, steps, deeds, initial) && culprit.None?
       case Some(e) =>
         && 0 < r.stepsExecuted
         && var k := r.stepsExecuted - 1;
            && Done(config, s0.nextOut, steps[..k], deeds[..k], initial)
            && StepFails(e, config, s0.nextOut + |SentBy(deeds[..k])|, steps[k], deeds[k],
                         MocksAfter(initial, steps[..k]), AfterLog(s0, LookedAt(deeds)), culprit)
  }

  /** Sending leaves the incoming side of the session alone. */
  predicate SameIncoming(a: SessionState, b: SessionState) {
    a.loggedOn == b.loggedOn && a.nextIn == b.nextIn
  }

  // ----- lemmas about histories -----

  lemma SameIncomingReceives(a: SessionState, b: SessionState, m: Incoming)
    requires SameIncoming(a, b)
    ensures Receive(a, m).result == Receive(b, m).result && SameIncoming(Receive(a, m).state, Receive(b, m).state)
    ensures Receive(a, m).state.nextOut == a.nextOut
  {
  }

  /** A log grows by a parsed message that did not make the session disconnect. */
  lemma LogGrows(s: SessionState, log: seq<Inspected>, m: Inspected, now: SessionState)
    requires Accepted(s, log) && SameIncoming(now, AfterLog(s, log))
    requires Parsing(m.raw, SOH) == Ok(m.fields)
    requires Receive(now, ReadIncoming(m.fields)).result.action != SessionAction.Disconnect
    ensures Accepted(s, log + [m])
    ensures SameIncoming(Receive(now, ReadIncoming(m.fields)).state, AfterLog(s, log + [m]))
  {
    hide Parsing, FieldOf, IntOf, Receive;
    var all := log + [m];
    assert all[..|all| - 1] == log;
    SameIncomingReceives(now, AfterLog(s, log), ReadIncoming(m.fields));
    forall i | 0 <= i < |all|
      ensures Parsing(all[i].raw, SOH) == Ok(all[i].fields)
      ensures Receive(AfterLog(s, all[..i]), ReadIncoming(all[i].fields)).result.action != SessionAction.Disconnect
    {
      if i < |log| {
        assert all[..i] == log[..i] && all[i] == log[i];
      }
    }
  }

  lemma FramedByHead(received: seq<bytes>, log: seq<Inspected>, buffer: bytes)
    requires Framed(received, log, buffer)
    ensures Framed(received, log, FromHead(buffer))
  {
    hide Drain, FromHead, FeedAll;
    TrimIsIdempotent(buffer);
    DrainDependsOnTrim(FromHead(buffer), buffer, SOH);
  }

  lemma {:induction false} FeedSnoc(r: bytes, chunks: seq<bytes>, chunk: bytes, sep: Separator)
    ensures var d := FeedAll(r, chunks, sep);
            var e := Drain(d.residue + chunk, sep);
            FeedAll(r, chunks + [chunk], sep) == Drained(d.messages + e.messages, e.residue)
    decreases |chunks|
  {
    hide Drain;
    var all := chunks + [chunk];
    if chunks == [] {
      FeedOne(r, chunk, sep);
      assert all == [chunk];
    } else {
      assert all[1..] == chunks[1..] + [chunk];
      var first := Drain(r + chunks[0], sep);
      FeedSnoc(first.residue, chunks[1..], chunk, sep);
      var d := FeedAll(first.residue, chunks[1..], sep);
      Assoc(first.messages, d.messages, Drain(d.residue + chunk, sep).messages);
    }
  }

  lemma FeedOne(r: bytes, chunk: bytes, sep: Separator)
    ensures var e := Drain(r + chunk, sep);
            FeedAll(r, [chunk], sep) == Drained([] + e.messages, e.residue)
  {
    hide Drain;
    var e := Drain(r + chunk, sep);
    assert [chunk][1..] == [] && e.messages + [] == e.messages;
  }

  /** A chunk is received only when the buffer holds no whole message. */
  lemma FramedByChunk(received: seq<bytes>, log: seq<Inspected>, buffer: bytes, chunk: bytes)
    requires Framed(received, log, buffer) && MessageEnd(buffer, SOH).None? && FromHead(buffer) == buffer
    ensures Framed(received + [chunk], log, buffer + chunk)
  {
    hide Drain, FromHead, MessageEnd, FeedAll, Raws;
    DrainEnd(buffer, SOH);
    FeedSnoc([], received, chunk, SOH);
    assert Raws(log) + [] == Raws(log);
  }

  /** A message taken out of the buffer moves from the buffer's share to the log's. */
  lemma FramedByMessage(received: seq<bytes>, log: seq<Inspected>, buffer: bytes, m: Inspected, rest: bytes)
    requires Framed(received, log, buffer)
    requires MessageEnd(FromHead(buffer), SOH) == Some(|m.raw|) && FromHead(buffer) == m.raw + rest
    ensures Framed(received, log + [m], rest)
  {
    hide Drain, FromHead, MessageEnd, FeedAll;
    DrainStep(buffer, SOH, |m.raw|);
    assert FromHead(buffer)[..|m.raw|] == m.raw && FromHead(buffer)[|m.raw|..] == rest;
    assert Raws(log + [m]) == Raws(log) + [m.raw];
    Assoc(Raws(log), [m.raw], Drain(rest, SOH).messages);
  }

  lemma FramedAtStart()
    ensures Framed([], [], [])
  {
    EmptyHasNoEnd(SOH);
  }

  /** The replying rule is the least triggered one whose reply fits; there is none exactly when no rule answers. */
  lemma {:induction false} FirstAnswerIs(config: SessionConfig, n: int, mocks: seq<ScenarioStep>, fields: seq<Field>,
                                         i: nat)
    requires i <= |mocks| && forall j :: 0 <= j < i ==> !Answers(config, n, mocks[j], fields)
    ensures i < |mocks| && Answers(config, n, mocks[i], fields) ==> FirstAnswer(config, n, mocks, fields) == Some(i)
    ensures i == |mocks| ==> FirstAnswer(config, n, mocks, fields) == None
  {
    hide Answers;
    if mocks != [] {
      var last := |mocks| - 1;
      FirstAnswerIs(config, n, mocks[..last], fields, if i < last then i else last);
    }
  }

  /** One more message passed over. */
  lemma PassNext(config: SessionConfig, n: int, step: ScenarioStep, looked: seq<Inspected>, sent: seq<Attempt>,
                 mocks: seq<ScenarioStep>, m: Inspected, replies: seq<Attempt>)
    requires PassesOver(config, n, step, looked, sent, mocks)
    requires Passes(config, n + |sent|, step, m, mocks)
    requires |replies| == if m.verdict.Mocked? then 1 else 0
    requires m.verdict.Mocked? ==>
               Composed(config, n + |sent|, replies[0]) && IsReply(replies[0], mocks[m.verdict.rule])
    ensures PassesOver(config, n, step, looked + [m], sent + replies, mocks)
  {
    hide Passes, Composed, IsReply;
    var all := looked + [m];
    assert all[..|all| - 1] == looked;
    if m.verdict.Mocked? {
      assert (sent + replies)[..|sent|] == sent;
    } else {
      assert sent + replies == sent;
    }
  }

  lemma RejectionFails(error: RunError, config: SessionConfig, n: int, step: ScenarioStep, d: Deed,
                       mocks: seq<ScenarioStep>, s: SessionState, m: Inspected)
    requires step.action == Expect && d.switches == [] && PassesOver(config, n, step, d.looked, d.sent, mocks)
    requires Rejects(error, config, n + |d.sent|, step, m, mocks, s)
    ensures StepFails(error, config, n, step, d, mocks, s, Some(m))
  {
    hide PassesOver, FirstAnswer, MatchesFields, IsHeartbeat, Receive, ReadIncoming, Parsing;
  }

  /** One more deed. */
  lemma DeedNext(deeds: seq<Deed>, d: Deed)
    ensures SentBy(deeds + [d]) == SentBy(deeds) + d.sent
    ensures LookedAt(deeds + [d]) == LookedAt(deeds) + d.looked
    ensures SwitchesBy(deeds + [d]) == SwitchesBy(deeds) + d.switches
  {
    assert (deeds + [d])[..|deeds|] == deeds;
  }

  lemma DoneNext(config: SessionConfig, first: int, steps: seq<ScenarioStep>, deeds: seq<Deed>,
                 initial: seq<ScenarioStep>, step: ScenarioStep, d: Deed)
    requires Done(config, first, steps, deeds, initial)
    requires StepDone(config, first + |SentBy(deeds)|, step, d, MocksAfter(initial, steps))
    ensures Done(config, first, steps + [step], deeds + [d], initial)
  {
    hide StepDone, SentBy, MocksAfter;
    assert (steps + [step])[..|steps|] == steps && (deeds + [d])[..|deeds|] == deeds;
  }

  lemma MocksNext(initial: seq<ScenarioStep>, steps: seq<ScenarioStep>, i: nat)
    requires i < |steps|
    ensures MocksAfter(initial, steps[..i + 1])
         == if steps[i].action == Mock then MocksAfter(initial, steps[..i]) + [steps[i]]
           else MocksAfter(initial, steps[..i])
  {
    assert steps[..i + 1][..i] == steps[..i];
  }
}
