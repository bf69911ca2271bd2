/**
 What a run means to those outside: what the peer reads, which messages are
 answered by which rule, and why a run ends, said of fields and bytes alone.
 */
module RunMeaning {
  import opened Bytes
  import opened Codec
  import opened CodecLaws
  import opened Session
  import opened SessionLaws
  import opened Outgoing
  import opened Scenario
  import opened History
  import opened ReadBack
  import opened RunLaws

  // ----- rules and requests -----

  /** The steps of one kind, in order. */
  function Those(steps: seq<ScenarioStep>, action: ActionType): seq<ScenarioStep> {
    if steps == [] then []
    else
      var n := |steps| - 1;
      if steps[n].action == action then Those(steps[..n], action) + [steps[n]] else Those(steps[..n], action)
  }

  /** The rules in force are those from before the run, then those of the MOCK steps taken, in order. */
  lemma {:induction false} RulesInForce(initial: seq<ScenarioStep>, steps: seq<ScenarioStep>)
    ensures MocksAfter(initial, steps) == initial + Those(steps, Mock)
  {
    if steps == [] {
      assert initial + [] == initial;
    } else {
      RulesInForce(initial, steps[..|steps| - 1]);
    }
  }

  /** Opened for each CONNECT step, closed for each DISCONNECT step. */
  function Asked(steps: seq<ScenarioStep>): seq<Switch> {
    if steps == [] then []
    else
      var n := |steps| - 1;
      if steps[n].action == ActionType.Connect then Asked(steps[..n]) + [Opened]
      else if steps[n].action == ActionType.Disconnect then Asked(steps[..n]) + [Closed]
      else Asked(steps[..n])
  }

  lemma {:induction false} ConnectionIsAsked(config: SessionConfig, first: int, steps: seq<ScenarioStep>,
                                             deeds: seq<Deed>, initial: seq<ScenarioStep>)
    requires Done(config, first, steps, deeds, initial)
    ensures SwitchesBy(deeds) == Asked(steps)
    decreases |steps|
  {
    hide PassesOver, Composed, IsSend, MatchesFields, MocksAfter;
    if steps != [] {
      var n := |steps| - 1;
      ConnectionIsAsked(config, first, steps[..n], deeds[..n], initial);
      assert SwitchesBy(deeds[..n]) + [] == SwitchesBy(deeds[..n]);
    }
  }

  // ----- what fits -----

  /** The message numbered n exceeds 4096 bytes at every time. */
  ghost predicate Exceeds(config: SessionConfig, n: int, msgType: bytes, supplied: seq<Field>) {
    forall time: bytes :: IsTimestamp(time) ==>
      |Wire(OutgoingFields(config, n, msgType, time, supplied), SOH)| > 4096
  }

  lemma TooLongMeans(config: SessionConfig, n: int, msgType: bytes, supplied: seq<Field>)
    ensures TooLong(config, n, msgType, supplied) <==> Exceeds(config, n, msgType, supplied)
    ensures TooLong(config, n, msgType, supplied) <==>
            exists time: bytes ::
              IsTimestamp(time) && |Wire(OutgoingFields(config, n, msgType, time, supplied), SOH)| > 4096
  {
    hide Wire, WithoutHeader, IsTimestamp;
    EpochIsTimestamp();
    forall time: bytes | IsTimestamp(time)
      ensures |Wire(OutgoingFields(config, n, msgType, time, supplied), SOH)|
           == OutgoingSize(config, n, msgType, supplied, SOH)
    {
      SizeIgnoresTime(config, n, msgType, time, supplied, SOH);
    }
  }

  lemma EpochIsTimestamp()
    ensures IsTimestamp(EPOCH)
  {
  }

  // ----- which rule answers -----

  /** The type a message is sent with: the supplied one when it comes first, else the default. */
  function TypeOr(supplied: seq<Field>, default: bytes): bytes {
    if supplied != [] && supplied[0].tag == 35 then supplied[0].value else default
  }

  /** The rule's first field is found in the message, and the rest makes a reply of at most 4096 bytes. */
  ghost predicate CanAnswer(config: SessionConfig, n: int, rule: seq<Field>, message: seq<Field>) {
    && rule != []
    && FieldOf(message, rule[0].tag) == Some(rule[0].value)
    && !Exceeds(config, n, TypeOr(rule[1..], "8"), rule[1..])
  }

  /** Every field of the step is found in the message. */
  predicate Fulfils(message: seq<Field>, step: ScenarioStep) {
    forall i :: 0 <= i < |step.fields| ==> FieldOf(message, step.fields[i].tag) == Some(step.fields[i].value)
  }

  lemma AnswersMeans(config: SessionConfig, n: int, rule: ScenarioStep, message: seq<Field>)
    ensures Answers(config, n, rule, message) <==> CanAnswer(config, n, rule.fields, message)
  {
    hide Exceeds, TooLong, FieldOf;
    if rule.fields != [] {
      TooLongMeans(config, n, ReplyType(rule), rule.fields[1..]);
      assert ReplyType(rule) == TypeOr(rule.fields[1..], "8");
    }
  }

  /** Rule j is the first of the rules that can answer. */
  ghost predicate AnswersFirst(config: SessionConfig, n: int, rules: seq<ScenarioStep>, message: seq<Field>, j: nat) {
    && j < |rules| && CanAnswer(config, n, rules[j].fields, message)
    && forall i :: 0 <= i < j ==> !CanAnswer(config, n, rules[i].fields, message)
  }

  ghost predicate NoneAnswers(config: SessionConfig, n: int, rules: seq<ScenarioStep>, message: seq<Field>) {
    forall i :: 0 <= i < |rules| ==> !CanAnswer(config, n, rules[i].fields, message)
  }

  lemma FirstAnswerMeans(config: SessionConfig, n: int, rules: seq<ScenarioStep>, message: seq<Field>)
    ensures var r := FirstAnswer(config, n, rules, message);
            && (r.None? <==> NoneAnswers(config, n, rules, message))
            && forall j: nat :: r == Some(j) <==> AnswersFirst(config, n, rules, message, j)
  {
    hide CanAnswer, Answers, FirstAnswer;
    forall i | 0 <= i < |rules|
      ensures Answers(config, n, rules[i], message) <==> CanAnswer(config, n, rules[i].fields, message)
    {
      AnswersMeans(config, n, rules[i], message);
    }
    if NoneAnswers(config, n, rules, message) {
      FirstAnswerIs(config, n, rules, message, |rules|);
    } else {
      var i :| 0 <= i < |rules| && CanAnswer(config, n, rules[i].fields, message);
      var first := LeastAnswer(config, n, rules, message, i);
      FirstAnswerIs(config, n, rules, message, first);
    }
  }

  lemma {:induction false} LeastAnswer(config: SessionConfig, n: int, rules: seq<ScenarioStep>, message: seq<Field>,
                                       i: nat)
    returns (first: nat)
    requires i < |rules| && CanAnswer(config, n, rules[i].fields, message)
    ensures AnswersFirst(config, n, rules, message, first)
  {
    hide CanAnswer;
    if j :| 0 <= j < i && CanAnswer(config, n, rules[j].fields, message) {
      first := LeastAnswer(config, n, rules, message, j);
    } else {
      first := i;
    }
  }

  /**
   A message is passed over: it lacks a field of the step, and a rule answers
   it, or it is of type 0 or 1 and none can.
   */
  ghost predicate IsPassed(config: SessionConfig, n: int, step: ScenarioStep, m: Inspected, rules: seq<ScenarioStep>) {
    && !Fulfils(m.fields, step)
    && match m.verdict
       case Matched => false
       case Mocked(j) => AnswersFirst(config, n, rules, m.fields, j)
       case Ignored =>
         && NoneAnswers(config, n, rules, m.fields)
         && (FieldOf(m.fields, 35) == Some("0") || FieldOf(m.fields, 35) == Some("1"))
  }

  lemma PassesMean(config: SessionConfig, n: int, step: ScenarioStep, m: Inspected, rules: seq<ScenarioStep>)
    ensures Passes(config, n, step, m, rules) <==> IsPassed(config, n, step, m, rules)
  {
    hide AnswersFirst, NoneAnswers, FirstAnswer, FieldOf;
    FirstAnswerMeans(config, n, rules, m.fields);
  }

  /** Message i of a run was the match of EXPECT step k, or was passed over by it with the number due. */
  ghost predicate Explained(config: SessionConfig, first: int, steps: seq<ScenarioStep>, deeds: seq<Deed>,
                            initial: seq<ScenarioStep>, k: nat, i: nat)
    requires i < |LookedAt(deeds)| && k < |steps| == |deeds|
  {
    var m := LookedAt(deeds)[i];
    var n := first + |Those(steps[..k], Send)| + Replies(LookedAt(deeds)[..i]);
    && steps[k].action == Expect
    && if i == |LookedAt(deeds[..k + 1])| - 1 then Fulfils(m.fields, steps[k])
       else IsPassed(config, n, steps[k], m, initial + Those(steps[..k], Mock))
  }

  lemma {:induction false} SendCountIs(steps: seq<ScenarioStep>)
    ensures SendCount(steps) == |Those(steps, Send)|
  {
    if steps != [] {
      SendCountIs(steps[..|steps| - 1]);
    }
  }

  /** Every message of a run is explained. */
  lemma MessagesAreExplained(config: SessionConfig, first: int, steps: seq<ScenarioStep>, deeds: seq<Deed>,
                             initial: seq<ScenarioStep>, i: nat) returns (k: nat)
    requires Done(config, first, steps, deeds, initial) && i < |LookedAt(deeds)|
    ensures k < |steps| == |deeds| && Explained(config, first, steps, deeds, initial, k, i)
  {
    hide Done, Those, MocksAfter, LookedAt, Replies, SendCount, FieldOf, IsPassed, Passes;
    k := EveryMessageIsAccountedFor(config, first, steps, deeds, initial, i);
    SendCountIs(steps[..k]);
    RulesInForce(initial, steps[..k]);
    PassesMean(config, first + SendCount(steps[..k]) + Replies(LookedAt(deeds)[..i]), steps[k], LookedAt(deeds)[i],
               initial + Those(steps[..k], Mock));
  }

  // ----- what the peer reads -----

  /** The attempt reads as the message numbered n made of the supplied fields. */
  ghost predicate Says(a: Attempt, config: SessionConfig, n: int, supplied: seq<Field>, default: bytes) {
    IsTimestamp(a.time) && ReadsAs(a.data, config, n, TypeOr(supplied, default), a.time, supplied)
  }

  lemma HandedOutReadsAs(config: SessionConfig, first: int, attempts: seq<Attempt>, steps: seq<ScenarioStep>,
                         mocks: seq<ScenarioStep>, k: nat)
    requires HandedOut(config, first, steps, mocks, attempts) && CleanScenario(config, steps, mocks)
    requires k < |attempts|
    ensures var a := attempts[k];
            IsTimestamp(a.time) && ReadsAs(a.data, config, first + k, a.msgType, a.time, a.extra)
  {
    hide Wire, Writable, Sendable, CleanScenario, Originates, ReadsAs, IsTimestamp;
    var a := attempts[k];
    assert a in attempts && Composed(config, first + k, a);
    AttemptIsSendable(config, steps, mocks, a);
    SizeIgnoresTime(config, first + k, a.msgType, a.time, a.extra, SOH);
    SendableIsWritable(config, first + k, a.msgType, a.time, a.extra, SOH);
    OutgoingReadsAs(config, first + k, a.msgType, a.time, a.extra);
  }

  /** The reply to a message passed over comes from the rule that answers it. */
  lemma {:induction false} ReplyTo(config: SessionConfig, n: int, step: ScenarioStep, looked: seq<Inspected>,
                                   sent: seq<Attempt>, mocks: seq<ScenarioStep>, i: nat)
    requires PassesOver(config, n, step, looked, sent, mocks)
    requires i < |looked| && looked[i].verdict.Mocked?
    ensures var q := Replies(looked[..i]);
            q < |sent| && looked[i].verdict.rule < |mocks| && IsReply(sent[q], mocks[looked[i].verdict.rule])
    decreases |looked|
  {
    hide Composed, IsReply, FirstAnswer, MatchesFields, Replies;
    var last := |looked| - 1;
    var front := looked[..last];
    if i < last {
      var before := if looked[last].verdict.Mocked? then sent[..|sent| - 1] else sent;
      ReplyTo(config, n, step, front, before, mocks, i);
      assert front[..i] == looked[..i];
    } else {
      PassedAt(config, n, step, front, sent[..|sent| - 1], mocks);
    }
  }

  /** What an attempt says: the fields of a SEND step, or what follows the trigger of a rule in force. */
  ghost predicate SaysItsSource(config: SessionConfig, first: int, steps: seq<ScenarioStep>, deeds: seq<Deed>,
                                initial: seq<ScenarioStep>, n: nat, k: nat, i: nat)
    requires n < |SentBy(deeds)| && k < |steps| == |deeds|
  {
    var a := SentBy(deeds)[n];
    || (&& steps[k].action == Send && n == |SentBy(deeds[..k])| && steps[k].fields != []
        && Says(a, config, first + n, steps[k].fields, "0"))
    || (&& steps[k].action == Expect && i < |deeds[k].looked| && deeds[k].looked[i].verdict.Mocked?
        && n == |SentBy(deeds[..k])| + Replies(deeds[k].looked[..i])
        && var rules, j := initial + Those(steps[..k], Mock), deeds[k].looked[i].verdict.rule;
           j < |rules| && rules[j].fields != [] && Says(a, config, first + n, rules[j].fields[1..], "8"))
  }

  lemma SendTypeMeans(step: ScenarioStep, a: Attempt)
    requires IsSend(a, step)
    ensures step.fields != [] && a.extra == step.fields && a.msgType == TypeOr(step.fields, "0")
  {
  }

  lemma ReplyTypeMeans(rule: ScenarioStep, a: Attempt)
    requires IsReply(a, rule)
    ensures rule.fields != [] && a.extra == rule.fields[1..] && a.msgType == TypeOr(rule.fields[1..], "8")
  {
  }

  /** Every attempt of a run says what its SEND step or its rule supplies, under the number due. */
  lemma AttemptsSayTheirSource(config: SessionConfig, first: int, steps: seq<ScenarioStep>, deeds: seq<Deed>,
                               initial: seq<ScenarioStep>, n: nat) returns (k: nat, i: nat)
    requires Done(config, first, steps, deeds, initial) && CleanScenario(config, steps, MocksAfter(initial, steps))
    requires n < |SentBy(deeds)|
    ensures k < |steps| == |deeds| && SaysItsSource(config, first, steps, deeds, initial, n, k, i)
  {
    hide Done, StepDone, MocksAfter, SentBy, Replies, HandedOut, CleanScenario, IsSend, IsReply, ReadsAs, IsTimestamp,
         Those;
    k, i := EveryAttemptIsAccountedFor(config, first, steps, deeds, initial, n);
    var a := SentBy(deeds)[n];
    DoneHandedOut(config, first, steps, deeds, initial);
    HandedOutReadsAs(config, first, SentBy(deeds), steps, MocksAfter(initial, steps), n);
    DoneAt(config, first, steps, deeds, initial, k);
    if steps[k].action == Send {
      SendTypeMeans(steps[k], a);
    } else {
      PartOf(deeds, k);
      RulesInForce(initial, steps[..k]);
      StepReplies(config, first + |SentBy(deeds[..k])|, steps[k], deeds[k], MocksAfter(initial, steps[..k]), i);
      var q := Replies(deeds[k].looked[..i]);
      assert a == deeds[k].sent[q];
      ReplyTypeMeans(MocksAfter(initial, steps[..k])[deeds[k].looked[i].verdict.rule], a);
    }
  }

  lemma StepReplies(config: SessionConfig, n: int, step: ScenarioStep, d: Deed, mocks: seq<ScenarioStep>, i: nat)
    requires StepDone(config, n, step, d, mocks) && step.action == Expect
    requires i < |d.looked| && d.looked[i].verdict.Mocked?
    ensures var q := Replies(d.looked[..i]);
            q < |d.sent| && d.looked[i].verdict.rule < |mocks| && IsReply(d.sent[q], mocks[d.looked[i].verdict.rule])
  {
    hide PassesOver, IsReply, MatchesFields, Replies;
    var passed := d.looked[..|d.looked| - 1];
    ReplyTo(config, n, step, passed, d.sent, mocks, i);
    assert passed[..i] == d.looked[..i];
  }

  // ----- why a run ends -----

  /** The reason that a step's kind, its message and the culprit call for. */
  ghost predicate RightReason(error: RunError, config: SessionConfig, n: int, step: ScenarioStep, d: Deed,
                              rules: seq<ScenarioStep>, s: SessionState, culprit: Option<Inspected>)
  {
    match step.action
    case Connect => error == ConnectionFailed && d == Deed([], [], [Refused])
    case Send =>
      if step.fields == [] then false
      else if Exceeds(config, n, TypeOr(step.fields, "0"), step.fields) then
        error == SerializationFailed && d == NOTHING
      else error == SendFailed && |d.sent| == 1 && !d.sent[0].ok
    case Expect =>
      if culprit.None? then error == TimedOut
      else CulpritReason(error, config, n + |d.sent|, step, culprit.value, rules, s)
    case _ => false
  }

  ghost predicate CulpritReason(error: RunError, config: SessionConfig, n: int, step: ScenarioStep, m: Inspected,
                                rules: seq<ScenarioStep>, s: SessionState)
  {
    match Parsing(m.raw, SOH)
    case Err(e) => error == ParseFailed(e)
    case Ok(fields) =>
      if Receive(s, ReadIncoming(fields)).result.action == SessionAction.Disconnect then error == SessionDisconnected
      else
        && error == FieldsMismatch
        && !Fulfils(fields, step)
        && NoneAnswers(config, n, rules, fields)
        && FieldOf(fields, 35) != Some("0") && FieldOf(fields, 35) != Some("1")
  }

  /** A step fails for the reason its kind, its message and the culprit call for. */
  lemma FailureMeans(error: RunError, config: SessionConfig, n: int, step: ScenarioStep, d: Deed,
                     mocks: seq<ScenarioStep>, s: SessionState, culprit: Option<Inspected>)
    requires StepFails(error, config, n, step, d, mocks, s, culprit)
    ensures RightReason(error, config, n, step, d, mocks, s, culprit)
  {
    hide Rejects, PassesOver, TooLong, Exceeds, CulpritReason;
    if step.action == Send && step.fields != [] {
      TooLongMeans(config, n, SendType(step), step.fields);
    }
    if step.action == Expect && culprit.Some? {
      CulpritMeans(error, config, n + |d.sent|, step, culprit.value, mocks, s);
    }
  }

  lemma CulpritMeans(error: RunError, config: SessionConfig, n: int, step: ScenarioStep, m: Inspected,
                     mocks: seq<ScenarioStep>, s: SessionState)
    requires Rejects(error, config, n, step, m, mocks, s)
    ensures CulpritReason(error, config, n, step, m, mocks, s)
  {
    hide Parsing, Receive, ReadIncoming, FieldOf, FirstAnswer, NoneAnswers;
    FirstAnswerMeans(config, n, mocks, m.fields);
  }

  // ----- what the session hears -----

  function FieldsOf(log: seq<Inspected>): seq<seq<Field>> {
    seq(|log|, i requires 0 <= i < |log| => log[i].fields)
  }

  /** The session after a run stands where the messages looked at bring it, each heard once and in order. */
  lemma {:induction false} SessionHearsAll(s: SessionState, log: seq<Inspected>)
    ensures AfterLog(s, log) == After(s, FieldsOf(log))
  {
    hide Receive, ReadIncoming;
    if log != [] {
      var n := |log| - 1;
      SessionHearsAll(s, log[..n]);
      assert FieldsOf(log)[..n] == FieldsOf(log[..n]);
    }
  }
}
