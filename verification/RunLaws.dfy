/**
 What the history of a scenario run means: the numbers on the wire, and the
 messages each EXPECT step was given.
 */
module RunLaws {
  import opened Bytes
  import opened Codec
  import opened CodecLaws
  import opened Session
  import opened Outgoing
  import opened Scenario
  import opened History

  // ----- where attempts come from -----

  /** The attempts carry consecutive numbers, beginning with the given one. */
  ghost predicate Numbered(config: SessionConfig, first: int, attempts: seq<Attempt>) {
    forall k :: 0 <= k < |attempts| ==> Composed(config, first + k, attempts[k])
  }

  /** An attempt is the message of a SEND step or the reply of a mock rule. */
  ghost predicate Originates(a: Attempt, steps: seq<ScenarioStep>, mocks: seq<ScenarioStep>) {
    || (exists s :: s in steps && IsSend(a, s))
    || (exists r :: r in mocks && IsReply(a, r))
  }

  /** Attempts of a scenario, numbered consecutively. */
  ghost predicate HandedOut(config: SessionConfig, first: int, steps: seq<ScenarioStep>, mocks: seq<ScenarioStep>,
                            attempts: seq<Attempt>) {
    && Numbered(config, first, attempts)
    && forall a :: a in attempts ==> Originates(a, steps, mocks)
  }

  lemma NothingHandedOut(config: SessionConfig, first: int, steps: seq<ScenarioStep>, mocks: seq<ScenarioStep>)
    ensures HandedOut(config, first, steps, mocks, [])
  {
  }

  lemma HandedOutMore(config: SessionConfig, first: int, steps: seq<ScenarioStep>, mocks: seq<ScenarioStep>,
                      allSteps: seq<ScenarioStep>, allMocks: seq<ScenarioStep>, a: seq<Attempt>, b: seq<Attempt>)
    requires HandedOut(config, first, steps, mocks, a)
    requires HandedOut(config, first + |a|, allSteps, allMocks, b)
    requires steps <= allSteps && mocks <= allMocks
    ensures HandedOut(config, first, allSteps, allMocks, a + b)
  {
    hide Composed, IsSend, IsReply;
    forall k | 0 <= k < |a + b|
      ensures Composed(config, first + k, (a + b)[k])
    {
      if k >= |a| {
        assert Composed(config, first + |a| + (k - |a|), b[k - |a|]);
      }
    }
    forall x | x in a + b
      ensures Originates(x, allSteps, allMocks)
    {
      if x in a {
        OriginatesMore(x, steps, mocks, allSteps, allMocks);
      }
    }
  }

  lemma OriginatesMore(a: Attempt, steps: seq<ScenarioStep>, mocks: seq<ScenarioStep>, allSteps: seq<ScenarioStep>,
                       allMocks: seq<ScenarioStep>)
    requires Originates(a, steps, mocks) && steps <= allSteps && mocks <= allMocks
    ensures Originates(a, allSteps, allMocks)
  {
    hide IsSend, IsReply;
    assert forall s :: s in steps ==> s in allSteps;
    assert forall r :: r in mocks ==> r in allMocks;
  }

  lemma OneHandedOut(config: SessionConfig, n: int, steps: seq<ScenarioStep>, mocks: seq<ScenarioStep>, a: Attempt)
    requires Composed(config, n, a) && Originates(a, steps, mocks)
    ensures HandedOut(config, n, steps, mocks, [a])
  {
    hide Composed, Originates;
  }

  /** The replies sent while messages are passed over. */
  lemma {:induction false} PassedHandedOut(config: SessionConfig, n: int, step: ScenarioStep, looked: seq<Inspected>,
                                           sent: seq<Attempt>, mocks: seq<ScenarioStep>)
    requires PassesOver(config, n, step, looked, sent, mocks)
    ensures HandedOut(config, n, [step], mocks, sent)
    decreases |looked|
  {
    hide HandedOut, Composed, IsReply, FirstAnswer, MatchesFields;
    if looked == [] {
      NothingHandedOut(config, n, [step], mocks);
    } else {
      var m, front := looked[|looked| - 1], looked[..|looked| - 1];
      if m.verdict.Mocked? {
        var k := |sent| - 1;
        PassedHandedOut(config, n, step, front, sent[..k], mocks);
        OneHandedOut(config, n + k, [step], mocks, sent[k]);
        HandedOutMore(config, n, [step], mocks, [step], mocks, sent[..k], [sent[k]]);
        assert sent == sent[..k] + [sent[k]];
      } else {
        PassedHandedOut(config, n, step, front, sent, mocks);
      }
    }
  }

  lemma StepHandedOut(config: SessionConfig, n: int, step: ScenarioStep, d: Deed, mocks: seq<ScenarioStep>)
    requires StepDone(config, n, step, d, mocks)
    ensures HandedOut(config, n, [step], mocks, d.sent)
  {
    hide HandedOut, PassesOver, Composed, IsSend;
    NothingHandedOut(config, n, [step], mocks);
    if step.action == Expect {
      PassedHandedOut(config, n, step, d.looked[..|d.looked| - 1], d.sent, mocks);
    } else if step.action == Send {
      OneSend(config, n, step, mocks, d.sent[0]);
      assert d.sent == [d.sent[0]];
    }
  }

  lemma OneSend(config: SessionConfig, n: int, step: ScenarioStep, mocks: seq<ScenarioStep>, a: Attempt)
    requires IsSend(a, step) && Composed(config, n, a)
    ensures HandedOut(config, n, [step], mocks, [a])
  {
    hide Composed, IsSend, HandedOut;
    assert step in [step];
    OneHandedOut(config, n, [step], mocks, a);
  }

  lemma FailureHandedOut(error: RunError, config: SessionConfig, n: int, step: ScenarioStep, d: Deed,
                         mocks: seq<ScenarioStep>, s: SessionState, culprit: Option<Inspected>)
    requires StepFails(error, config, n, step, d, mocks, s, culprit)
    ensures HandedOut(config, n, [step], mocks, d.sent)
  {
    hide HandedOut, PassesOver, Composed, IsSend, Rejects, TooLong;
    NothingHandedOut(config, n, [step], mocks);
    match error
    case ConnectionFailed =>
    case SerializationFailed =>
    case SendFailed =>
      OneSend(config, n, step, mocks, d.sent[0]);
      assert d.sent == [d.sent[0]];
    case _ =>
      PassedHandedOut(config, n, step, d.looked, d.sent, mocks);
  }

  lemma {:induction false} MocksGrow(initial: seq<ScenarioStep>, steps: seq<ScenarioStep>, i: nat)
    requires i <= |steps|
    ensures MocksAfter(initial, steps[..i]) <= MocksAfter(initial, steps)
    decreases |steps| - i
  {
    if i < |steps| {
      MocksNext(initial, steps, i);
      MocksGrow(initial, steps, i + 1);
    } else {
      assert steps[..i] == steps;
    }
  }

  /** One more step hands out more. */
  lemma HandedOutStep(config: SessionConfig, first: int, steps: seq<ScenarioStep>, initial: seq<ScenarioStep>, k: nat,
                      before: seq<Attempt>, sent: seq<Attempt>)
    requires k < |steps|
    requires HandedOut(config, first, steps[..k], MocksAfter(initial, steps[..k]), before)
    requires HandedOut(config, first + |before|, [steps[k]], MocksAfter(initial, steps[..k]), sent)
    ensures HandedOut(config, first, steps[..k + 1], MocksAfter(initial, steps[..k + 1]), before + sent)
  {
    hide Numbered, MocksAfter, Originates;
    var mocks, step := MocksAfter(initial, steps[..k]), steps[k];
    assert steps[..k + 1] == steps[..k] + [step];
    MocksNext(initial, steps, k);
    forall a | a in sent
      ensures Originates(a, steps[..k + 1], MocksAfter(initial, steps[..k + 1]))
    {
      OriginatesAtEnd(a, steps[..k], step, mocks);
      OriginatesMore(a, steps[..k + 1], mocks, steps[..k + 1], MocksAfter(initial, steps[..k + 1]));
    }
    HandedOutMore(config, first, steps[..k], mocks, steps[..k + 1], MocksAfter(initial, steps[..k + 1]), before, sent);
  }

  lemma OriginatesAtEnd(a: Attempt, steps: seq<ScenarioStep>, step: ScenarioStep, mocks: seq<ScenarioStep>)
    requires Originates(a, [step], mocks)
    ensures Originates(a, steps + [step], mocks)
  {
    hide IsSend, IsReply;
    assert forall s :: s in [step] ==> s in steps + [step];
  }

  lemma {:induction false} DoneHandedOut(config: SessionConfig, first: int, steps: seq<ScenarioStep>, deeds: seq<Deed>,
                                         initial: seq<ScenarioStep>)
    requires Done(config, first, steps, deeds, initial)
    ensures HandedOut(config, first, steps, MocksAfter(initial, steps), SentBy(deeds))
    decreases |steps|
  {
    hide HandedOut, StepDone, MocksAfter;
    if steps == [] {
      NothingHandedOut(config, first, steps, MocksAfter(initial, steps));
    } else {
      var n := |steps| - 1;
      DoneHandedOut(config, first, steps[..n], deeds[..n], initial);
      StepHandedOut(config, first + |SentBy(deeds[..n])|, steps[n], deeds[n], MocksAfter(initial, steps[..n]));
      HandedOutStep(config, first, steps, initial, n, SentBy(deeds[..n]), deeds[n].sent);
      assert steps[..n + 1] == steps;
    }
  }

  /**
   Whatever the outcome of a run, what it handed to the connection comes from
   its scenario and is numbered consecutively.
   */
  lemma RunHandsOut(r: RunResult, config: SessionConfig, s0: SessionState, steps: seq<ScenarioStep>,
                    initial: seq<ScenarioStep>, deeds: seq<Deed>, culprit: Option<Inspected>, received: seq<bytes>,
                    buffered: bytes)
    requires Ran(r, config, s0, steps, initial, deeds, culprit, received, buffered)
    ensures HandedOut(config, s0.nextOut, steps[..r.stepsExecuted], MocksAfter(initial, steps[..r.stepsExecuted]),
                      SentBy(deeds))
  {
    hide HandedOut, Done, StepFails, MocksAfter, Accepted, Framed, SentBy, LookedAt;
    if r.error.None? {
      assert steps[..r.stepsExecuted] == steps;
      DoneHandedOut(config, s0.nextOut, steps, deeds, initial);
    } else {
      var k := r.stepsExecuted - 1;
      var front, d := deeds[..k], deeds[k];
      DoneHandedOut(config, s0.nextOut, steps[..k], front, initial);
      FailureHandedOut(r.error.value, config, s0.nextOut + |SentBy(front)|, steps[k], d,
                       MocksAfter(initial, steps[..k]), AfterLog(s0, LookedAt(deeds)), culprit);
      HandedOutStep(config, s0.nextOut, steps, initial, k, SentBy(front), d.sent);
      assert deeds == front + [d];
      DeedNext(front, d);
    }
  }

  // ----- the numbers on the wire -----

  /** What a scenario may send under a configuration: separator-free values, and few enough fields. */
  ghost predicate CleanMessage(config: SessionConfig, msgType: bytes, extra: seq<Field>) {
    Sendable(config, msgType, [], extra, SOH)
  }

  ghost predicate CleanScenario(config: SessionConfig, steps: seq<ScenarioStep>, mocks: seq<ScenarioStep>) {
    && (forall s :: s in steps && s.action == Send && s.fields != [] ==> CleanMessage(config, SendType(s), s.fields))
    && (forall r :: r in mocks && r.fields != [] ==> CleanMessage(config, ReplyType(r), r.fields[1..]))
  }

  lemma AttemptIsSendable(config: SessionConfig, steps: seq<ScenarioStep>, mocks: seq<ScenarioStep>, a: Attempt)
    requires CleanScenario(config, steps, mocks) && Originates(a, steps, mocks) && IsTimestamp(a.time)
    ensures Sendable(config, a.msgType, a.time, a.extra, SOH)
  {
    hide FreeOf, Kept, WithoutHeader, SendType, ReplyType;
    if s :| s in steps && IsSend(a, s) {
      assert CleanMessage(config, SendType(s), s.fields);
    } else {
      var r :| r in mocks && IsReply(a, r);
      assert CleanMessage(config, ReplyType(r), r.fields[1..]);
    }
  }

  /**
   The k-th message handed to the connection, by SEND steps and mock replies in
   any mix, reads back with the number first + k and the type it was given,
   whatever header, length or checksum fields the scenario supplied.
   */
  lemma OutgoingNumbering(config: SessionConfig, first: int, attempts: seq<Attempt>, steps: seq<ScenarioStep>,
                          mocks: seq<ScenarioStep>, k: nat)
    requires HandedOut(config, first, steps, mocks, attempts) && CleanScenario(config, steps, mocks)
    requires k < |attempts| && -0x8000_0000 <= first + k < 0x8000_0000
    ensures var parsed := Parsing(attempts[k].data, SOH);
            && parsed.Ok?
            && IntOf(parsed.value, 34) == Some(first + k)
            && FieldOf(parsed.value, 35) == Some(attempts[k].msgType)
  {
    hide Wire, Parsing, Writable, Sendable, FieldOf, IntOf, Canonical, CleanScenario, Originates;
    var a := attempts[k];
    assert a in attempts && Composed(config, first + k, a);
    AttemptIsSendable(config, steps, mocks, a);
    SizeIgnoresTime(config, first + k, a.msgType, a.time, a.extra, SOH);
    SendableIsWritable(config, first + k, a.msgType, a.time, a.extra, SOH);
    OutgoingReadsBack(config, first + k, a.msgType, a.time, a.extra, SOH);
  }

  // ----- counting -----

  function SendCount(steps: seq<ScenarioStep>): nat {
    if steps == [] then 0
    else SendCount(steps[..|steps| - 1]) + if steps[|steps| - 1].action == Send then 1 else 0
  }

  /** How many messages of a log were answered by a mock rule. */
  function Replies(log: seq<Inspected>): nat {
    if log == [] then 0
    else Replies(log[..|log| - 1]) + if log[|log| - 1].verdict.Mocked? then 1 else 0
  }

  lemma {:induction false} RepliesAppend(a: seq<Inspected>, b: seq<Inspected>)
    ensures Replies(a + b) == Replies(a) + Replies(b)
  {
    if b == [] {
      assert a + b == a;
    } else {
      assert (a + b)[..|a + b| - 1] == a + b[..|b| - 1];
      RepliesAppend(a, b[..|b| - 1]);
    }
  }

  lemma RepliesNext(log: seq<Inspected>)
    ensures log == [] ==> Replies(log) == 0
    ensures log != [] ==>
              var m := |log| - 1;
              Replies(log) == Replies(log[..m]) + if log[m].verdict.Mocked? then 1 else 0
  {
  }

  /** The replies sent before the last message was passed over. */
  lemma PassedBefore(config: SessionConfig, n: int, step: ScenarioStep, looked: seq<Inspected>, sent: seq<Attempt>,
                     mocks: seq<ScenarioStep>) returns (before: seq<Attempt>)
    requires PassesOver(config, n, step, looked, sent, mocks)
    ensures looked == [] ==> sent == []
    ensures looked != [] ==>
              var k := |looked| - 1;
              && PassesOver(config, n, step, looked[..k], before, mocks)
              && Passes(config, n + |before|, step, looked[k], mocks)
              && |sent| == |before| + if looked[k].verdict.Mocked? then 1 else 0
  {
    hide Passes, Composed, IsReply;
    before := if looked != [] && looked[|looked| - 1].verdict.Mocked? then sent[..|sent| - 1] else sent;
  }

  /** Each message passed over was so with the number that the replies before it left. */
  lemma {:induction false} PassedAt(config: SessionConfig, n: int, step: ScenarioStep, looked: seq<Inspected>,
                                    sent: seq<Attempt>, mocks: seq<ScenarioStep>)
    requires PassesOver(config, n, step, looked, sent, mocks)
    ensures |sent| == Replies(looked)
    ensures forall i :: 0 <= i < |looked| ==> Passes(config, n + Replies(looked[..i]), step, looked[i], mocks)
    decreases |looked|
  {
    hide Passes, Composed, IsReply, Replies, PassesOver;
    RepliesNext(looked);
    var before := PassedBefore(config, n, step, looked, sent, mocks);
    if looked != [] {
      var k := |looked| - 1;
      var front := looked[..k];
      PassedAt(config, n, step, front, before, mocks);
      forall i | 0 <= i < |looked|
        ensures Passes(config, n + Replies(looked[..i]), step, looked[i], mocks)
      {
        if i < k {
          assert front[..i] == looked[..i] && front[i] == looked[i];
        }
      }
    }
  }

  lemma StepCounts(config: SessionConfig, n: int, step: ScenarioStep, d: Deed, mocks: seq<ScenarioStep>)
    requires StepDone(config, n, step, d, mocks)
    ensures |d.sent| == Replies(d.looked) + if step.action == Send then 1 else 0
    ensures step.action != Expect ==> d.looked == []
  {
    hide PassesOver, Composed, IsSend, MatchesFields;
    if step.action == Expect {
      PassedAt(config, n, step, d.looked[..|d.looked| - 1], d.sent, mocks);
    }
  }

  /** One message for each SEND step, one for each reply, and no other. */
  lemma {:induction false} SentCount(config: SessionConfig, first: int, steps: seq<ScenarioStep>, deeds: seq<Deed>,
                                     initial: seq<ScenarioStep>)
    requires Done(config, first, steps, deeds, initial)
    ensures |SentBy(deeds)| == SendCount(steps) + Replies(LookedAt(deeds))
    decreases |steps|
  {
    hide StepDone, MocksAfter;
    if steps != [] {
      var n := |steps| - 1;
      SentCount(config, first, steps[..n], deeds[..n], initial);
      StepCounts(config, first + |SentBy(deeds[..n])|, steps[n], deeds[n], MocksAfter(initial, steps[..n]));
      RepliesAppend(LookedAt(deeds[..n]), deeds[n].looked);
    }
  }

  /** The steps and deeds up to some step, and that step's own deed. */
  lemma {:induction false} DoneAt(config: SessionConfig, first: int, steps: seq<ScenarioStep>, deeds: seq<Deed>,
                                  initial: seq<ScenarioStep>, k: nat)
    requires Done(config, first, steps, deeds, initial) && k < |steps|
    ensures |deeds| == |steps| && Done(config, first, steps[..k], deeds[..k], initial)
    ensures StepDone(config, first + |SentBy(deeds[..k])|, steps[k], deeds[k], MocksAfter(initial, steps[..k]))
    decreases |steps|
  {
    hide StepDone, MocksAfter, SentBy;
    var n := |steps| - 1;
    if k < n {
      DoneAt(config, first, steps[..n], deeds[..n], initial, k);
      assert steps[..n][..k] == steps[..k] && deeds[..n][..k] == deeds[..k];
    }
  }

  /** What a step sent and looked at comes right after what the earlier steps did. */
  lemma {:induction false} PartOf(deeds: seq<Deed>, k: nat)
    requires k < |deeds|
    ensures SentBy(deeds[..k]) + deeds[k].sent <= SentBy(deeds)
    ensures LookedAt(deeds[..k]) + deeds[k].looked == LookedAt(deeds[..k + 1]) <= LookedAt(deeds)
    decreases |deeds|
  {
    var n := |deeds| - 1;
    assert deeds[..k + 1][..k] == deeds[..k];
    if k < n {
      PartOf(deeds[..n], k);
      assert deeds[..n][..k] == deeds[..k] && deeds[..n][..k + 1] == deeds[..k + 1];
    } else {
      assert deeds[..k + 1] == deeds;
    }
  }

  /** The n-th attempt was the step's, was taken, and reads back with the n-th number and the step's type. */
  ghost predicate WentOut(step: ScenarioStep, first: int, attempts: seq<Attempt>, n: nat) {
    && n < |attempts| && attempts[n].ok && IsSend(attempts[n], step)
    && var parsed := Parsing(attempts[n].data, SOH);
       && parsed.Ok?
       && IntOf(parsed.value, 34) == Some(first + n)
       && FieldOf(parsed.value, 35) == Some(SendType(step))
  }

  /**
   The message of a SEND step goes out after one message for each earlier SEND
   step and one for each earlier mock reply, and its number says so.
   */
  lemma SendStepNumber(config: SessionConfig, first: int, steps: seq<ScenarioStep>, deeds: seq<Deed>,
                       initial: seq<ScenarioStep>, k: nat)
    requires Done(config, first, steps, deeds, initial)
    requires CleanScenario(config, steps, MocksAfter(initial, steps))
    requires k < |steps| && steps[k].action == Send
    requires -0x8000_0000 <= first && first + |SentBy(deeds)| <= 0x8000_0000
    ensures WentOut(steps[k], first, SentBy(deeds), SendCount(steps[..k]) + Replies(LookedAt(deeds[..k])))
  {
    hide Done, HandedOut, CleanScenario, Parsing, IntOf, FieldOf, Replies, SendCount, MocksAfter, SentBy, LookedAt,
         Composed;
    DoneAt(config, first, steps, deeds, initial, k);
    SentCount(config, first, steps[..k], deeds[..k], initial);
    PartOf(deeds, k);
    var n := |SentBy(deeds[..k])|;
    assert SentBy(deeds)[n] == deeds[k].sent[0];
    DoneHandedOut(config, first, steps, deeds, initial);
    OutgoingNumbering(config, first, SentBy(deeds), steps, MocksAfter(initial, steps), n);
  }

  // ----- the messages looked at -----

  /** An EXPECT step is given the first message, from where it begins to look, that matches it. */
  lemma ExpectationIsFirstMatch(config: SessionConfig, first: int, steps: seq<ScenarioStep>, deeds: seq<Deed>,
                                initial: seq<ScenarioStep>, k: nat)
    requires Done(config, first, steps, deeds, initial) && |deeds| == |steps|
    requires k < |steps| && steps[k].action == Expect
    ensures var log, start, end := LookedAt(deeds), |LookedAt(deeds[..k])|, |LookedAt(deeds[..k + 1])|;
            && start < end <= |log|
            && MatchesFields(log[end - 1].fields, steps[k].fields)
            && forall i :: start <= i < end - 1 ==> !MatchesFields(log[i].fields, steps[k].fields)
  {
    hide Done, MatchesFields, PassesOver, Composed, SentBy, LookedAt, FirstAnswer, IsHeartbeat;
    DoneAt(config, first, steps, deeds, initial, k);
    PartOf(deeds, k);
    var log, start, d := LookedAt(deeds), |LookedAt(deeds[..k])|, deeds[k];
    var last := |d.looked| - 1;
    assert forall i :: 0 <= i <= last ==> log[start + i] == d.looked[i];
    var passed := d.looked[..last];
    PassedAt(config, first + |SentBy(deeds[..k])|, steps[k], passed, d.sent, MocksAfter(initial, steps[..k]));
    forall i | start <= i < start + last
      ensures !MatchesFields(log[i].fields, steps[k].fields)
    {
      assert log[i] == passed[i - start];
    }
  }

  /** Earlier EXPECT steps are given earlier messages. */
  lemma {:induction false} ExpectationsAreOrdered(config: SessionConfig, first: int, steps: seq<ScenarioStep>,
                                                  deeds: seq<Deed>, initial: seq<ScenarioStep>, j: nat, k: nat)
    requires Done(config, first, steps, deeds, initial) && |deeds| == |steps|
    requires j < k < |steps| && steps[j].action == Expect && steps[k].action == Expect
    ensures 0 < |LookedAt(deeds[..j + 1])| < |LookedAt(deeds[..k + 1])| <= |LookedAt(deeds)|
    decreases k - j
  {
    hide Done, MatchesFields, LookedAt;
    ExpectationIsFirstMatch(config, first, steps, deeds, initial, j);
    ExpectationIsFirstMatch(config, first, steps, deeds, initial, k);
    PartOf(deeds[..k], j);
    assert deeds[..k][..j + 1] == deeds[..j + 1];
  }

  /** The message is the match of step k, or the step passes over it with the number due at that moment. */
  ghost predicate Accounted(config: SessionConfig, first: int, steps: seq<ScenarioStep>, deeds: seq<Deed>,
                            initial: seq<ScenarioStep>, k: nat, i: nat)
    requires i < |LookedAt(deeds)| && k < |steps| == |deeds|
  {
    var m, n := LookedAt(deeds)[i], first + SendCount(steps[..k]) + Replies(LookedAt(deeds)[..i]);
    && steps[k].action == Expect
    && |LookedAt(deeds[..k])| <= i < |LookedAt(deeds[..k + 1])|
    && if i == |LookedAt(deeds[..k + 1])| - 1 then MatchesFields(m.fields, steps[k].fields)
       else Passes(config, n, steps[k], m, MocksAfter(initial, steps[..k]))
  }

  /** Every message looked at either is the one an EXPECT step was given, or was rightly passed over. */
  lemma {:induction false} EveryMessageIsAccountedFor(config: SessionConfig, first: int, steps: seq<ScenarioStep>,
                                                      deeds: seq<Deed>, initial: seq<ScenarioStep>, i: nat)
    returns (k: nat)
    requires Done(config, first, steps, deeds, initial) && i < |LookedAt(deeds)|
    ensures k < |steps| == |deeds| && Accounted(config, first, steps, deeds, initial, k, i)
  {
    hide Done, StepDone, Accounted, MocksAfter, SendCount, Replies;
    k := StepLookingAt(deeds, i);
    DoneAtLast(config, first, steps, deeds, initial);
    DoneAt(config, first, steps, deeds, initial, k);
    MessageInStep(config, first, steps, deeds, initial, k, i);
  }

  lemma DoneAtLast(config: SessionConfig, first: int, steps: seq<ScenarioStep>, deeds: seq<Deed>,
                   initial: seq<ScenarioStep>)
    requires Done(config, first, steps, deeds, initial)
    ensures |deeds| == |steps|
  {
    hide StepDone;
  }

  /** The step that looked at a message. */
  lemma {:induction false} StepLookingAt(deeds: seq<Deed>, i: nat) returns (k: nat)
    requires i < |LookedAt(deeds)|
    ensures k < |deeds| && |LookedAt(deeds[..k])| <= i < |LookedAt(deeds[..k + 1])|
  {
    var n := |deeds| - 1;
    if i < |LookedAt(deeds[..n])| {
      k := StepLookingAt(deeds[..n], i);
      assert deeds[..n][..k] == deeds[..k] && deeds[..n][..k + 1] == deeds[..k + 1];
    } else {
      k := n;
      assert deeds[..n + 1] == deeds;
    }
  }

  lemma MessageInStep(config: SessionConfig, first: int, steps: seq<ScenarioStep>, deeds: seq<Deed>,
                      initial: seq<ScenarioStep>, k: nat, i: nat)
    requires k < |steps| == |deeds| && i < |LookedAt(deeds)|
    requires |LookedAt(deeds[..k])| <= i < |LookedAt(deeds[..k + 1])|
    requires Done(config, first, steps[..k], deeds[..k], initial)
    requires StepDone(config, first + |SentBy(deeds[..k])|, steps[k], deeds[k], MocksAfter(initial, steps[..k]))
    ensures Accounted(config, first, steps, deeds, initial, k, i)
  {
    hide Done, MatchesFields, PassesOver, Composed, SentBy, LookedAt, MocksAfter, SendCount, Replies, Passes;
    PartOf(deeds, k);
    var front, d, n := LookedAt(deeds[..k]), deeds[k], first + |SentBy(deeds[..k])|;
    var log, j, last := LookedAt(deeds), i - |LookedAt(deeds[..k])|, |deeds[k].looked| - 1;
    assert log[i] == (front + d.looked)[i] == d.looked[j];
    StepCounts(config, n, steps[k], d, MocksAfter(initial, steps[..k]));
    SentCount(config, first, steps[..k], deeds[..k], initial);
    if j < last {
      var passed := d.looked[..last];
      PassedAt(config, n, steps[k], passed, d.sent, MocksAfter(initial, steps[..k]));
      assert passed[j] == d.looked[j];
      assert log[..i] == (front + d.looked)[..i] == front + passed[..j];
      RepliesAppend(front, passed[..j]);
    }
  }

  /** Nothing else went out: every attempt is the message of a SEND step or the reply to one message looked at. */
  lemma {:induction false} EveryAttemptIsAccountedFor(config: SessionConfig, first: int, steps: seq<ScenarioStep>,
                                                      deeds: seq<Deed>, initial: seq<ScenarioStep>, n: nat)
    returns (k: nat, i: nat)
    requires Done(config, first, steps, deeds, initial) && n < |SentBy(deeds)|
    ensures k < |steps| == |deeds|
    ensures || (steps[k].action == Send && n == |SentBy(deeds[..k])| && IsSend(SentBy(deeds)[n], steps[k]))
            || (&& steps[k].action == Expect && i < |deeds[k].looked| && deeds[k].looked[i].verdict.Mocked?
                && n == |SentBy(deeds[..k])| + Replies(deeds[k].looked[..i]))
    decreases |steps|
  {
    hide Done, StepDone, IsSend, MocksAfter, Replies, SentBy;
    DoneAtLast(config, first, steps, deeds, initial);
    k := StepSending(deeds, n);
    DoneAt(config, first, steps, deeds, initial, k);
    PartOf(deeds, k);
    var from := |SentBy(deeds[..k])|;
    assert SentBy(deeds)[n] == deeds[k].sent[n - from];
    i := SentInStep(config, first + from, steps[k], deeds[k], MocksAfter(initial, steps[..k]), n - from);
  }

  /** The step that sent an attempt. */
  lemma {:induction false} StepSending(deeds: seq<Deed>, n: nat) returns (k: nat)
    requires n < |SentBy(deeds)|
    ensures k < |deeds| && |SentBy(deeds[..k])| <= n < |SentBy(deeds[..k])| + |deeds[k].sent|
  {
    var last := |deeds| - 1;
    if n < |SentBy(deeds[..last])| {
      k := StepSending(deeds[..last], n);
      assert deeds[..last][..k] == deeds[..k];
    } else {
      k := last;
    }
  }

  lemma SentInStep(config: SessionConfig, first: int, step: ScenarioStep, d: Deed, mocks: seq<ScenarioStep>, n: nat)
    returns (i: nat)
    requires StepDone(config, first, step, d, mocks) && n < |d.sent|
    ensures || (step.action == Send && n == 0 && IsSend(d.sent[n], step))
            || (&& step.action == Expect && i < |d.looked| && d.looked[i].verdict.Mocked?
                && n == Replies(d.looked[..i]))
  {
    hide PassesOver, Composed, IsSend, MatchesFields, Replies;
    i := 0;
    if step.action == Expect {
      var passed := d.looked[..|d.looked| - 1];
      PassedAt(config, first, step, passed, d.sent, mocks);
      i := ReplyAt(passed, n);
      assert passed[..i] == d.looked[..i];
    }
  }

  /** The message that got the n-th reply. */
  lemma {:induction false} ReplyAt(log: seq<Inspected>, n: nat) returns (i: nat)
    requires n < Replies(log)
    ensures i < |log| && log[i].verdict.Mocked? && Replies(log[..i]) == n
    decreases |log|
  {
    var m := |log| - 1;
    if n < Replies(log[..m]) {
      i := ReplyAt(log[..m], n);
      assert log[..m][..i] == log[..i];
    } else {
      i := m;
    }
  }

  // ----- when the numbers on the wire have no hole -----

  /** The positions of the attempts that the connection took. */
  function Taken(attempts: seq<Attempt>): (t: seq<nat>)
    ensures forall k :: 0 <= k < |t| ==> t[k] < |attempts| && attempts[t[k]].ok
    ensures forall i, k :: 0 <= i < k < |t| ==> t[i] < t[k]
    ensures forall i :: 0 <= i < |attempts| && attempts[i].ok ==> i in t
  {
    if attempts == [] then []
    else
      var n := |attempts| - 1;
      Taken(attempts[..n]) + if attempts[n].ok then [n] else []
  }

  /** No refused attempt precedes one that was taken. */
  ghost predicate RefusedLast(attempts: seq<Attempt>) {
    forall i, j :: 0 <= i < j < |attempts| && attempts[j].ok ==> attempts[i].ok
  }

  lemma TakenNext(attempts: seq<Attempt>)
    ensures attempts == [] ==> Taken(attempts) == []
    ensures attempts != [] ==>
              var n := |attempts| - 1;
              Taken(attempts) == Taken(attempts[..n]) + if attempts[n].ok then [n] else []
  {
  }

  lemma {:induction false} TakenIsDense(attempts: seq<Attempt>)
    requires RefusedLast(attempts)
    ensures forall k :: 0 <= k < |Taken(attempts)| ==> Taken(attempts)[k] == k
    ensures (forall i :: 0 <= i < |attempts| ==> attempts[i].ok) ==> |Taken(attempts)| == |attempts|
  {
    hide Taken;
    TakenNext(attempts);
    if attempts != [] {
      var n := |attempts| - 1;
      var front := attempts[..n];
      assert forall i :: 0 <= i < n ==> front[i] == attempts[i];
      assert RefusedLast(front);
      TakenIsDense(front);
    }
  }

  lemma DenseIsRefusedLast(attempts: seq<Attempt>)
    requires forall k :: 0 <= k < |Taken(attempts)| ==> Taken(attempts)[k] == k
    ensures RefusedLast(attempts)
  {
    hide Taken;
    var t := Taken(attempts);
    forall i, j | 0 <= i < j < |attempts| && attempts[j].ok
      ensures attempts[i].ok
    {
      assert j in t && t[j] == j;
      assert t[i] == i;
    }
  }

  /** A receiver reads the number n from the message. */
  ghost predicate Bears(data: bytes, n: int) {
    var parsed := Parsing(data, SOH);
    parsed.Ok? && IntOf(parsed.value, 34).Some? && IntOf(parsed.value, 34).value == n
  }

  lemma BearsOnce(data: bytes, n: int, m: int)
    requires Bears(data, n) && Bears(data, m)
    ensures n == m
  {
  }

  /** The messages the peer gets are numbered without a hole. */
  ghost predicate GapFree(first: int, attempts: seq<Attempt>) {
    forall k :: 0 <= k < |Taken(attempts)| ==> Bears(attempts[Taken(attempts)[k]].data, first + k)
  }

  lemma GapFreeIsDense(first: int, attempts: seq<Attempt>)
    requires forall i :: 0 <= i < |attempts| ==> Bears(attempts[i].data, first + i)
    requires GapFree(first, attempts)
    ensures forall k :: 0 <= k < |Taken(attempts)| ==> Taken(attempts)[k] == k
  {
    hide Bears, Taken;
    var t := Taken(attempts);
    forall k | 0 <= k < |t|
      ensures t[k] == k
    {
      BearsOnce(attempts[t[k]].data, first + k, first + t[k]);
    }
  }

  lemma DenseIsGapFree(first: int, attempts: seq<Attempt>)
    requires forall i :: 0 <= i < |attempts| ==> Bears(attempts[i].data, first + i)
    requires forall k :: 0 <= k < |Taken(attempts)| ==> Taken(attempts)[k] == k
    ensures GapFree(first, attempts)
  {
    hide Bears, Taken;
    var t := Taken(attempts);
    forall k | 0 <= k < |t|
      ensures Bears(attempts[t[k]].data, first + k)
    {
      assert t[k] == k && Bears(attempts[k].data, first + k);
    }
  }

  /**
   Since a mock reply counts even when the connection refuses it, what the peer
   gets is numbered without a hole exactly when no refused attempt precedes one
   that was taken.
   */
  lemma WireIsGapFree(config: SessionConfig, first: int, attempts: seq<Attempt>, steps: seq<ScenarioStep>,
                      mocks: seq<ScenarioStep>)
    requires HandedOut(config, first, steps, mocks, attempts) && CleanScenario(config, steps, mocks)
    requires -0x8000_0000 <= first && first + |attempts| <= 0x8000_0000
    ensures GapFree(first, attempts) <==> RefusedLast(attempts)
  {
    hide HandedOut, CleanScenario, Parsing, IntOf, FieldOf, Taken, RefusedLast, GapFree;
    forall i | 0 <= i < |attempts|
      ensures Bears(attempts[i].data, first + i)
    {
      OutgoingNumbering(config, first, attempts, steps, mocks, i);
    }
    if RefusedLast(attempts) {
      TakenIsDense(attempts);
      DenseIsGapFree(first, attempts);
    }
    if GapFree(first, attempts) {
      GapFreeIsDense(first, attempts);
      DenseIsRefusedLast(attempts);
    }
  }

  // ----- a hole -----

  const ANY_CONFIG := SessionConfig("FIX.4.2", "A", "B")
  const FILL_RULE := ScenarioStep(Mock, [Field(35, "D"), Field(35, "8")])

  /** The rule's reply numbered n, taken or refused. */
  function FillReply(n: int, ok: bool): Attempt {
    var extra := FILL_RULE.fields[1..];
    Attempt(Wire(OutgoingFields(ANY_CONFIG, n, "8", EPOCH, extra), SOH), "8", EPOCH, extra, ok)
  }

  lemma FillReplyIsComposed(n: nat, ok: bool)
    requires n < 10
    ensures Composed(ANY_CONFIG, n, FillReply(n, ok)) && IsReply(FillReply(n, ok), FILL_RULE)
  {
    hide Wire, OutgoingSize;
    assert WithoutHeader(FILL_RULE.fields[1..]) == [];
    ShortIsShort(ANY_CONFIG, n, "8", FILL_RULE.fields[1..], SOH);
  }

  lemma FillRuleIsClean()
    ensures CleanScenario(ANY_CONFIG, [], [FILL_RULE])
  {
    assert WithoutHeader(FILL_RULE.fields[1..]) == [];
  }

  /** Two replies of a mock rule, the first refused, the second taken: the first number the peer gets is 2. */
  lemma RefusedReplyLeavesHole()
    ensures var attempts := [FillReply(1, false), FillReply(2, true)];
            HandedOut(ANY_CONFIG, 1, [], [FILL_RULE], attempts) && !GapFree(1, attempts)
  {
    hide Composed, IsReply, CleanScenario, GapFree;
    var attempts := [FillReply(1, false), FillReply(2, true)];
    FillReplyIsComposed(1, false);
    FillReplyIsComposed(2, true);
    FillRuleIsClean();
    assert FILL_RULE in [FILL_RULE];
    WireIsGapFree(ANY_CONFIG, 1, attempts, [], [FILL_RULE]);
    assert attempts[1].ok && !attempts[0].ok;
  }
}
