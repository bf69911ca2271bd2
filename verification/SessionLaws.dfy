/**
 What a session is and answers in any run, said of the messages themselves:
 when it is logged on, which number it expects, and what it answers.
 */
module SessionLaws {
  import opened Bytes
  import opened Codec
  import opened Session

  /** The session after some messages. */
  function After(s: SessionState, messages: seq<seq<Field>>): SessionState {
    if messages == [] then s
    else Receive(After(s, messages[..|messages| - 1]), ReadIncoming(messages[|messages| - 1])).state
  }

  /** The session just before message i. */
  function Before(s: SessionState, messages: seq<seq<Field>>, i: nat): SessionState
    requires i < |messages|
  {
    After(s, messages[..i])
  }

  // ----- messages -----

  predicate HasType(m: seq<Field>, msgType: bytes) { FieldOf(m, 35) == Some(msgType) }

  predicate HasNumber(m: seq<Field>, n: int) { IntOf(m, 34).Some? && IntOf(m, 34).value == n }

  /** The message has a type and a number. */
  predicate IsComplete(m: seq<Field>) { FieldOf(m, 35).Some? && IntOf(m, 34).Some? }

  /** A Logon that a session accepts. */
  predicate Opens(s: SessionState, m: seq<Field>) { !s.loggedOn && IsComplete(m) && HasType(m, "A") }

  /** A message with the number that a logged-on session expects. */
  predicate InTurn(s: SessionState, m: seq<Field>) { s.loggedOn && IsComplete(m) && HasNumber(m, s.nextIn) }

  /** A Logout with the expected number. */
  predicate Closes(s: SessionState, m: seq<Field>) { InTurn(s, m) && HasType(m, "5") }

  // ----- logged on -----

  /** Message i is a Logon that is accepted, and no accepted Logout follows it. */
  ghost predicate OpensForGood(s: SessionState, messages: seq<seq<Field>>, i: nat)
    requires i < |messages|
  {
    && Opens(Before(s, messages, i), messages[i])
    && forall j :: i < j < |messages| ==> !Closes(Before(s, messages, j), messages[j])
  }

  ghost predicate SomeOpens(s: SessionState, messages: seq<seq<Field>>) {
    exists i :: 0 <= i < |messages| && OpensForGood(s, messages, i)
  }

  ghost predicate NoneCloses(s: SessionState, messages: seq<seq<Field>>) {
    forall i :: 0 <= i < |messages| ==> !Closes(Before(s, messages, i), messages[i])
  }

  /**
   A session is logged on exactly when it was from the start or accepted some
   Logon, and no Logout with the expected number came since.
   */
  lemma {:induction false} LoggedOnMeans(s: SessionState, messages: seq<seq<Field>>)
    ensures After(s, messages).loggedOn <==> (s.loggedOn && NoneCloses(s, messages)) || SomeOpens(s, messages)
  {
    hide FieldOf, IntOf, Opens, Closes, NoneCloses, SomeOpens;
    if messages == [] {
      NothingHeard(s);
    } else {
      var n := |messages| - 1;
      LoggedOnMeans(s, messages[..n]);
      NoneClosesNext(s, messages);
      SomeOpensNext(s, messages);
      LoggedOnNext(After(s, messages[..n]), messages[n]);
    }
  }

  lemma NothingHeard(s: SessionState)
    ensures NoneCloses(s, []) && !SomeOpens(s, [])
  {
  }

  lemma NoneClosesNext(s: SessionState, messages: seq<seq<Field>>)
    requires messages != []
    ensures var n := |messages| - 1;
            NoneCloses(s, messages) <==>
            NoneCloses(s, messages[..n]) && !Closes(After(s, messages[..n]), messages[n])
  {
    hide Closes, After, Before;
    var n := |messages| - 1;
    var front := messages[..n];
    BeforeFront(s, messages);
    assert forall i :: 0 <= i < n ==> front[i] == messages[i];
    if NoneCloses(s, front) && !Closes(After(s, front), messages[n]) {
      forall i | 0 <= i < |messages|
        ensures !Closes(Before(s, messages, i), messages[i])
      {
        assert i < n ==> !Closes(Before(s, front, i), front[i]);
      }
    }
    if NoneCloses(s, messages) {
      forall i | 0 <= i < n
        ensures !Closes(Before(s, front, i), front[i])
      {
        assert !Closes(Before(s, messages, i), messages[i]);
      }
      assert !Closes(Before(s, messages, n), messages[n]);
    }
  }

  lemma SomeOpensNext(s: SessionState, messages: seq<seq<Field>>)
    requires messages != []
    ensures var n := |messages| - 1;
            var before := After(s, messages[..n]);
            SomeOpens(s, messages) <==>
            Opens(before, messages[n]) || (SomeOpens(s, messages[..n]) && !Closes(before, messages[n]))
  {
    hide Opens, Closes, After, Before, OpensForGood;
    var n := |messages| - 1;
    var front := messages[..n];
    BeforeFront(s, messages);
    LastOpens(s, messages);
    forall i | 0 <= i < n
      ensures OpensForGood(s, messages, i) <==> OpensForGood(s, front, i) && !Closes(After(s, front), messages[n])
    {
      OpensForGoodNext(s, messages, i);
    }
    if SomeOpens(s, front) && !Closes(After(s, front), messages[n]) {
      var i :| 0 <= i < |front| && OpensForGood(s, front, i);
      assert OpensForGood(s, messages, i);
    }
    if SomeOpens(s, messages) {
      var i :| 0 <= i < |messages| && OpensForGood(s, messages, i);
      assert i < n ==> OpensForGood(s, front, i);
    }
  }

  lemma LastOpens(s: SessionState, messages: seq<seq<Field>>)
    requires messages != []
    ensures var n := |messages| - 1;
            OpensForGood(s, messages, n) <==> Opens(After(s, messages[..n]), messages[n])
  {
    hide Opens, Closes, After;
  }

  lemma OpensForGoodNext(s: SessionState, messages: seq<seq<Field>>, i: nat)
    requires i < |messages| - 1
    ensures var n := |messages| - 1;
            OpensForGood(s, messages, i) <==>
            OpensForGood(s, messages[..n], i) && !Closes(After(s, messages[..n]), messages[n])
  {
    hide Opens, Closes, After, Before;
    var n := |messages| - 1;
    var front := messages[..n];
    BeforeFront(s, messages);
    if OpensForGood(s, messages, i) {
      assert !Closes(Before(s, messages, n), messages[n]);
      forall j | i < j < n
        ensures !Closes(Before(s, front, j), front[j])
      {
        assert !Closes(Before(s, messages, j), messages[j]);
      }
    }
    if OpensForGood(s, front, i) && !Closes(After(s, front), messages[n]) {
      forall j | i < j < |messages|
        ensures !Closes(Before(s, messages, j), messages[j])
      {
        assert j < n ==> !Closes(Before(s, front, j), front[j]);
      }
    }
  }

  lemma BeforeFront(s: SessionState, messages: seq<seq<Field>>)
    requires messages != []
    ensures var front := messages[..|messages| - 1];
            && (forall i :: 0 <= i < |front| ==> Before(s, front, i) == Before(s, messages, i))
            && Before(s, messages, |messages| - 1) == After(s, front)
  {
    var front := messages[..|messages| - 1];
    assert forall i :: 0 <= i < |front| ==> front[..i] == messages[..i];
  }

  lemma LoggedOnNext(s: SessionState, m: seq<Field>)
    ensures Receive(s, ReadIncoming(m)).state.loggedOn <==> Opens(s, m) || (s.loggedOn && !Closes(s, m))
    ensures Opens(s, m) ==> !s.loggedOn
  {
    hide FieldOf, IntOf;
  }

  // ----- the expected number -----

  /** A message that the session counts. */
  predicate IsCounted(s: SessionState, m: seq<Field>) { Opens(s, m) || InTurn(s, m) }

  /** The number expected after a counted message: that of a SequenceReset, else the next one. */
  function NumberAfter(s: SessionState, m: seq<Field>): int
    requires IsComplete(m)
  {
    if s.loggedOn && HasType(m, "4") && IntOf(m, 36).Some? then IntOf(m, 36).value else IntOf(m, 34).value + 1
  }

  /** Message i is the last one that is counted. */
  ghost predicate CountedLast(s: SessionState, messages: seq<seq<Field>>, i: nat)
    requires i < |messages|
  {
    && IsCounted(Before(s, messages, i), messages[i])
    && forall j :: i < j < |messages| ==> !IsCounted(Before(s, messages, j), messages[j])
  }

  ghost predicate NoneCounted(s: SessionState, messages: seq<seq<Field>>) {
    forall i :: 0 <= i < |messages| ==> !IsCounted(Before(s, messages, i), messages[i])
  }

  /** The expected number is what the last counted message makes it, and stays while none is counted. */
  lemma {:induction false} NextNumberMeans(s: SessionState, messages: seq<seq<Field>>)
    ensures NoneCounted(s, messages) ==> After(s, messages).nextIn == s.nextIn
    ensures forall i :: 0 <= i < |messages| && CountedLast(s, messages, i) ==>
              After(s, messages).nextIn == NumberAfter(Before(s, messages, i), messages[i])
    ensures After(s, messages).nextOut == s.nextOut
  {
    hide FieldOf, IntOf, IsCounted, NumberAfter, NoneCounted, CountedLast, Before;
    if messages != [] {
      var n := |messages| - 1;
      var front := messages[..n];
      NextNumberMeans(s, front);
      BeforeFront(s, messages);
      NextNumberNext(After(s, front), messages[n]);
      if NoneCounted(s, messages) {
        NoneCountedNext(s, messages);
      }
      forall i | 0 <= i < |messages| && CountedLast(s, messages, i)
        ensures i < n ==> CountedLast(s, front, i) && !IsCounted(After(s, front), messages[n])
        ensures i == n ==> IsCounted(After(s, front), messages[n])
      {
        CountedLastNext(s, messages, i);
      }
    }
  }

  lemma NoneCountedNext(s: SessionState, messages: seq<seq<Field>>)
    requires messages != [] && NoneCounted(s, messages)
    ensures var n := |messages| - 1;
            NoneCounted(s, messages[..n]) && !IsCounted(After(s, messages[..n]), messages[n])
  {
    hide IsCounted, After, Before;
    var n := |messages| - 1;
    var front := messages[..n];
    BeforeFront(s, messages);
    assert !IsCounted(Before(s, messages, n), messages[n]);
    forall i | 0 <= i < n
      ensures !IsCounted(Before(s, front, i), front[i])
    {
      assert !IsCounted(Before(s, messages, i), messages[i]);
    }
  }

  lemma CountedLastNext(s: SessionState, messages: seq<seq<Field>>, i: nat)
    requires i < |messages| && CountedLast(s, messages, i)
    ensures var n := |messages| - 1;
            && (i < n ==> CountedLast(s, messages[..n], i) && !IsCounted(After(s, messages[..n]), messages[n]))
            && (i == n ==> IsCounted(After(s, messages[..n]), messages[n]))
  {
    hide IsCounted, After, Before;
    var n := |messages| - 1;
    var front := messages[..n];
    BeforeFront(s, messages);
    if i < n {
      assert !IsCounted(Before(s, messages, n), messages[n]);
      forall j | i < j < n
        ensures !IsCounted(Before(s, front, j), front[j])
      {
        assert !IsCounted(Before(s, messages, j), messages[j]);
      }
    }
  }

  lemma NextNumberNext(s: SessionState, m: seq<Field>)
    ensures var r := Receive(s, ReadIncoming(m)).state;
            && (IsCounted(s, m) ==> IsComplete(m) && r.nextIn == NumberAfter(s, m))
            && (!IsCounted(s, m) ==> r.nextIn == s.nextIn)
            && r.nextOut == s.nextOut
  {
    hide FieldOf, IntOf;
  }

  // ----- answers -----

  /** The answer to message i of a run. */
  function AnswerTo(s: SessionState, messages: seq<seq<Field>>, i: nat): ProcessResult
    requires i < |messages|
  {
    Receive(Before(s, messages, i), ReadIncoming(messages[i])).result
  }

  /** The answer to a message with the expected number. */
  ghost predicate RightInTurn(m: seq<Field>, r: ProcessResult)
    requires IsComplete(m)
  {
    var n: int := IntOf(m, 34).value;
    && (HasType(m, "0") ==> r == ProcessResult(NoAction, 0))
    && (HasType(m, "1") ==> r == ProcessResult(SendHeartbeat, n))
    && (HasType(m, "2") ==> r == ProcessResult(ResetSequence, n))
    && (HasType(m, "4") && IntOf(m, 36).Some? ==> r == ProcessResult(NoAction, IntOf(m, 36).value))
    && (HasType(m, "4") && IntOf(m, 36).None? ==> r == ProcessResult(SendReject, 0))
    && (HasType(m, "5") ==> r == ProcessResult(Disconnect, 0))
    && (!HasType(m, "0") && !HasType(m, "1") && !HasType(m, "2") && !HasType(m, "4") && !HasType(m, "5") ==>
          r == ProcessResult(ProcessApplicationMessage, 0))
  }

  /** The answer to a message, given the session before it. */
  ghost predicate RightAnswer(s: SessionState, m: seq<Field>, r: ProcessResult) {
    && (!IsComplete(m) ==> r == ProcessResult(SendReject, 0))
    && (IsComplete(m) && !s.loggedOn && HasType(m, "A") ==> r == ProcessResult(SendLogon, IntOf(m, 34).value))
    && (IsComplete(m) && !s.loggedOn && !HasType(m, "A") ==> r == ProcessResult(Disconnect, 0))
    && (InTurn(s, m) ==> RightInTurn(m, r))
    && (IsComplete(m) && s.loggedOn && IntOf(m, 34).value > s.nextIn ==>
          r == ProcessResult(SendResendRequest, s.nextIn))
    && (IsComplete(m) && s.loggedOn && IntOf(m, 34).value < s.nextIn ==>
          r == if FieldOf(m, 43) == Some("Y") then ProcessResult(NoAction, 0) else ProcessResult(Disconnect, 0))
  }

  /** Every message of a run gets the answer that its type, its number and the session before it call for. */
  lemma AnswersAreRight(s: SessionState, messages: seq<seq<Field>>, i: nat)
    requires i < |messages|
    ensures RightAnswer(Before(s, messages, i), messages[i], AnswerTo(s, messages, i))
  {
    hide FieldOf, IntOf, After;
    AnswerIsRight(Before(s, messages, i), messages[i]);
  }

  lemma AnswerIsRight(s: SessionState, m: seq<Field>)
    ensures RightAnswer(s, m, Receive(s, ReadIncoming(m)).result)
  {
    hide FieldOf, IntOf;
  }

  /** In a run from a fresh session, what is heard before the first Logon changes nothing. */
  lemma {:induction false} NothingBeforeLogon(messages: seq<seq<Field>>)
    requires forall i :: 0 <= i < |messages| ==> !(IsComplete(messages[i]) && HasType(messages[i], "A"))
    ensures After(FRESH, messages) == FRESH
  {
    hide FieldOf, IntOf;
    if messages != [] {
      var n := |messages| - 1;
      NothingBeforeLogon(messages[..n]);
      assert !(IsComplete(messages[n]) && HasType(messages[n], "A"));
    }
  }
}
