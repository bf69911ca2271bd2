/**
 Framing: finding whole messages in a byte stream that arrives in chunks.
 A receive buffer is trimmed to the next "8=", searched for "10=" and the
 separator after it, and cut there.
 */
module Framing {
  import opened Bytes

  const HEAD: bytes := "8="
  const TRAILER: bytes := "10="

  /** The text from its first "8=" on; nothing when there is none. */
  function FromHead(s: bytes): (t: bytes)
    ensures |t| <= |s|
  {
    s[IndexOfText(s, HEAD)..]
  }

  /** Where a trimmed text's first message ends: after the separator following its first "10=". */
  function MessageEnd(t: bytes, sep: Separator): (r: Option<nat>)
    ensures r.Some? ==> 0 < r.value <= |t| && t[r.value - 1] == sep
  {
    var idx10 := IndexOfText(t, TRAILER);
    if idx10 == |t| then None
    else
      var end := idx10 + IndexOf(t[idx10..], sep);
      if end == |t| then None else Some(end + 1)
  }

  /** The messages taken out of a buffer and what stays in it. */
  datatype Drained = Drained(messages: seq<bytes>, residue: bytes)

  function Drain(s: bytes, sep: Separator): Drained
    decreases |s|
  {
    var t := FromHead(s);
    match MessageEnd(t, sep)
    case None => Drained([], t)
    case Some(n) =>
      var d := Drain(t[n..], sep);
      Drained([t[..n]] + d.messages, d.residue)
  }

  /** What is left of a text after its last whole message, before trimming. */
  function Leftover(s: bytes, sep: Separator): bytes
    decreases |s|
  {
    var t := FromHead(s);
    match MessageEnd(t, sep)
    case None => s
    case Some(n) => Leftover(t[n..], sep)
  }

  // ----- the buffer itself -----

  class ReceiveBuffer {
    var data: bytes

    constructor ()
      ensures data == []
    {
      data := [];
    }

    method Append(chunk: bytes)
      modifies this
      ensures data == old(data) + chunk
    {
      data := data + chunk;
    }

    /** Takes the next whole message out of the buffer, if there is one. */
    method ExtractNextMessage(sep: Separator) returns (r: Option<bytes>)
      modifies this
      ensures r.Some? <==> MessageEnd(FromHead(old(data)), sep).Some?
      ensures r.None? ==> data == FromHead(old(data))
      ensures r.Some? ==>
                FromHead(old(data)) == r.value + data && |r.value| == MessageEnd(FromHead(old(data)), sep).value
    {
      hide IndexOfText, IndexOf, OccursAt;
      var start := IndexOfText(data, HEAD);
      if start == |data| {
        data := [];
        EmptyHasNoEnd(sep);
        return None;
      }
      if start > 0 {
        data := data[start..];
      }
      assert data == FromHead(old(data));
      var idx10 := IndexOfText(data, TRAILER);
      if idx10 == |data| {
        return None;
      }
      var separatorPos := idx10 + IndexOf(data[idx10..], sep);
      if separatorPos == |data| {
        return None;
      }
      var msgLen := separatorPos + 1;
      var msg := data[..msgLen];
      data := data[msgLen..];
      return Some(msg);
    }

    /** Takes out messages until none is whole. */
    method DrainAll(sep: Separator) returns (messages: seq<bytes>)
      modifies this
      ensures Drained(messages, data) == Drain(old(data), sep)
    {
      hide FromHead, MessageEnd;
      messages := [];
      var more := true;
      while more
        invariant more ==>
                    Drain(old(data), sep) == Drained(messages + Drain(data, sep).messages, Drain(data, sep).residue)
        invariant !more ==> Drain(old(data), sep) == Drained(messages, data)
        decreases more, |data|
      {
        ghost var was := data;
        ghost var t := FromHead(data);
        var next := ExtractNextMessage(sep);
        if next.None? {
          DrainEnd(was, sep);
          assert messages + [] == messages;
          more := false;
        } else {
          assert t[..|next.value|] == next.value && t[|next.value|..] == data;
          DrainStep(was, sep, |next.value|);
          Assoc(messages, [next.value], Drain(data, sep).messages);
          messages := messages + [next.value];
        }
      }
    }
  }

  lemma EmptyHasNoEnd(sep: Separator)
    ensures MessageEnd([], sep) == None
  {
  }

  // ----- appending to a text -----

  lemma OccursInAppend(a: bytes, b: bytes, pat: bytes, i: nat)
    requires i + |pat| <= |a|
    ensures OccursAt(a + b, pat, i) == OccursAt(a, pat, i)
  {
    assert (a + b)[i..i + |pat|] == a[i..i + |pat|];
  }

  /** A text found in a is found at the same place when more follows. */
  lemma FoundStays(a: bytes, b: bytes, pat: bytes)
    requires pat != [] && IndexOfText(a, pat) < |a|
    ensures IndexOfText(a + b, pat) == IndexOfText(a, pat)
  {
    var i := IndexOfText(a, pat);
    forall k: nat | k < i
      ensures !OccursAt(a + b, pat, k)
    {
      OccursInAppend(a, b, pat, k);
    }
    OccursInAppend(a, b, pat, i);
    IndexOfTextIs(a + b, pat, i);
  }

  lemma TrimAppend(a: bytes, b: bytes)
    requires FromHead(a) != []
    ensures FromHead(a + b) == FromHead(a) + b
  {
    hide IndexOfText, OccursAt;
    FoundStays(a, b, HEAD);
    DropOfSum(a, b, IndexOfText(a, HEAD));
  }

  lemma DropOfSum(a: bytes, b: bytes, i: nat)
    requires i <= |a|
    ensures (a + b)[i..] == a[i..] + b && (a + b)[..i] == a[..i]
  {
  }

  lemma SeparatorStays(a: bytes, b: bytes, c: byte)
    requires IndexOf(a, c) < |a|
    ensures IndexOf(a + b, c) == IndexOf(a, c)
  {
    IndexOfIs(a + b, c, IndexOf(a, c));
  }

  lemma EndAppend(t: bytes, b: bytes, sep: Separator)
    requires MessageEnd(t, sep).Some?
    ensures MessageEnd(t + b, sep) == MessageEnd(t, sep)
  {
    hide IndexOfText, IndexOf, OccursAt;
    FoundStays(t, b, TRAILER);
    var i := IndexOfText(t, TRAILER);
    DropOfSum(t, b, i);
    SeparatorStays(t[i..], b, sep);
  }

  lemma TrimIsIdempotent(s: bytes)
    ensures FromHead(FromHead(s)) == FromHead(s)
  {
    var t := FromHead(s);
    if t != [] {
      var i := IndexOfText(s, HEAD);
      assert OccursAt(t, HEAD, 0) by { assert t[0..2] == s[i..i + 2]; }
      IndexOfTextIs(t, HEAD, 0);
    }
  }

  // ----- one cut -----

  /** The cut that loses a message start: an '8' with no "8=" before it, then '='. */
  predicate Severed(left: bytes, right: bytes) {
    && FromHead(left) == []
    && left != [] && left[|left| - 1] == '8'
    && right != [] && right[0] == '='
  }

  /** The first step of a drain, named. */
  lemma DrainStep(s: bytes, sep: Separator, n: nat)
    requires MessageEnd(FromHead(s), sep) == Some(n)
    ensures var t, d := FromHead(s), Drain(FromHead(s)[n..], sep);
            Drain(s, sep) == Drained([t[..n]] + d.messages, d.residue) && Leftover(s, sep) == Leftover(t[n..], sep)
  {
  }

  lemma DrainEnd(s: bytes, sep: Separator)
    requires MessageEnd(FromHead(s), sep).None?
    ensures Drain(s, sep) == Drained([], FromHead(s)) && Leftover(s, sep) == s
  {
  }

  lemma NextAppend(a: bytes, b: bytes, sep: Separator, n: nat)
    requires MessageEnd(FromHead(a), sep) == Some(n)
    ensures MessageEnd(FromHead(a + b), sep) == Some(n)
    ensures FromHead(a + b)[..n] == FromHead(a)[..n] && FromHead(a + b)[n..] == FromHead(a)[n..] + b
  {
    hide FromHead, MessageEnd;
    TrimAppend(a, b);
    EndAppend(FromHead(a), b, sep);
    DropOfSum(FromHead(a), b, n);
  }

  lemma {:induction false} DrainAppend(a: bytes, b: bytes, sep: Separator)
    ensures var d := Drain(Leftover(a, sep) + b, sep);
            Drain(a + b, sep) == Drained(Drain(a, sep).messages + d.messages, d.residue)
    decreases |a|
  {
    hide Drain, Leftover, FromHead, MessageEnd;
    match MessageEnd(FromHead(a), sep)
    case None =>
      DrainEnd(a, sep);
      var d := Drain(a + b, sep);
      assert [] + d.messages == d.messages;
    case Some(n) =>
      var rest := FromHead(a)[n..];
      DrainStep(a, sep, n);
      NextAppend(a, b, sep, n);
      DrainStep(a + b, sep, n);
      DrainAppend(rest, b, sep);
      Assoc([FromHead(a)[..n]], Drain(rest, sep).messages, Drain(Leftover(a, sep) + b, sep).messages);
  }

  lemma {:induction false} ResidueIsTrimmedLeftover(s: bytes, sep: Separator)
    ensures Drain(s, sep).residue == FromHead(Leftover(s, sep))
    ensures MessageEnd(FromHead(Leftover(s, sep)), sep).None?
    decreases |s|
  {
    hide Drain, Leftover, FromHead, MessageEnd;
    match MessageEnd(FromHead(s), sep)
    case None =>
      DrainEnd(s, sep);
    case Some(n) =>
      DrainStep(s, sep, n);
      ResidueIsTrimmedLeftover(FromHead(s)[n..], sep);
  }

  /** A residue stays as it is when drained again. */
  lemma ResidueIsSettled(s: bytes, sep: Separator)
    ensures var r := Drain(s, sep).residue;
            FromHead(r) == r && Drain(r, sep) == Drained([], r)
  {
    hide Drain, Leftover, FromHead, MessageEnd;
    ResidueIsTrimmedLeftover(s, sep);
    TrimIsIdempotent(Leftover(s, sep));
    DrainEnd(Drain(s, sep).residue, sep);
  }

  lemma DrainDependsOnTrim(s: bytes, t: bytes, sep: Separator)
    requires FromHead(s) == FromHead(t)
    ensures Drain(s, sep) == Drain(t, sep)
  {
  }

  // ----- counting message starts -----

  function Joins(a: bytes, b: bytes): nat {
    if a != [] && b != [] && a[|a| - 1] == '8' && b[0] == '=' then 1 else 0
  }

  /** The number of places where "8=" occurs. */
  function Heads(s: bytes): nat {
    if s == [] then 0 else Joins(s[..1], s[1..]) + Heads(s[1..])
  }

  lemma {:induction false} HeadsAppend(a: bytes, b: bytes)
    ensures Heads(a + b) == Heads(a) + Joins(a, b) + Heads(b)
  {
    if a == [] {
      assert a + b == b;
    } else {
      HeadsAppend(a[1..], b);
      assert (a + b)[..1] == a[..1] && (a + b)[1..] == a[1..] + b;
      if |a| == 1 {
        assert a[1..] == [] && a[1..] + b == b;
      }
    }
  }

  lemma {:induction false} NoHeads(s: bytes)
    requires forall k: nat :: !OccursAt(s, HEAD, k)
    ensures Heads(s) == 0
  {
    if |s| >= 2 {
      assert !OccursAt(s, HEAD, 0);
      assert s[0..2] == [s[0], s[1]];
      OccursAtTail(s, HEAD);
      forall k: nat
        ensures !OccursAt(s[1..], HEAD, k)
      {
        assert !OccursAt(s, HEAD, k + 1);
      }
      NoHeads(s[1..]);
    } else if |s| == 1 {
      assert s[1..] == [];
    }
  }

  /** Trimming drops no message start. */
  lemma TrimKeepsHeads(s: bytes)
    ensures Heads(FromHead(s)) == Heads(s)
  {
    var i := IndexOfText(s, HEAD);
    forall k: nat
      ensures !OccursAt(s[..i], HEAD, k)
    {
      if k + 2 <= i {
        assert s[..i][k..k + 2] == s[k..k + 2];
        assert !OccursAt(s, HEAD, k);
      }
    }
    NoHeads(s[..i]);
    assert s == s[..i] + s[i..];
    HeadsAppend(s[..i], s[i..]);
    if 0 < i < |s| {
      assert !OccursAt(s, HEAD, i - 1);
      assert OccursAt(s, HEAD, i) && s[i..i + 2][0] == '8';
    }
  }

  function TotalHeads(messages: seq<bytes>): nat {
    if messages == [] then 0 else Heads(messages[0]) + TotalHeads(messages[1..])
  }

  lemma {:induction false} TotalHeadsAppend(a: seq<bytes>, b: seq<bytes>)
    ensures TotalHeads(a + b) == TotalHeads(a) + TotalHeads(b)
  {
    if a == [] {
      assert a + b == b;
    } else {
      assert (a + b)[1..] == a[1..] + b;
      TotalHeadsAppend(a[1..], b);
    }
  }

  /** Draining conserves message starts: each ends up in one message or in the residue. */
  lemma {:induction false} DrainKeepsHeads(s: bytes, sep: Separator)
    ensures TotalHeads(Drain(s, sep).messages) + Heads(Drain(s, sep).residue) == Heads(s)
    decreases |s|
  {
    hide Drain, Leftover, FromHead, MessageEnd, Heads;
    TrimKeepsHeads(s);
    match MessageEnd(FromHead(s), sep)
    case None =>
      DrainEnd(s, sep);
    case Some(n) =>
      var t := FromHead(s);
      DrainStep(s, sep, n);
      DrainKeepsHeads(t[n..], sep);
      assert t == t[..n] + t[n..] && t[..n][n - 1] == sep;
      HeadsAppend(t[..n], t[n..]);
      var d := Drain(t[n..], sep);
      assert ([t[..n]] + d.messages)[1..] == d.messages;
  }

  /** Without a severed start, dropping what is useless before the cut changes nothing. */
  lemma TrimAcrossCut(left: bytes, right: bytes)
    requires !Severed(left, right)
    ensures FromHead(FromHead(left) + right) == FromHead(left + right)
  {
    if FromHead(left) != [] {
      TrimIsIdempotent(left);
      TrimAppend(left, right);
      TrimAppend(FromHead(left), right);
    } else {
      assert IndexOfText(left, HEAD) == |left|;
      assert [] + right == right;
      TrimSkips(left, right);
    }
  }

  lemma TrimSkips(left: bytes, right: bytes)
    requires FromHead(left) == [] && !Severed(left, right)
    ensures FromHead(left + right) == FromHead(right)
  {
    hide OccursAt, IndexOfText;
    var n, i := |left|, IndexOfText(right, HEAD);
    var s := left + right;
    assert IndexOfText(left, HEAD) == n;
    forall k: nat | k < n + i
      ensures !OccursAt(s, HEAD, k)
    {
      if k + 2 <= n {
        OccursInAppend(left, right, HEAD, k);
        assert !OccursAt(left, HEAD, k);
      } else if k >= n {
        OccursAfter(left, right, k - n);
      } else {
        OccursAcross(left, right);
      }
    }
    if i < |right| {
      OccursAfter(left, right, i);
    }
    IndexOfTextIs(s, HEAD, n + i);
    assert s[n + i..] == right[i..];
  }

  lemma OccursAfter(left: bytes, right: bytes, k: nat)
    ensures OccursAt(left + right, HEAD, |left| + k) == OccursAt(right, HEAD, k)
  {
    var n := |left|;
    if k + 2 <= |right| {
      assert (left + right)[n + k..n + k + 2] == right[k..k + 2];
    }
  }

  lemma OccursAcross(left: bytes, right: bytes)
    requires left != []
    ensures OccursAt(left + right, HEAD, |left| - 1) <==> Joins(left, right) == 1
  {
    var n := |left|;
    if right != [] {
      assert (left + right)[n - 1..n + 1] == [left[n - 1], right[0]];
    }
  }

  /**
   Draining before and after a cut gives what draining the whole text gives,
   exactly when the cut does not sever a message start that nothing precedes.
   */
  lemma ChunkIndependence(a: bytes, b: bytes, sep: Separator)
    ensures var before := Drain(a, sep);
            var after := Drain(before.residue + b, sep);
            Drain(a + b, sep) == Drained(before.messages + after.messages, after.residue)
            <==> !Severed(Leftover(a, sep), b)
  {
    hide Drain, Leftover, FromHead, MessageEnd, Heads, TotalHeads;
    var q := Leftover(a, sep);
    var before := Drain(a, sep);
    var after := Drain(before.residue + b, sep);
    DrainAppend(a, b, sep);
    ResidueIsTrimmedLeftover(a, sep);
    if !Severed(q, b) {
      TrimAcrossCut(q, b);
      DrainDependsOnTrim(before.residue + b, q + b, sep);
    } else {
      CutLosesHead(a, b, sep);
    }
  }

  lemma NotFound(s: bytes, pat: bytes)
    requires pat != [] && pat[0] !in s
    ensures IndexOfText(s, pat) == |s|
  {
    forall k: nat | k < |s|
      ensures !OccursAt(s, pat, k)
    {
      if k + |pat| <= |s| {
        assert s[k..k + |pat|][0] == s[k];
      }
    }
    IndexOfTextIs(s, pat, |s|);
  }

  /** The smallest loss: an '8' alone in the buffer is gone when its '=' arrives. */
  lemma LoneEightIsLost(sep: Separator)
    ensures Drain("8" + "=F", sep) == Drained([], "8=F")
    ensures Drain("8", sep) == Drained([], []) && Drain([] + "=F", sep) == Drained([], [])
  {
    hide IndexOfText;
    var whole, left, right: bytes := "8=F", "8", "=F";
    assert "8" + right == whole && whole[0..2] == HEAD && whole[0..] == whole;
    IndexOfTextIs(whole, HEAD, 0);
    NotFound(whole, TRAILER);
    IndexOfTextIs(left, HEAD, 1);
    NotFound(right, HEAD);
    assert [] + right == right;
    EmptyHasNoEnd(sep);
  }

  /** A severed start is missing from what the two drains give. */
  lemma CutLosesHead(a: bytes, b: bytes, sep: Separator)
    requires Severed(Leftover(a, sep), b)
    ensures var before := Drain(a, sep);
            var after := Drain(before.residue + b, sep);
            Drain(a + b, sep) != Drained(before.messages + after.messages, after.residue)
  {
    hide Drain, Leftover, FromHead, MessageEnd, Heads, TotalHeads;
    var before := Drain(a, sep);
    var after := Drain(before.residue + b, sep);
    ResidueIsTrimmedLeftover(a, sep);
    assert before.residue + b == b;
    LeftoverEnds(a, sep);
    DrainKeepsHeads(a + b, sep);
    DrainKeepsHeads(a, sep);
    DrainKeepsHeads(b, sep);
    HeadsAppend(a, b);
    EmptyHasNoHeads();
    TotalHeadsAppend(before.messages, after.messages);
  }

  lemma EmptyHasNoHeads()
    ensures Heads([]) == 0 && TotalHeads([]) == 0
  {
  }

  /** What is left of a text is its end. */
  lemma {:induction false} LeftoverEnds(s: bytes, sep: Separator)
    ensures |Leftover(s, sep)| <= |s| && s[|s| - |Leftover(s, sep)|..] == Leftover(s, sep)
    decreases |s|
  {
    hide Drain, Leftover, MessageEnd;
    match MessageEnd(FromHead(s), sep)
    case None =>
      DrainEnd(s, sep);
    case Some(n) =>
      var t := FromHead(s);
      DrainStep(s, sep, n);
      LeftoverEnds(t[n..], sep);
      var i := |s| - |t| + n;
      assert t[n..] == s[i..];
      DropDrop(s, i, |s| - |Leftover(s, sep)|);
  }

  // ----- whole runs -----

  function Concat(chunks: seq<bytes>): bytes {
    if chunks == [] then [] else chunks[0] + Concat(chunks[1..])
  }

  /** Appending chunk after chunk to a buffer holding r, draining it each time. */
  function FeedAll(r: bytes, chunks: seq<bytes>, sep: Separator): Drained
    decreases |chunks|
  {
    if chunks == [] then Drained([], r)
    else
      var d := Drain(r + chunks[0], sep);
      var rest := FeedAll(d.residue, chunks[1..], sep);
      Drained(d.messages + rest.messages, rest.residue)
  }

  /** Some chunk ends in the middle of a message start that nothing precedes in the buffer. */
  predicate LosesStart(r: bytes, chunks: seq<bytes>, sep: Separator)
    decreases |chunks|
  {
    chunks != [] &&
    (|| Severed(Leftover(r + chunks[0], sep), Concat(chunks[1..]))
     || LosesStart(Drain(r + chunks[0], sep).residue, chunks[1..], sep))
  }

  lemma {:induction false} RunKeepsHeads(r: bytes, chunks: seq<bytes>, sep: Separator)
    ensures var d := FeedAll(r, chunks, sep);
            var total := TotalHeads(d.messages) + Heads(d.residue);
            && total <= Heads(r + Concat(chunks))
            && (LosesStart(r, chunks, sep) ==> total < Heads(r + Concat(chunks)))
    decreases |chunks|
  {
    hide Drain, Leftover, FromHead, MessageEnd, Heads, TotalHeads;
    if chunks == [] {
      assert r + Concat(chunks) == r;
      EmptyHasNoHeads();
    } else {
      var x, rest := r + chunks[0], Concat(chunks[1..]);
      var d := Drain(x, sep);
      RunKeepsHeads(d.residue, chunks[1..], sep);
      var tail := FeedAll(d.residue, chunks[1..], sep);
      TotalHeadsAppend(d.messages, tail.messages);
      DrainKeepsHeads(x, sep);
      Assoc(r, chunks[0], rest);
      HeadsAppend(x, rest);
      HeadsAppend(d.residue, rest);
      CutJoins(x, rest, sep);
    }
  }

  /** The join at a cut survives in the buffer unless the cut severs it. */
  lemma CutJoins(x: bytes, rest: bytes, sep: Separator)
    ensures Joins(Drain(x, sep).residue, rest) <= Joins(x, rest)
    ensures Severed(Leftover(x, sep), rest) ==> Joins(Drain(x, sep).residue, rest) < Joins(x, rest)
  {
    hide Drain, Leftover, MessageEnd;
    ResidueIsTrimmedLeftover(x, sep);
    LeftoverEnds(x, sep);
  }

  /**
   A run over any chunks gives what draining the whole stream gives, exactly
   when no chunk ends in the middle of a message start that nothing precedes.
   */
  lemma {:induction false} RunIndependence(r: bytes, chunks: seq<bytes>, sep: Separator)
    requires Drain(r, sep) == Drained([], r)
    ensures FeedAll(r, chunks, sep) == Drain(r + Concat(chunks), sep) <==> !LosesStart(r, chunks, sep)
    decreases |chunks|
  {
    hide Drain, Leftover, FromHead, MessageEnd, Heads, TotalHeads;
    RunKeepsHeads(r, chunks, sep);
    DrainKeepsHeads(r + Concat(chunks), sep);
    if chunks == [] {
      assert r + Concat(chunks) == r;
    } else if !LosesStart(r, chunks, sep) {
      var x, rest := r + chunks[0], Concat(chunks[1..]);
      Assoc(r, chunks[0], rest);
      ChunkIndependence(x, rest, sep);
      ResidueIsSettled(x, sep);
      RunIndependence(Drain(x, sep).residue, chunks[1..], sep);
    }
  }
}
