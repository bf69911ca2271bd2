/**
 Repeating groups: slices of the flat field table, one per occurrence of the
 delimiter tag after the counter field.
 */
module Groups {
  import opened Bytes
  import opened Decimal
  import opened Codec
  import opened CodecLaws

  /** The most instances a group view holds. */
  const CAPACITY := 64

  /** A contiguous range of the field table. */
  datatype Span = Span(start: nat, length: nat)

  function SpanFields(fields: seq<Field>, s: Span): seq<Field>
    requires s.start + s.length <= |fields|
  {
    fields[s.start..s.start + s.length]
  }

  // ----- where instances begin and end -----

  /** The position of the first field with the tag, or |fields|. */
  function IndexOfTag(fields: seq<Field>, tag: int): (i: nat)
    ensures i <= |fields|
    ensures i < |fields| ==> fields[i].tag == tag
    ensures forall j :: 0 <= j < i ==> fields[j].tag != tag
  {
    if fields == [] || fields[0].tag == tag then 0 else 1 + IndexOfTag(fields[1..], tag)
  }

  /** A header or trailer field that ends a group. */
  predicate Ends(f: Field, delim: int) { IsFraming(f.tag) && f.tag != delim }

  /** Where the group scan stops at the latest: the first ending field from lo on. */
  function StopFrom(fields: seq<Field>, lo: nat, delim: int): (i: nat)
    requires lo <= |fields|
    ensures lo <= i <= |fields|
    ensures i < |fields| ==> Ends(fields[i], delim)
    ensures forall j :: lo <= j < i ==> !Ends(fields[j], delim)
    decreases |fields| - lo
  {
    if lo == |fields| || Ends(fields[lo], delim) then lo else StopFrom(fields, lo + 1, delim)
  }

  /** The positions of the delimiter in a range, in order. */
  function Delims(fields: seq<Field>, lo: nat, hi: nat, delim: int): (d: seq<nat>)
    requires hi <= |fields|
    ensures forall i :: 0 <= i < |d| ==> lo <= d[i] < hi && fields[d[i]].tag == delim
    ensures forall i, j :: 0 <= i < j < |d| ==> d[i] < d[j]
    ensures forall p :: lo <= p < hi && fields[p].tag == delim ==> p in d
  {
    if hi <= lo then []
    else if fields[hi - 1].tag == delim then Delims(fields, lo, hi - 1, delim) + [hi - 1]
    else Delims(fields, lo, hi - 1, delim)
  }

  function Min(a: nat, b: nat): nat { if a < b then a else b }

  /** The j-th of the instances that begin at the positions d and end at stop. */
  function SpanAt(d: seq<nat>, stop: nat, j: nat): Span
    requires j < |d|
    requires forall i :: 0 <= i < |d| ==> d[i] < stop
    requires forall i, k :: 0 <= i < k < |d| ==> d[i] < d[k]
  {
    Span(d[j], (if j + 1 < |d| then d[j + 1] else stop) - d[j])
  }

  /** The number of instances a message declares for a group; none when it declares nothing usable. */
  function Declared(fields: seq<Field>, groupTag: int): nat {
    match IntOf(fields, groupTag)
    case Some(n) => if n > 0 then n else 0
    case None => 0
  }

  /** The instances of a group. */
  function GroupOf(fields: seq<Field>, groupTag: int, delim: int): (r: seq<Span>)
  {
    var g := IndexOfTag(fields, groupTag);
    if g == |fields| then []
    else
      var stop := StopFrom(fields, g + 1, delim);
      var d := Delims(fields, g + 1, stop, delim);
      seq(Min(Min(Declared(fields, groupTag), CAPACITY), |d|), j requires 0 <= j < |d| => SpanAt(d, stop, j))
  }

  lemma DelimsStep(fields: seq<Field>, lo: nat, hi: nat, delim: int)
    requires lo < hi <= |fields|
    ensures Delims(fields, lo, hi, delim)
         == Delims(fields, lo, hi - 1, delim) + if fields[hi - 1].tag == delim then [hi - 1] else []
  {
  }

  lemma NoDelims(fields: seq<Field>, lo: nat, delim: int)
    requires lo <= |fields|
    ensures Delims(fields, lo, lo, delim) == []
  {
  }

  lemma {:induction false} DelimsSplit(fields: seq<Field>, lo: nat, mid: nat, hi: nat, delim: int)
    requires lo <= mid <= hi <= |fields|
    ensures Delims(fields, lo, hi, delim) == Delims(fields, lo, mid, delim) + Delims(fields, mid, hi, delim)
    decreases hi - mid
  {
    hide Delims;
    var front := Delims(fields, lo, mid, delim);
    if mid < hi {
      DelimsStep(fields, lo, hi, delim);
      DelimsStep(fields, mid, hi, delim);
      DelimsSplit(fields, lo, mid, hi - 1, delim);
      Assoc(front, Delims(fields, mid, hi - 1, delim), if fields[hi - 1].tag == delim then [hi - 1] else []);
    } else {
      NoDelims(fields, mid, delim);
      assert front + [] == front;
    }
  }

  // ----- the scan -----

  /** What the scan has collected when it has looked at the fields from lo to current. */
  ghost predicate Collected(fields: seq<Field>, lo: nat, current: nat, delim: int, instances: seq<Span>,
                            open: Option<nat>)
    requires lo <= |fields|
  {
    var stop := StopFrom(fields, lo, delim);
    && lo <= current <= stop
    && var seen, all := Delims(fields, lo, current, delim), Delims(fields, lo, stop, delim);
       && seen <= all
       && |instances| == (if seen == [] then 0 else |seen| - 1)
       && open == (if seen == [] then None else Some(seen[|seen| - 1]))
       && forall j :: 0 <= j < |instances| ==> instances[j] == SpanAt(all, stop, j)
  }

  /** The open instance, closed at a position. */
  function Close(instances: seq<Span>, open: Option<nat>, at: nat): seq<Span>
    requires open.Some? ==> open.value <= at
  {
    match open
    case None => instances
    case Some(start) => instances + [Span(start, at - start)]
  }

  lemma CollectDelim(fields: seq<Field>, lo: nat, current: nat, delim: int, instances: seq<Span>, open: Option<nat>)
    requires lo <= |fields| && Collected(fields, lo, current, delim, instances, open)
    requires current < |fields| && fields[current].tag == delim
    ensures open.Some? ==> open.value <= current
    ensures Collected(fields, lo, current + 1, delim, Close(instances, open, current), Some(current))
  {
    hide Delims, StopFrom;
    var stop := StopFrom(fields, lo, delim);
    assert current < stop;
    DelimHere(fields, lo, current, stop, delim);
  }

  lemma DelimHere(fields: seq<Field>, lo: nat, current: nat, stop: nat, delim: int)
    requires lo <= current < stop <= |fields| && fields[current].tag == delim
    ensures var seen, all := Delims(fields, lo, current, delim), Delims(fields, lo, stop, delim);
            && Delims(fields, lo, current + 1, delim) == seen + [current] <= all
            && |seen| < |all| && all[|seen|] == current
  {
    DelimsSplit(fields, lo, current + 1, stop, delim);
  }

  lemma CollectOther(fields: seq<Field>, lo: nat, current: nat, delim: int, instances: seq<Span>, open: Option<nat>)
    requires lo <= |fields| && Collected(fields, lo, current, delim, instances, open)
    requires current < |fields| && fields[current].tag != delim
    ensures IsFraming(fields[current].tag) ==> current == StopFrom(fields, lo, delim)
    ensures !IsFraming(fields[current].tag) ==> Collected(fields, lo, current + 1, delim, instances, open)
  {
  }

  lemma CollectStop(fields: seq<Field>, lo: nat, current: nat, delim: int, instances: seq<Span>, open: Option<nat>)
    requires lo <= |fields| && Collected(fields, lo, current, delim, instances, open)
    ensures current == |fields| ==> current == StopFrom(fields, lo, delim)
    ensures open.Some? ==> open.value <= current
    ensures var stop := StopFrom(fields, lo, delim);
            var all := Delims(fields, lo, stop, delim);
            && |instances| <= |all|
            && (open.Some? ==> |instances| < |all|)
            && (forall j :: 0 <= j < |instances| ==> instances[j] == SpanAt(all, stop, j))
            && (current == stop && open.Some? ==>
                  && |instances| + 1 == |all|
                  && Span(open.value, current - open.value) == SpanAt(all, stop, |instances|))
            && (current == stop && open.None? ==> all == [])
  {
  }

  lemma CollectNothing(fields: seq<Field>, lo: nat, delim: int)
    requires lo <= |fields|
    ensures Collected(fields, lo, lo, delim, [], None)
  {
  }

  /** Scans the fields after the counter for instances. */
  method GetGroup(fields: seq<Field>, groupTag: int, delim: int) returns (instances: seq<Span>)
    ensures instances == GroupOf(fields, groupTag, delim)
  {
    hide Delims, StopFrom, Collected, SpanAt, IntOf, IndexOfTag;
    instances := [];
    var groupFieldIdx := IndexOfTag(fields, groupTag);
    if groupFieldIdx == |fields| {
      return;
    }
    var declared := IntOf(fields, groupTag);
    if declared.None? || declared.value <= 0 {
      return;
    }
    var numInstances := declared.value;
    var lo := groupFieldIdx + 1;
    var current := lo;
    var instanceStart: Option<nat> := None;
    CollectNothing(fields, lo, delim);
    while current < |fields| && |instances| < numInstances && |instances| < CAPACITY
      invariant current <= |fields| && |instances| <= numInstances && |instances| <= CAPACITY
      invariant Collected(fields, lo, current, delim, instances, instanceStart)
      invariant instanceStart.None? ==> instances == []
      decreases |fields| - current
    {
      var tag := fields[current].tag;
      if tag == delim {
        CollectDelim(fields, lo, current, delim, instances, instanceStart);
        if instanceStart.Some? {
          instances := instances + [Span(instanceStart.value, current - instanceStart.value)];
        }
        instanceStart := Some(current);
      } else {
        CollectOther(fields, lo, current, delim, instances, instanceStart);
        if tag == 10 || tag == 8 || tag == 9 {
          break;
        }
      }
      current := current + 1;
    }
    CollectStop(fields, lo, current, delim, instances, instanceStart);
    if instanceStart.Some? && |instances| < numInstances && |instances| < CAPACITY {
      instances := instances + [Span(instanceStart.value, current - instanceStart.value)];
    }
    GroupOfIs(fields, groupTag, delim, instances);
  }

  lemma GroupOfIs(fields: seq<Field>, groupTag: int, delim: int, instances: seq<Span>)
    requires IndexOfTag(fields, groupTag) < |fields|
    requires var lo := IndexOfTag(fields, groupTag) + 1;
             var stop := StopFrom(fields, lo, delim);
             var d := Delims(fields, lo, stop, delim);
             && |instances| <= |d|
             && (forall j :: 0 <= j < |instances| ==> instances[j] == SpanAt(d, stop, j))
             && |instances| == Min(Min(Declared(fields, groupTag), CAPACITY), |d|)
    ensures instances == GroupOf(fields, groupTag, delim)
  {
    hide Delims, StopFrom, IndexOfTag, IntOf, SpanAt, Declared, Min;
    assert |instances| == |GroupOf(fields, groupTag, delim)|;
  }

  // ----- what a group view shows -----

  /** The shape of a group view: contiguous slices, each beginning with its only delimiter. */
  lemma GroupShape(fields: seq<Field>, groupTag: int, delim: int)
    ensures var g, spans := IndexOfTag(fields, groupTag), GroupOf(fields, groupTag, delim);
            && |spans| <= CAPACITY && |spans| <= Declared(fields, groupTag)
            && (forall j :: 0 <= j < |spans| ==>
                  && g < spans[j].start && 0 < spans[j].length && spans[j].start + spans[j].length <= |fields|
                  && fields[spans[j].start].tag == delim)
            && (forall j, p :: 0 <= j < |spans| && spans[j].start < p < spans[j].start + spans[j].length ==>
                  fields[p].tag != delim && !IsFraming(fields[p].tag))
            && (forall j :: 0 <= j < |spans| - 1 ==> spans[j + 1].start == spans[j].start + spans[j].length)
  {
    hide Delims, StopFrom, IndexOfTag, IntOf, SpanAt, Declared;
    var g := IndexOfTag(fields, groupTag);
    var spans := GroupOf(fields, groupTag, delim);
    if g < |fields| {
      var stop := StopFrom(fields, g + 1, delim);
      var d := Delims(fields, g + 1, stop, delim);
      forall j | 0 <= j < |spans|
        ensures SpanHolds(fields, g, stop, delim, spans[j])
        ensures j < |spans| - 1 ==> spans[j + 1].start == spans[j].start + spans[j].length
      {
        SpanIsInstance(fields, g, stop, delim, j);
        if j < |spans| - 1 {
          SpansMeet(d, stop, j);
        }
      }
    }
  }

  lemma SpansMeet(d: seq<nat>, stop: nat, j: nat)
    requires j + 1 < |d|
    requires forall i :: 0 <= i < |d| ==> d[i] < stop
    requires forall i, k :: 0 <= i < k < |d| ==> d[i] < d[k]
    ensures SpanAt(d, stop, j + 1).start == SpanAt(d, stop, j).start + SpanAt(d, stop, j).length
  {
  }

  ghost predicate SpanHolds(fields: seq<Field>, g: nat, stop: nat, delim: int, s: Span) {
    && stop <= |fields| && g < s.start && 0 < s.length && s.start + s.length <= stop
    && fields[s.start].tag == delim
    && forall p :: s.start < p < s.start + s.length ==> fields[p].tag != delim && !IsFraming(fields[p].tag)
  }

  lemma SpanIsInstance(fields: seq<Field>, g: nat, stop: nat, delim: int, j: nat)
    requires g < |fields| && stop == StopFrom(fields, g + 1, delim)
    requires j < |Delims(fields, g + 1, stop, delim)|
    ensures SpanHolds(fields, g, stop, delim, SpanAt(Delims(fields, g + 1, stop, delim), stop, j))
  {
    hide Delims, StopFrom;
    var d := Delims(fields, g + 1, stop, delim);
    var s := SpanAt(d, stop, j);
    assert forall i :: 0 <= i < |d| ==> d[i] <= d[j] || (j + 1 < |d| && d[i] >= d[j + 1]);
    forall p | s.start < p < s.start + s.length
      ensures fields[p].tag != delim && !IsFraming(fields[p].tag)
    {
      assert !Ends(fields[p], delim);
      assert p !in d;
    }
  }

  /** Up to where the scan stops, the view misses a delimiter only when it is as long as declared, or full. */
  lemma GroupReachesStop(fields: seq<Field>, groupTag: int, delim: int)
    requires IndexOfTag(fields, groupTag) < |fields|
    ensures var g, spans := IndexOfTag(fields, groupTag), GroupOf(fields, groupTag, delim);
            var stop := StopFrom(fields, g + 1, delim);
            && (|spans| < Declared(fields, groupTag) && |spans| < CAPACITY ==>
                  forall p :: g < p < stop && fields[p].tag == delim ==> StartsSome(spans, p))
            && (spans != [] ==> forall p :: g < p < spans[0].start ==> fields[p].tag != delim)
            && (spans != [] ==> EndsAt(fields, spans[|spans| - 1], stop, delim))
  {
    hide Delims, StopFrom, IndexOfTag, Declared, GroupOf, SpanAt, StartsSome, EndsAt, Slices, AllDelims;
    var lo, spans := IndexOfTag(fields, groupTag) + 1, GroupOf(fields, groupTag, delim);
    var stop := StopFrom(fields, lo, delim);
    var d := Delims(fields, lo, stop, delim);
    GroupSpans(fields, groupTag, delim);
    DelimsAreAll(fields, lo, stop, delim);
    if |spans| == |d| {
      DelimsStart(fields, lo, stop, delim, spans, d);
    }
    if spans != [] {
      FirstStarts(fields, lo, stop, delim, spans, d);
      LastEnds(fields, lo, stop, delim, spans, d);
    }
  }

  /** The positions of the delimiter in a range, all of them, in order. */
  ghost predicate AllDelims(fields: seq<Field>, lo: nat, hi: nat, delim: int, d: seq<nat>) {
    && hi <= |fields|
    && (forall i :: 0 <= i < |d| ==> lo <= d[i] < hi && fields[d[i]].tag == delim)
    && (forall p :: lo <= p < hi && fields[p].tag == delim ==> p in d)
  }

  lemma DelimsAreAll(fields: seq<Field>, lo: nat, hi: nat, delim: int)
    requires hi <= |fields|
    ensures AllDelims(fields, lo, hi, delim, Delims(fields, lo, hi, delim))
  {
    hide Delims;
  }

  /** The spans are the first instances that begin at the positions d. */
  ghost predicate Slices(spans: seq<Span>, d: seq<nat>, stop: nat) {
    && (forall i :: 0 <= i < |d| ==> d[i] < stop)
    && (forall i, k :: 0 <= i < k < |d| ==> d[i] < d[k])
    && |spans| <= |d|
    && forall j :: 0 <= j < |spans| ==> spans[j] == SpanAt(d, stop, j)
  }

  lemma GroupSpans(fields: seq<Field>, groupTag: int, delim: int)
    requires IndexOfTag(fields, groupTag) < |fields|
    ensures var lo, spans := IndexOfTag(fields, groupTag) + 1, GroupOf(fields, groupTag, delim);
            var stop := StopFrom(fields, lo, delim);
            var d := Delims(fields, lo, stop, delim);
            && Slices(spans, d, stop)
            && (|spans| < Declared(fields, groupTag) && |spans| < CAPACITY ==> |spans| == |d|)
  {
    hide Delims, StopFrom, IndexOfTag, Declared, SpanAt;
  }

  lemma DelimsStart(fields: seq<Field>, lo: nat, stop: nat, delim: int, spans: seq<Span>, d: seq<nat>)
    requires AllDelims(fields, lo, stop, delim, d) && Slices(spans, d, stop) && |spans| == |d|
    ensures forall p :: lo <= p < stop && fields[p].tag == delim ==> StartsSome(spans, p)
  {
    forall p | lo <= p < stop && fields[p].tag == delim
      ensures StartsSome(spans, p)
    {
      var j :| 0 <= j < |d| && d[j] == p;
      assert spans[j].start == p;
    }
  }

  lemma FirstStarts(fields: seq<Field>, lo: nat, stop: nat, delim: int, spans: seq<Span>, d: seq<nat>)
    requires AllDelims(fields, lo, stop, delim, d) && Slices(spans, d, stop) && spans != []
    ensures spans[0].start < |fields|
    ensures forall p :: lo <= p < spans[0].start ==> fields[p].tag != delim
  {
    assert spans[0].start == d[0];
    assert forall p :: p in d ==> p >= d[0];
  }

  lemma LastEnds(fields: seq<Field>, lo: nat, stop: nat, delim: int, spans: seq<Span>, d: seq<nat>)
    requires AllDelims(fields, lo, stop, delim, d) && Slices(spans, d, stop) && spans != []
    ensures EndsAt(fields, spans[|spans| - 1], stop, delim)
  {
    var j := |spans| - 1;
    assert spans[j] == SpanAt(d, stop, j);
  }

  predicate StartsSome(spans: seq<Span>, p: int) {
    exists j :: 0 <= j < |spans| && spans[j].start == p
  }

  /** A slice reaches to the next delimiter, or to where the scan stops. */
  predicate EndsAt(fields: seq<Field>, s: Span, stop: nat, delim: int) {
    var end := s.start + s.length;
    end == stop || (end < |fields| && fields[end].tag == delim)
  }

  // ----- the view, from the fields alone -----

  /** A field that begins an instance: a delimiter after the counter at g, with no 8, 9 or 10 in between. */
  predicate IsEntry(fields: seq<Field>, g: nat, delim: int, p: int) {
    && g < p < |fields| && fields[p].tag == delim
    && forall q :: g < q < p && fields[q].tag != delim ==>
                     fields[q].tag != 8 && fields[q].tag != 9 && fields[q].tag != 10
  }

  /** The number of such fields before position hi. */
  function Entries(fields: seq<Field>, g: nat, delim: int, hi: nat): nat {
    if hi == 0 then 0 else Entries(fields, g, delim, hi - 1) + if IsEntry(fields, g, delim, hi - 1) then 1 else 0
  }

  function Least(n: int, a: nat, b: nat): nat {
    if n < 0 then 0 else if n <= a && n <= b then n else if a <= b then a else b
  }

  /** Position g holds the first field with the tag. */
  predicate IsFirst(fields: seq<Field>, tag: int, g: nat) {
    g < |fields| && fields[g].tag == tag && forall i :: 0 <= i < g ==> fields[i].tag != tag
  }

  /** The slices are the first instances after the counter at g. */
  ghost predicate ShowsEntries(fields: seq<Field>, g: nat, delim: int, spans: seq<Span>) {
    forall j :: 0 <= j < |spans| ==> ShowsEntry(fields, g, delim, spans[j], j)
  }

  /** The slice is the j-th instance, up to the next one or to where the group ends. */
  ghost predicate ShowsEntry(fields: seq<Field>, g: nat, delim: int, s: Span, j: nat) {
    var end := s.start + s.length;
    && IsEntry(fields, g, delim, s.start) && Entries(fields, g, delim, s.start) == j
    && s.start < end <= |fields|
    && (forall p :: s.start < p < end ==>
          && fields[p].tag != delim
          && fields[p].tag != 8 && fields[p].tag != 9 && fields[p].tag != 10)
    && (end < |fields| ==>
          fields[end].tag == delim || fields[end].tag == 8 || fields[end].tag == 9 || fields[end].tag == 10)
  }

  lemma FirstIs(fields: seq<Field>, tag: int, g: nat)
    requires IsFirst(fields, tag, g)
    ensures IndexOfTag(fields, tag) == g
    ensures FieldOf(fields, tag) == Some(fields[g].value)
  {
    FieldAt(fields, tag, g);
  }

  lemma {:induction false} EntriesUpToStop(fields: seq<Field>, g: nat, delim: int, hi: nat)
    requires g < |fields| && g + 1 <= hi <= StopFrom(fields, g + 1, delim)
    ensures Entries(fields, g, delim, hi) == |Delims(fields, g + 1, hi, delim)|
    decreases hi
  {
    hide StopFrom, Delims;
    if hi == g + 1 {
      NoEntries(fields, g, delim, hi);
      NoDelims(fields, g + 1, delim);
    } else {
      EntriesUpToStop(fields, g, delim, hi - 1);
      DelimsStep(fields, g + 1, hi, delim);
      assert forall q :: g < q < hi ==> !Ends(fields[q], delim);
    }
  }

  lemma {:induction false} NoEntries(fields: seq<Field>, g: nat, delim: int, hi: nat)
    requires hi <= g + 1
    ensures Entries(fields, g, delim, hi) == 0
  {
    if hi > 0 {
      NoEntries(fields, g, delim, hi - 1);
    }
  }

  lemma {:induction false} EntriesAfterStop(fields: seq<Field>, g: nat, delim: int, hi: nat)
    requires g < |fields| && StopFrom(fields, g + 1, delim) <= hi <= |fields|
    ensures Entries(fields, g, delim, hi) == Entries(fields, g, delim, StopFrom(fields, g + 1, delim))
    decreases hi
  {
    hide StopFrom;
    var stop := StopFrom(fields, g + 1, delim);
    if stop < hi {
      EntriesAfterStop(fields, g, delim, hi - 1);
      assert Ends(fields[stop], delim);
    }
  }

  lemma EntryIs(fields: seq<Field>, g: nat, delim: int, p: nat)
    requires g < |fields| && g < p < StopFrom(fields, g + 1, delim) && fields[p].tag == delim
    ensures IsEntry(fields, g, delim, p)
  {
    hide StopFrom;
    assert forall q :: g < q < p ==> !Ends(fields[q], delim);
  }

  /** The number of delimiters before the j-th one is j. */
  lemma {:induction false} DelimsBefore(fields: seq<Field>, lo: nat, stop: nat, delim: int, j: nat)
    requires lo <= stop <= |fields| && j < |Delims(fields, lo, stop, delim)|
    ensures |Delims(fields, lo, Delims(fields, lo, stop, delim)[j], delim)| == j
    decreases stop
  {
    hide Delims;
    if lo == stop {
      NoDelims(fields, lo, delim);
    } else {
      DelimsStep(fields, lo, stop, delim);
      if j < |Delims(fields, lo, stop - 1, delim)| {
        DelimsBefore(fields, lo, stop - 1, delim, j);
      }
    }
  }

  /**
   The view of a group whose counter, at position g, begins with the number n:
   it has as many instances as the least of n, 64 and the instances there are,
   and shows exactly the first ones.
   */
  lemma GroupMeans(fields: seq<Field>, groupTag: int, delim: int, g: nat, n: int)
    requires IsFirst(fields, groupTag, g) && BeginsWith(fields[g].value, n)
    ensures var spans := GroupOf(fields, groupTag, delim);
            && |spans| == Least(n, 64, Entries(fields, g, delim, |fields|))
            && ShowsEntries(fields, g, delim, spans)
  {
    hide Delims, StopFrom, IndexOfTag, Entries, BeginsWith, ShowsEntry, SpanAt, FromChars;
    FirstIs(fields, groupTag, g);
    ReadingMeans(fields[g].value, n);
    var stop := StopFrom(fields, g + 1, delim);
    var d := Delims(fields, g + 1, stop, delim);
    EntriesUpToStop(fields, g, delim, stop);
    EntriesAfterStop(fields, g, delim, |fields|);
    var spans := GroupOf(fields, groupTag, delim);
    forall j | 0 <= j < |spans|
      ensures ShowsEntry(fields, g, delim, spans[j], j)
    {
      SpanIsShown(fields, g, delim, j);
    }
  }

  lemma SpanIsShown(fields: seq<Field>, g: nat, delim: int, j: nat)
    requires g < |fields| && j < |Delims(fields, g + 1, StopFrom(fields, g + 1, delim), delim)|
    ensures var stop := StopFrom(fields, g + 1, delim);
            ShowsEntry(fields, g, delim, SpanAt(Delims(fields, g + 1, stop, delim), stop, j), j)
  {
    hide Delims, StopFrom, Entries, IsEntry;
    var stop := StopFrom(fields, g + 1, delim);
    var d := Delims(fields, g + 1, stop, delim);
    SpanIsInstance(fields, g, stop, delim, j);
    EntryIs(fields, g, delim, d[j]);
    DelimsBefore(fields, g + 1, stop, delim, j);
    EntriesUpToStop(fields, g, delim, d[j]);
  }

  /** The view leaves nothing out: it misses an instance only when it has as many as declared, or 64. */
  lemma GroupIsComplete(fields: seq<Field>, groupTag: int, delim: int, g: nat, n: int)
    requires IsFirst(fields, groupTag, g) && BeginsWith(fields[g].value, n)
    ensures var spans := GroupOf(fields, groupTag, delim);
            |spans| < n && |spans| < 64 ==>
              forall p :: g < p < |fields| && IsEntry(fields, g, delim, p) ==> StartsSome(spans, p)
  {
    hide Delims, StopFrom, IndexOfTag, Entries, BeginsWith, FromChars, GroupOf, StartsSome, EndsAt;
    FirstIs(fields, groupTag, g);
    ReadingMeans(fields[g].value, n);
    GroupReachesStop(fields, groupTag, delim);
    var stop := StopFrom(fields, g + 1, delim);
    forall p | g < p < |fields| && IsEntry(fields, g, delim, p)
      ensures p < stop
    {
      assert stop < |fields| ==> Ends(fields[stop], delim);
    }
  }

  /** Without the counter, or when its value begins with no number, the view is empty. */
  lemma GroupIsEmpty(fields: seq<Field>, groupTag: int, delim: int)
    requires forall g: nat, n: int :: IsFirst(fields, groupTag, g) ==> !BeginsWith(fields[g].value, n)
    ensures GroupOf(fields, groupTag, delim) == []
  {
    hide BeginsWith, FromChars, Delims, StopFrom;
    var g := IndexOfTag(fields, groupTag);
    if g < |fields| {
      assert IsFirst(fields, groupTag, g);
      FirstIs(fields, groupTag, g);
      NoNumberIsRead(fields[g].value);
    }
  }

  lemma NoNumberIsRead(s: bytes)
    requires forall n: int :: !BeginsWith(s, n)
    ensures !FromChars(s).Parsed?
  {
    hide BeginsWith, FromChars;
    if FromChars(s).Parsed? {
      ReadingMeans(s, FromChars(s).value);
    }
  }

  // ----- the round trip of a group -----

  /** An instance: it begins with the delimiter and holds no other, and no header or trailer field. */
  predicate IsInstance(fields: seq<Field>, delim: int) {
    && fields != [] && fields[0].tag == delim
    && (forall i :: 0 <= i < |fields| ==> !IsFraming(fields[i].tag))
    && (forall i :: 1 <= i < |fields| ==> fields[i].tag != delim)
  }

  function Flatten(instances: seq<seq<Field>>): seq<Field> {
    if instances == [] then [] else Flatten(instances[..|instances| - 1]) + instances[|instances| - 1]
  }

  /** The fields of each instance of a view. */
  function GroupFields(fields: seq<Field>, spans: seq<Span>): seq<seq<Field>>
    requires forall j :: 0 <= j < |spans| ==> spans[j].start + spans[j].length <= |fields|
  {
    seq(|spans|, j requires 0 <= j < |spans| => SpanFields(fields, spans[j]))
  }

  lemma {:induction false} FlattenHasNoFraming(instances: seq<seq<Field>>, delim: int)
    requires forall j :: 0 <= j < |instances| ==> IsInstance(instances[j], delim)
    ensures forall i :: 0 <= i < |Flatten(instances)| ==> !IsFraming(Flatten(instances)[i].tag)
  {
    if instances != [] {
      var m := |instances| - 1;
      FlattenHasNoFraming(instances[..m], delim);
      assert IsInstance(instances[m], delim);
      var front := Flatten(instances[..m]);
      assert forall i :: |front| <= i < |Flatten(instances)| ==> Flatten(instances)[i] == instances[m][i - |front|];
    }
  }

  /** Positions d, ended by stop, cut the instances out of the fields. */
  ghost predicate Cuts(fields: seq<Field>, d: seq<nat>, stop: nat, instances: seq<seq<Field>>) {
    && |d| == |instances|
    && (forall i :: 0 <= i < |d| ==> d[i] < stop <= |fields|)
    && (forall i, k :: 0 <= i < k < |d| ==> d[i] < d[k])
    && forall j :: 0 <= j < |d| ==> SpanFields(fields, SpanAt(d, stop, j)) == instances[j]
  }

  lemma CutsNext(fields: seq<Field>, d: seq<nat>, mid: nat, front: seq<seq<Field>>, hi: nat, last: seq<Field>)
    requires Cuts(fields, d, mid, front) && mid < hi <= |fields| && fields[mid..hi] == last
    ensures Cuts(fields, d + [mid], hi, front + [last])
  {
    var e, all := d + [mid], front + [last];
    forall j | 0 <= j < |e|
      ensures SpanFields(fields, SpanAt(e, hi, j)) == all[j]
    {
      if j < |d| {
        assert SpanAt(e, hi, j) == SpanAt(d, mid, j);
      }
    }
  }

  /** The delimiters of a flattened group stand where its instances begin. */
  lemma {:induction false} FlattenDelims(fields: seq<Field>, lo: nat, instances: seq<seq<Field>>, delim: int)
    requires forall j :: 0 <= j < |instances| ==> IsInstance(instances[j], delim)
    requires lo + |Flatten(instances)| <= |fields| && fields[lo..lo + |Flatten(instances)|] == Flatten(instances)
    ensures var hi := lo + |Flatten(instances)|;
            Cuts(fields, Delims(fields, lo, hi, delim), hi, instances)
  {
    hide Delims, Cuts, IsInstance;
    var hi := lo + |Flatten(instances)|;
    if instances == [] {
      NoDelims(fields, lo, delim);
      CutsNothing(fields, lo);
    } else {
      var m := |instances| - 1;
      var front, last := instances[..m], instances[m];
      var mid := lo + |Flatten(front)|;
      assert instances == front + [last];
      FlattenFront(fields, lo, mid, Flatten(front), last);
      FlattenDelims(fields, lo, front, delim);
      DelimsSplit(fields, lo, mid, hi, delim);
      InstanceIsNonEmpty(last, delim);
      OneDelim(fields, mid, hi, delim);
      CutsNext(fields, Delims(fields, lo, mid, delim), mid, front, hi, last);
    }
  }

  lemma CutsNothing(fields: seq<Field>, lo: nat)
    ensures Cuts(fields, [], lo, [])
  {
  }

  lemma InstanceIsNonEmpty(fields: seq<Field>, delim: int)
    requires IsInstance(fields, delim)
    ensures fields != []
  {
  }

  lemma FlattenFront(fields: seq<Field>, lo: nat, mid: nat, front: seq<Field>, last: seq<Field>)
    requires mid == lo + |front| && mid + |last| <= |fields| && fields[lo..mid + |last|] == front + last
    ensures fields[lo..mid] == front && fields[mid..mid + |last|] == last
  {
    var all := fields[lo..mid + |last|];
    assert fields[lo..mid] == all[..|front|];
    assert fields[mid..mid + |last|] == all[|front|..];
  }

  lemma {:induction false} OneDelim(fields: seq<Field>, lo: nat, hi: nat, delim: int)
    requires lo < hi <= |fields| && IsInstance(fields[lo..hi], delim)
    ensures Delims(fields, lo, hi, delim) == [lo]
    decreases hi
  {
    var s := fields[lo..hi];
    if hi == lo + 1 {
      assert fields[lo] == s[0];
      NoDelims(fields, lo, delim);
    } else {
      assert fields[hi - 1] == s[hi - 1 - lo];
      assert fields[lo..hi - 1] == s[..hi - 1 - lo];
      OneDelim(fields, lo, hi - 1, delim);
    }
  }

  /** The fields of a message whose body ends with a group. */
  function WithGroup(front: seq<Field>, groupTag: int32, instances: seq<seq<Field>>): seq<Field> {
    front + [Field(groupTag, Digits(|instances|))] + Flatten(instances)
  }

  lemma GroupFound(fields: seq<Field>, pre: seq<Field>, groupTag: int32, delim: int, instances: seq<seq<Field>>,
                   last: Field)
    requires fields == WithGroup(pre, groupTag, instances) + [last]
    requires |instances| <= CAPACITY
    requires forall f :: f in pre ==> f.tag != groupTag
    requires forall j :: 0 <= j < |instances| ==> IsInstance(instances[j], delim)
    requires last.tag == 10 && !IsFraming(delim)
    ensures var spans := GroupOf(fields, groupTag, delim);
            && (forall j :: 0 <= j < |spans| ==> spans[j].start + spans[j].length <= |fields|)
            && GroupFields(fields, spans) == instances
  {
    hide Flatten, IsInstance, Digits, Declared, IndexOfTag, GroupOf, GroupFields;
    var counter, flat := Field(groupTag, Digits(|instances|)), Flatten(instances);
    GroupParts(fields, pre, counter, flat, last);
    GroupFieldAt(fields, pre, groupTag, |instances|);
    GroupCutOut(fields, groupTag, delim, instances);
  }

  /** The group is cut out when it follows its counter and precedes the trailer. */
  lemma GroupCutOut(fields: seq<Field>, groupTag: int32, delim: int, instances: seq<seq<Field>>)
    requires IndexOfTag(fields, groupTag) < |fields| && Declared(fields, groupTag) == |instances| <= CAPACITY
    requires forall j :: 0 <= j < |instances| ==> IsInstance(instances[j], delim)
    requires var lo := IndexOfTag(fields, groupTag) + 1;
             var hi := lo + |Flatten(instances)|;
             hi < |fields| && fields[lo..hi] == Flatten(instances) && Ends(fields[hi], delim)
    ensures var spans := GroupOf(fields, groupTag, delim);
            && (forall j :: 0 <= j < |spans| ==> spans[j].start + spans[j].length <= |fields|)
            && GroupFields(fields, spans) == instances
  {
    hide Delims, StopFrom, Flatten, GroupFields, GroupOf, IsInstance, Cuts, Declared, IndexOfTag;
    var lo := IndexOfTag(fields, groupTag) + 1;
    FlattenHasNoFraming(instances, delim);
    StopsAfter(fields, lo, Flatten(instances), delim);
    FlattenDelims(fields, lo, instances, delim);
    GroupFieldsAre(fields, groupTag, delim, instances);
  }

  lemma GroupParts(fields: seq<Field>, pre: seq<Field>, counter: Field, flat: seq<Field>, last: Field)
    requires fields == pre + [counter] + flat + [last]
    ensures var lo := |pre| + 1;
            && lo + |flat| + 1 == |fields|
            && fields[..|pre|] == pre && fields[|pre|] == counter
            && fields[lo..lo + |flat|] == flat && fields[lo + |flat|] == last
  {
  }

  /** The scan stops right after fields without framing tags, at the trailer. */
  lemma StopsAfter(fields: seq<Field>, lo: nat, flat: seq<Field>, delim: int)
    requires lo + |flat| < |fields| && fields[lo..lo + |flat|] == flat
    requires forall i :: 0 <= i < |flat| ==> !IsFraming(flat[i].tag)
    requires Ends(fields[lo + |flat|], delim)
    ensures StopFrom(fields, lo, delim) == lo + |flat|
  {
    hide StopFrom;
    forall p | lo <= p < lo + |flat|
      ensures !Ends(fields[p], delim)
    {
      assert fields[p] == flat[p - lo];
    }
  }

  lemma GroupFieldsAre(fields: seq<Field>, groupTag: int32, delim: int, instances: seq<seq<Field>>)
    requires IndexOfTag(fields, groupTag) < |fields| && Declared(fields, groupTag) == |instances| <= CAPACITY
    requires var lo := IndexOfTag(fields, groupTag) + 1;
             var stop := StopFrom(fields, lo, delim);
             var d := Delims(fields, lo, stop, delim);
             Cuts(fields, d, stop, instances)
    ensures var spans := GroupOf(fields, groupTag, delim);
            && (forall j :: 0 <= j < |spans| ==> spans[j].start + spans[j].length <= |fields|)
            && GroupFields(fields, spans) == instances
  {
    hide Delims, StopFrom, IndexOfTag, Declared, SpanAt, SpanFields;
    var lo := IndexOfTag(fields, groupTag) + 1;
    var stop := StopFrom(fields, lo, delim);
    var d, spans := Delims(fields, lo, stop, delim), GroupOf(fields, groupTag, delim);
    forall j | 0 <= j < |spans|
      ensures spans[j] == SpanAt(d, stop, j) && spans[j].start + spans[j].length <= |fields|
    {
      SpanFits(d, stop, j);
    }
  }

  lemma SpanFits(d: seq<nat>, stop: nat, j: nat)
    requires j < |d|
    requires forall i :: 0 <= i < |d| ==> d[i] < stop
    requires forall i, k :: 0 <= i < k < |d| ==> d[i] < d[k]
    ensures SpanAt(d, stop, j).start + SpanAt(d, stop, j).length <= stop
  {
  }

  lemma GroupFieldAt(fields: seq<Field>, pre: seq<Field>, groupTag: int32, n: nat)
    requires n <= CAPACITY
    requires |pre| < |fields| && fields[..|pre|] == pre && fields[|pre|] == Field(groupTag, Digits(n))
    requires forall f :: f in pre ==> f.tag != groupTag
    ensures IndexOfTag(fields, groupTag) == |pre| && Declared(fields, groupTag) == n
  {
    var g := |pre|;
    assert forall i :: 0 <= i < g ==> fields[i] == pre[i] && pre[i] in pre;
    FieldAt(fields, groupTag, g);
    DigitsDenote(n);
    FromDigits(Digits(n));
  }

  /** Writing a message whose body ends with a group, reading it, and asking for the group gives it back. */
  lemma GroupRoundTrip(front: seq<Field>, groupTag: int32, delim: int, instances: seq<seq<Field>>, sep: Separator)
    requires front != [] && |instances| <= CAPACITY
    requires !IsFraming(groupTag) && !IsFraming(delim)
    requires forall f :: f in front ==> f.tag != groupTag
    requires forall j :: 0 <= j < |instances| ==> IsInstance(instances[j], delim)
    requires Writable(WithGroup(front, groupTag, instances), sep)
    ensures var parsed := Parsing(Wire(WithGroup(front, groupTag, instances), sep), sep);
            && parsed.Ok?
            && var spans := GroupOf(parsed.value, groupTag, delim);
               && (forall j :: 0 <= j < |spans| ==> spans[j].start + spans[j].length <= |parsed.value|)
               && GroupFields(parsed.value, spans) == instances
  {
    hide Wire, Parsing, BodyText, FrontText, Delims, StopFrom, GroupOf, GroupFields, IsInstance, Kept, Flatten,
         Digits, ThreeDigits, Writable;
    var fields := WithGroup(front, groupTag, instances);
    RoundTrip(fields, sep);
    var canonical := Canonical(fields, sep);
    var last := canonical[|canonical| - 1];
    var pre := canonical[..2] + Kept(front[1..]);
    KeptWithGroup(front, groupTag, delim, instances);
    HeaderHasNoCounter(canonical[..2], front, groupTag);
    CanonicalWithGroup(canonical, Kept(front[1..]), Field(groupTag, Digits(|instances|)), Flatten(instances));
    GroupFound(canonical, pre, groupTag, delim, instances, last);
  }

  lemma CanonicalWithGroup(canonical: seq<Field>, kept: seq<Field>, counter: Field, flat: seq<Field>)
    requires |canonical| >= 3 && canonical[2..|canonical| - 1] == kept + [counter] + flat
    ensures canonical == (canonical[..2] + kept) + [counter] + flat + [canonical[|canonical| - 1]]
  {
    var m := |canonical| - 1;
    assert canonical == canonical[..2] + canonical[2..m] + [canonical[m]];
    Assoc(canonical[..2], kept + [counter], flat);
    Assoc(canonical[..2], kept, [counter]);
  }

  lemma KeptWithGroup(front: seq<Field>, groupTag: int32, delim: int, instances: seq<seq<Field>>)
    requires front != [] && !IsFraming(groupTag)
    requires forall j :: 0 <= j < |instances| ==> IsInstance(instances[j], delim)
    ensures Kept(WithGroup(front, groupTag, instances)[1..])
         == Kept(front[1..]) + [Field(groupTag, Digits(|instances|))] + Flatten(instances)
  {
    hide Flatten, IsInstance, Kept, Digits;
    var counter, flat := Field(groupTag, Digits(|instances|)), Flatten(instances);
    FlattenHasNoFraming(instances, delim);
    KeptTail(counter, flat);
    TailOfSum(front, counter, flat);
    KeptAppend(front[1..], [counter] + flat);
    Assoc(Kept(front[1..]), [counter], flat);
  }

  lemma KeptTail(counter: Field, flat: seq<Field>)
    requires !IsFraming(counter.tag)
    requires forall i :: 0 <= i < |flat| ==> !IsFraming(flat[i].tag)
    ensures Kept([counter] + flat) == [counter] + flat
  {
    KeptAll([counter] + flat);
  }

  lemma TailOfSum(front: seq<Field>, counter: Field, flat: seq<Field>)
    requires front != []
    ensures (front + [counter] + flat)[1..] == front[1..] + ([counter] + flat)
  {
  }

  /** The fields before the counter: header and kept fields, none of them a counter. */
  lemma HeaderHasNoCounter(header: seq<Field>, front: seq<Field>, groupTag: int32)
    requires front != [] && !IsFraming(groupTag)
    requires forall f :: f in front ==> f.tag != groupTag
    requires |header| == 2 && header[0].tag == 8 && header[1].tag == 9
    ensures forall f :: f in header + Kept(front[1..]) ==> f.tag != groupTag
  {
    KeptMembers(front[1..]);
    forall f | f in front[1..]
      ensures f in front
    {
    }
  }
}
