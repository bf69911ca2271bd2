/**
 From fields to bytes to chunks and back: a stream of written messages, cut
 anywhere but after the first byte of a message, comes out as those messages.
 */
module Stream {
  import opened Bytes
  import opened Codec
  import opened CodecLaws
  import opened Framing
  import opened Framability

  function Wires(messages: seq<seq<Field>>, sep: Separator): (w: seq<bytes>)
    requires forall i :: 0 <= i < |messages| ==> messages[i] != []
    ensures |w| == |messages|
  {
    seq(|messages|, i requires 0 <= i < |messages| => Wire(messages[i], sep))
  }

  // ----- cutting messages out of a stream -----

  ghost predicate AllFramable(wires: seq<bytes>, sep: Separator) {
    forall i :: 0 <= i < |wires| ==> Framable(wires[i], sep)
  }

  /** A framable message is cut out of whatever follows it. */
  lemma FirstIsCut(w: bytes, rest: bytes, sep: Separator)
    requires Framable(w, sep)
    ensures FromHead(w + rest) == w + rest && MessageEnd(w + rest, sep) == Some(|w|)
  {
    hide MessageEnd, OccursAt, IndexOfText;
    StartIsKept(w, rest);
    EndAppend(w, rest, sep);
  }

  lemma StartIsKept(p: bytes, rest: bytes)
    requires OccursAt(p, HEAD, 0)
    ensures FromHead(p + rest) == p + rest
  {
    OccursInAppend(p, rest, HEAD, 0);
    IndexOfTextIs(p + rest, HEAD, 0);
  }

  /** A proper beginning of a framable message: nothing is cut out, and only a lone '8' is not kept. */
  lemma BeginningStays(w: bytes, p: bytes, sep: Separator)
    requires Framable(w, sep) && p <= w && p != w
    ensures MessageEnd(FromHead(p), sep).None?
    ensures |p| == 1 ==> FromHead(p) == [] && p[0] == '8' && w[1] == '='
    ensures |p| != 1 ==> FromHead(p) == p
  {
    assert w[0..2] == HEAD;
    if |p| >= 2 {
      assert p[0..2] == w[0..2];
      assert p + [] == p;
      StartIsKept(p, []);
      BeginningHasNoEnd(w, p, sep);
    } else {
      EmptyHasNoEnd(sep);
    }
  }

  lemma BeginningHasNoEnd(w: bytes, p: bytes, sep: Separator)
    requires MessageEnd(w, sep) == Some(|w|) && p <= w && p != w
    ensures MessageEnd(p, sep).None?
  {
    hide MessageEnd;
    assert p + w[|p|..] == w;
    if MessageEnd(p, sep).Some? {
      EndAppend(p, w[|p|..], sep);
    }
  }

  // ----- where chunks end -----

  /** Some message of the stream starts at an offset. */
  predicate StartsAt(wires: seq<bytes>, offset: int) {
    wires != [] && (offset == 0 || StartsAt(wires[1..], offset - |wires[0]|))
  }

  /** Some chunk ends right after the first byte of a message, when the chunks begin at an offset of the stream. */
  predicate EndsAfterFirstByte(offset: nat, chunks: seq<bytes>, wires: seq<bytes>)
    decreases |chunks|
  {
    chunks != [] &&
    (|| StartsAt(wires, offset + |chunks[0]| - 1)
     || EndsAfterFirstByte(offset + |chunks[0]|, chunks[1..], wires))
  }

  lemma {:induction false} OffsetsShift(offset: nat, chunks: seq<bytes>, wires: seq<bytes>)
    requires wires != [] && |wires[0]| >= 2 && offset >= |wires[0]|
    ensures EndsAfterFirstByte(offset, chunks, wires) == EndsAfterFirstByte(offset - |wires[0]|, chunks, wires[1..])
    decreases |chunks|
  {
    if chunks != [] {
      OffsetsShift(offset + |chunks[0]|, chunks[1..], wires);
    }
  }

  lemma {:induction false} NegativeStarts(wires: seq<bytes>, offset: int)
    requires offset < 0
    ensures !StartsAt(wires, offset)
    decreases |wires|
  {
    if wires != [] {
      NegativeStarts(wires[1..], offset - |wires[0]|);
    }
  }

  /** Before the end of the first message, only offset zero is a start. */
  lemma StartsInside(wires: seq<bytes>, offset: int)
    requires wires != [] && offset < |wires[0]|
    ensures StartsAt(wires, offset) <==> offset == 0
  {
    NegativeStarts(wires[1..], offset - |wires[0]|);
  }

  // ----- losing a start means ending after a first byte -----

  lemma LosesDependsOnBuffer(r: bytes, c: bytes, s: bytes, d: bytes, rest: seq<bytes>, sep: Separator)
    requires Leftover(r + c, sep) == Leftover(s + d, sep) && Drain(r + c, sep).residue == Drain(s + d, sep).residue
    ensures LosesStart(r, [c] + rest, sep) == LosesStart(s, [d] + rest, sep)
  {
    hide Leftover, Drain, Severed;
    assert ([c] + rest)[1..] == rest && ([d] + rest)[1..] == rest;
  }

  lemma EndsDependsOnBuffer(o: nat, c: bytes, rest: seq<bytes>, d: bytes, wires: seq<bytes>)
    requires wires != [] && |wires[0]| >= 2 && o + |c| == |wires[0]| + |d|
    ensures EndsAfterFirstByte(o, [c] + rest, wires) == EndsAfterFirstByte(0, [d] + rest, wires[1..])
  {
    assert ([c] + rest)[1..] == rest && ([d] + rest)[1..] == rest;
    OffsetsShift(o + |c|, rest, wires);
  }

  /** The buffer reaches past the first message: drop that message from stream and buffer. */
  lemma DropFirst(r: bytes, chunks: seq<bytes>, wires: seq<bytes>, sep: Separator) returns (shorter: seq<bytes>)
    requires wires != [] && chunks != [] && Framable(wires[0], sep)
    requires Concat(wires) == r + Concat(chunks) && |r| + |chunks[0]| >= |wires[0]|
    ensures |shorter| == |chunks| && Concat(wires[1..]) == Concat(shorter)
    ensures LosesStart(r, chunks, sep) == LosesStart([], shorter, sep)
    ensures EndsAfterFirstByte(|r|, chunks, wires) == EndsAfterFirstByte(0, shorter, wires[1..])
  {
    hide Drain, Leftover, MessageEnd, LosesStart, EndsAfterFirstByte;
    var w, x, rest := wires[0], r + chunks[0], chunks[1..];
    SplitBuffer(r, chunks, w, Concat(wires[1..]));
    var y := x[|w|..];
    shorter := [y] + rest;
    assert shorter[1..] == rest;
    assert chunks == [chunks[0]] + rest;
    FirstIsCut(w, y, sep);
    DrainStep(x, sep, |w|);
    assert [] + y == y;
    LosesDependsOnBuffer(r, chunks[0], [], y, rest, sep);
    FramableIsLong(w, sep);
    EndsDependsOnBuffer(|r|, chunks[0], rest, y, wires);
  }

  lemma SplitBuffer(r: bytes, chunks: seq<bytes>, w: bytes, others: bytes)
    requires chunks != [] && w + others == r + Concat(chunks) && |r| + |chunks[0]| >= |w|
    ensures var x := r + chunks[0];
            x == w + x[|w|..] && others == x[|w|..] + Concat(chunks[1..])
  {
    var x, rest := r + chunks[0], Concat(chunks[1..]);
    Assoc(r, chunks[0], rest);
    var s := w + others;
    assert s == x + rest;
    assert x[..|w|] == s[..|w|] == w;
    assert others == s[|w|..] == x[|w|..] + rest;
  }

  lemma FramableIsLong(w: bytes, sep: Separator)
    requires Framable(w, sep)
    ensures |w| >= 2
  {
  }

  lemma BufferIsBeginning(r: bytes, chunks: seq<bytes>, wires: seq<bytes>)
    requires wires != [] && chunks != []
    requires Concat(wires) == r + Concat(chunks) && |r| + |chunks[0]| < |wires[0]|
    ensures var w, x, rest := wires[0], r + chunks[0], Concat(chunks[1..]);
            && Concat(wires) == x + rest
            && x == w[..|x|]
            && rest != [] && rest[0] == w[|x|]
  {
    var w, x, rest := wires[0], r + chunks[0], Concat(chunks[1..]);
    Assoc(r, chunks[0], rest);
    var s := Concat(wires);
    assert s == w + Concat(wires[1..]) == x + rest;
    assert x == s[..|x|] == w[..|x|];
    assert rest[0] == s[|x|] == w[|x|];
  }

  /** The buffer ends inside the first message: the next chunk decides. */
  lemma KeepFirst(r: bytes, chunks: seq<bytes>, wires: seq<bytes>, sep: Separator)
    requires wires != [] && chunks != [] && Framable(wires[0], sep)
    requires Concat(wires) == r + Concat(chunks) && |r| + |chunks[0]| < |wires[0]|
    ensures var x := r + chunks[0];
            && Concat(wires) == x + Concat(chunks[1..])
            && LosesStart(r, chunks, sep) == (|x| == 1 || LosesStart(x, chunks[1..], sep))
            && EndsAfterFirstByte(|r|, chunks, wires) == (|x| == 1 || EndsAfterFirstByte(|x|, chunks[1..], wires))
  {
    hide Drain, Leftover, MessageEnd, FromHead, Concat, Framable, StartsAt;
    var w, x := wires[0], r + chunks[0];
    BufferIsBeginning(r, chunks, wires);
    BeginningStays(w, x, sep);
    DrainEnd(x, sep);
    StartsInside(wires, |x| - 1);
  }

  lemma {:induction false} NoStreamLosesNothing(chunks: seq<bytes>, sep: Separator)
    requires Concat(chunks) == []
    ensures !LosesStart([], chunks, sep)
    decreases |chunks|
  {
    if chunks != [] {
      assert [] + chunks[0] == [];
      EmptyHasNoEnd(sep);
      NoStreamLosesNothing(chunks[1..], sep);
    }
  }

  lemma {:induction false} NoStreamEndsNowhere(offset: nat, chunks: seq<bytes>)
    ensures !EndsAfterFirstByte(offset, chunks, [])
    decreases |chunks|
  {
    if chunks != [] {
      NoStreamEndsNowhere(offset + |chunks[0]|, chunks[1..]);
    }
  }

  /** On a stream of framable messages, losing a start is ending a chunk after a message's first byte. */
  lemma {:induction false} LossIsAfterFirstByte(r: bytes, chunks: seq<bytes>, wires: seq<bytes>, sep: Separator)
    requires AllFramable(wires, sep) && Concat(wires) == r + Concat(chunks)
    ensures LosesStart(r, chunks, sep) <==> EndsAfterFirstByte(|r|, chunks, wires)
    decreases |wires| + |chunks|
  {
    hide Framable, AllFramable, Drain, Leftover, MessageEnd, FromHead;
    if wires == [] {
      assert r == [] && Concat(chunks) == [];
      NoStreamLosesNothing(chunks, sep);
      NoStreamEndsNowhere(0, chunks);
    } else if chunks != [] {
      AllFramableTail(wires, sep);
      if |r| + |chunks[0]| >= |wires[0]| {
        var shorter := DropFirst(r, chunks, wires, sep);
        assert [] + Concat(shorter) == Concat(shorter);
        LossIsAfterFirstByte([], shorter, wires[1..], sep);
      } else {
        KeepFirst(r, chunks, wires, sep);
        LossIsAfterFirstByte(r + chunks[0], chunks[1..], wires, sep);
      }
    }
  }

  // ----- the whole stream -----

  lemma AllFramableTail(wires: seq<bytes>, sep: Separator)
    requires AllFramable(wires, sep) && wires != []
    ensures Framable(wires[0], sep) && AllFramable(wires[1..], sep)
  {
    hide Framable;
  }

  lemma TrimOfEmpty()
    ensures FromHead([]) == []
  {
  }

  lemma {:induction false} StreamDrains(wires: seq<bytes>, sep: Separator)
    requires AllFramable(wires, sep)
    ensures Drain(Concat(wires), sep) == Drained(wires, [])
    decreases |wires|
  {
    hide Framable, AllFramable, Drain, MessageEnd, FromHead;
    if wires == [] {
      TrimOfEmpty();
      EmptyHasNoEnd(sep);
      DrainEnd([], sep);
    } else {
      var w, others := wires[0], wires[1..];
      AllFramableTail(wires, sep);
      StreamDrains(others, sep);
      var rest := Concat(others);
      FirstIsCut(w, rest, sep);
      DrainStep(w + rest, sep, |w|);
      SumParts(w, rest);
      assert wires == [w] + others;
    }
  }

  /** Messages that can be written, read back and framed. */
  ghost predicate Transmissible(messages: seq<seq<Field>>, sep: Separator) {
    forall i :: 0 <= i < |messages| ==>
      && messages[i] != [] && Writable(messages[i], sep)
      && FramesWhole(messages[i])
  }

  /**
   The stream round trip: writing any messages, concatenating them, cutting the
   stream into chunks and feeding these to the receive buffer gives the written
   messages in order and an empty buffer, exactly when no chunk ends right
   after the first byte of a message; and each of them is read back as its
   canonical fields.
   */
  lemma StreamRoundTrip(messages: seq<seq<Field>>, chunks: seq<bytes>, sep: Separator)
    requires Transmissible(messages, sep)
    requires Concat(chunks) == Concat(Wires(messages, sep))
    ensures FeedAll([], chunks, sep) == Drained(Wires(messages, sep), [])
            <==> !EndsAfterFirstByte(0, chunks, Wires(messages, sep))
    ensures forall i :: 0 <= i < |messages| ==>
              Parsing(Wires(messages, sep)[i], sep) == Ok(Canonical(messages[i], sep))
  {
    hide Wire, Writable, Drain, LosesStart, EndsAfterFirstByte, Framable, FeedAll, Parsing, FrontText, Concat,
         Canonical, IndexOfText;
    var wires := Wires(messages, sep);
    forall i | 0 <= i < |messages|
      ensures Framable(wires[i], sep) && Parsing(wires[i], sep) == Ok(Canonical(messages[i], sep))
    {
      WireIsFramable(messages[i], sep);
      RoundTrip(messages[i], sep);
    }
    StreamDrains(wires, sep);
    EmptyIsSettled(sep);
    assert [] + Concat(chunks) == Concat(chunks);
    RunIndependence([], chunks, sep);
    LossIsAfterFirstByte([], chunks, wires, sep);
  }

  lemma EmptyIsSettled(sep: Separator)
    ensures Drain([], sep) == Drained([], [])
  {
    EmptyHasNoEnd(sep);
  }
}
