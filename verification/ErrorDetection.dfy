/**
 Every change of a single byte before the CheckSum field of an accepted
 message makes parsing reject it.
 */
module ErrorDetection {
  import opened Bytes
  import opened Decimal
  import opened Codec
  import opened CodecLaws

  /** The position of the trailing CheckSum field of an accepted message. */
  function ChecksumStart(raw: bytes, sep: Separator): nat
    requires Parsing(raw, sep).Ok?
  {
    |SummedBytes(Scan(raw, sep, 0).value.tokens, sep)|
  }

  /** The tokens from a field boundary on segment the rest of the text. */
  lemma SegmentationFrom(raw: bytes, sep: Separator, r: Scanned, j: nat)
    requires Segmentation(raw, sep, r) && j <= |r.tokens|
    ensures var p := |Render(r.tokens[..j], sep)|;
            && p <= |raw|
            && raw[..p] == Render(r.tokens[..j], sep)
            && Segmentation(raw[p..], sep, Scanned(r.tokens[j..], r.tail))
  {
    RenderSplit(r.tokens, j, sep);
    Assoc(Render(r.tokens[..j], sep), Render(r.tokens[j..], sep), r.tail);
  }

  /** Two messages that end alike and whose CheckSum fields start at the same place have equal sums. */
  lemma SameStartSameSum(raw: bytes, other: bytes, sep: Separator, a: Scanned, b: Scanned, p: nat)
    requires WellFormed(raw, sep, a) && WellFormed(other, sep, b)
    requires |SummedBytes(a.tokens, sep)| == p == |SummedBytes(b.tokens, sep)|
    requires p <= |raw| == |other| && other[p..] == raw[p..]
    ensures Sum(raw[..p]) % 256 == Sum(other[..p]) % 256
  {
    var m, n := |a.tokens| - 1, |b.tokens| - 1;
    SegmentationFrom(raw, sep, a, m);
    SegmentationFrom(other, sep, b, n);
    SegmentationIsUnique(raw[p..], sep, Scanned(a.tokens[m..], a.tail), Scanned(b.tokens[n..], b.tail));
    assert a.tokens[m] == a.tokens[m..][0] == b.tokens[n..][0] == b.tokens[n];
  }

  lemma SumsDiffer(raw: bytes, p: nat, i: nat, c: byte)
    requires i < p <= |raw| && c != raw[i]
    ensures Sum(raw[i := c][..p]) % 256 != Sum(raw[..p]) % 256
  {
    assert raw[i := c][..p] == raw[..p][i := c];
    SumUpdate(raw[..p], i, c);
    var d := c as int - raw[i] as int;
    assert Sum(raw[..p][i := c]) == Sum(raw[..p]) + d;
    NotMultiple(Sum(raw[..p]), d);
  }

  lemma NotMultiple(s: int, d: int)
    requires -256 < d < 256 && d != 0
    ensures (s + d) % 256 != s % 256
  {
  }

  /** A byte before the separator that closes the summed bytes: the CheckSum field is found where it was. */
  lemma StartIsKept(raw: bytes, sep: Separator, a: Scanned, i: nat, c: byte, b: Scanned)
    requires WellFormed(raw, sep, a) && i + 1 < |SummedBytes(a.tokens, sep)| <= |raw|
    requires WellFormed(raw[i := c], sep, b)
    ensures |SummedBytes(b.tokens, sep)| == |SummedBytes(a.tokens, sep)|
  {
    hide LengthHolds, ChecksumHolds, Render, GoodToken, Blank;
    var other, p, m := raw[i := c], |SummedBytes(a.tokens, sep)|, |a.tokens| - 1;
    SegmentationFrom(raw, sep, a, m);
    assert other[p..] == raw[p..];
    SummedEnd(a.tokens, sep);
    assert raw[p - 1] == raw[..p][p - 1] == sep == other[p - 1];
    LastFieldIsKept(other, sep, b, p, Scanned(a.tokens[m..], a.tail));
  }

  /** After a separator, a text that ends in one field has it as its last field. */
  lemma LastFieldIsKept(other: bytes, sep: Separator, b: Scanned, p: nat, last: Scanned)
    requires Segmentation(other, sep, b) && 0 < p <= |other| && other[p - 1] == sep
    requires Segmentation(other[p..], sep, last) && |last.tokens| == 1
    ensures b.tokens != [] && |SummedBytes(b.tokens, sep)| == p
  {
    hide Render, GoodToken, Blank;
    SegmentationHasEquals(other[p..], sep, last);
    BoundaryInside(other, sep, b, p);
    var j := BoundaryAfterSeparator(b.tokens, sep, p);
    SegmentationFrom(other, sep, b, j);
    SegmentationIsUnique(other[p..], sep, last, Scanned(b.tokens[j..], b.tail));
    assert |b.tokens[j..]| == 1;
  }

  /** A position followed by some '=' lies before the blank tail. */
  lemma BoundaryInside(raw: bytes, sep: Separator, r: Scanned, p: nat)
    requires Segmentation(raw, sep, r) && p <= |raw| && '=' in raw[p..]
    requires 0 < p && raw[p - 1] == sep
    ensures p <= |Render(r.tokens, sep)| && Render(r.tokens, sep)[p - 1] == sep
  {
    var n := |Render(r.tokens, sep)|;
    forall q | n <= q < |raw|
      ensures raw[q] != '='
    {
      assert raw[q] == r.tail[q - n] && IsBlank(r.tail[q - n], sep);
    }
    var i :| 0 <= i < |raw[p..]| && raw[p..][i] == '=';
    assert raw[p + i] == '=';
  }

  /** The first two fields, when a text starts with them. */
  lemma FirstTwo(raw: bytes, sep: Separator, r: Scanned, s: Token, t: Token, left: bytes)
    requires Segmentation(raw, sep, r) && GoodToken(s, sep) && GoodToken(t, sep)
    requires raw == TokenBytes(s, sep) + (TokenBytes(t, sep) + left)
    ensures |r.tokens| >= 2 && r.tokens[0] == s && r.tokens[1] == t
    ensures Segmentation(left, sep, Scanned(r.tokens[2..], r.tail))
  {
    SegmentationCons(raw, sep, r, s, TokenBytes(t, sep) + left);
    SegmentationCons(TokenBytes(t, sep) + left, sep, Scanned(r.tokens[1..], r.tail), t, left);
    assert r.tokens[1..][1..] == r.tokens[2..];
  }

  lemma SplitTwo(tokens: seq<Token>, sep: Separator)
    requires |tokens| >= 3
    ensures SummedBytes(tokens, sep)
         == TokenBytes(tokens[0], sep) + (TokenBytes(tokens[1], sep) + BodyBytes(tokens, sep))
  {
    var front := tokens[..|tokens| - 1];
    assert front[1..][1..] == tokens[2..|tokens| - 1];
    assert front[0] == tokens[0] && front[1..][0] == tokens[1];
    assert Render(front[1..], sep) == TokenBytes(tokens[1], sep) + BodyBytes(tokens, sep);
  }

  lemma SameLength(a: seq<Token>, b: seq<Token>, sep: Separator)
    requires |a| >= 3 && |b| >= 3 && a[0] == b[0] && a[1] == b[1]
    requires LengthHolds(a, sep) && LengthHolds(b, sep)
    requires |SummedBytes(a, sep)| < 0x8000_0000 && |SummedBytes(b, sep)| < 0x8000_0000
    ensures |SummedBytes(a, sep)| == |SummedBytes(b, sep)|
  {
    hide SummedBytes, BodyBytes, TokenBytes, FromChars;
    SplitTwo(a, sep);
    SplitTwo(b, sep);
  }

  /** Changing the separator before the CheckSum field of a message with a body. */
  lemma LengthFixesStart(raw: bytes, sep: Separator, a: Scanned, c: byte, b: Scanned, p: nat)
    requires |raw| < 0x8000_0000
    requires WellFormed(raw, sep, a) && BodyBytes(a.tokens, sep) != []
    requires |SummedBytes(a.tokens, sep)| == p && 0 < p <= |raw|
    requires WellFormed(raw[p - 1 := c], sep, b)
    ensures |SummedBytes(b.tokens, sep)| == p
  {
    hide LengthHolds, ChecksumHolds, Render, TokenBytes, GoodToken, Blank, BodyBytes;
    var other := raw[p - 1 := c];
    SegmentationFrom(raw, sep, a, |a.tokens| - 1);
    SegmentationFrom(other, sep, b, |b.tokens| - 1);
    SplitTwo(a.tokens, sep);
    var s, t := TokenBytes(a.tokens[0], sep), TokenBytes(a.tokens[1], sep);
    SameFront(raw, other, s, t, BodyBytes(a.tokens, sep), p);
    FirstTwo(other, sep, b, a.tokens[0], a.tokens[1], other[|s| + |t|..]);
    SameLength(a.tokens, b.tokens, sep);
  }

  lemma SameFront(raw: bytes, other: bytes, s: bytes, t: bytes, body: bytes, p: nat)
    requires p <= |raw| == |other| && raw[..p] == s + (t + body) && body != []
    requires other[..p - 1] == raw[..p - 1]
    ensures other == s + (t + other[|s| + |t|..])
  {
    var n := |s| + |t|;
    assert raw[..p][..n] == s + t;
    assert other[..n] == other[..p - 1][..n] == raw[..p - 1][..n] == raw[..p][..n];
    assert other == other[..n] + other[n..];
  }

  /** Changing that separator when the body is empty merges the last two fields. */
  lemma EmptyBodyMerges(raw: bytes, sep: Separator, a: Scanned, c: byte, b: Scanned, p: nat)
    requires WellFormed(raw, sep, a) && BodyBytes(a.tokens, sep) == []
    requires |SummedBytes(a.tokens, sep)| == p && 0 < p <= |raw| && c != sep
    ensures !WellFormed(raw[p - 1 := c], sep, b)
  {
    var other := raw[p - 1 := c];
    var s, t, last := a.tokens[0], a.tokens[1], a.tokens[|a.tokens| - 1];
    EmptyBodyText(raw, sep, a);
    MergedText(raw, sep, s, t, last, a.tail, c);
    MergedIsGood(t, last, c, sep);
    if WellFormed(other, sep, b) {
      FirstTwo(other, sep, b, s, Merged(t, last, c), a.tail);
      assert '=' !in a.tail;
      SegmentationHasEquals(a.tail, sep, Scanned(b.tokens[2..], b.tail));
    }
  }

  lemma EmptyBodyText(raw: bytes, sep: Separator, a: Scanned)
    requires WellFormed(raw, sep, a) && BodyBytes(a.tokens, sep) == []
    ensures var s, t, last := TokenBytes(a.tokens[0], sep), TokenBytes(a.tokens[1], sep), a.tokens[|a.tokens| - 1];
            && |SummedBytes(a.tokens, sep)| == |s| + |t|
            && raw == s + t + (TokenBytes(last, sep) + a.tail)
  {
    hide LengthHolds, ChecksumHolds, Render, TokenBytes;
    var m := |a.tokens| - 1;
    var p := |SummedBytes(a.tokens, sep)|;
    SegmentationFrom(raw, sep, a, m);
    SplitTwo(a.tokens, sep);
    assert a.tokens[m..] == [a.tokens[m]];
    RenderOne(a.tokens[m], sep);
    assert raw == raw[..p] + raw[p..];
  }

  function Merged(t: Token, last: Token, c: byte): Token {
    Token(t.tag, t.text, t.value + [c] + last.text + ['='] + last.value)
  }

  lemma MergedIsGood(t: Token, last: Token, c: byte, sep: Separator)
    requires GoodToken(t, sep) && GoodToken(last, sep) && c != sep
    ensures GoodToken(Merged(t, last, c), sep)
  {
    TagTextBytes(last.text);
  }

  lemma MergedText(raw: bytes, sep: Separator, s: Token, t: Token, last: Token, tail: bytes, c: byte)
    requires raw == TokenBytes(s, sep) + TokenBytes(t, sep) + (TokenBytes(last, sep) + tail)
    ensures var p := |TokenBytes(s, sep)| + |TokenBytes(t, sep)|;
            raw[p - 1 := c] == TokenBytes(s, sep) + (TokenBytes(Merged(t, last, c), sep) + tail)
  {
    var x := t.text + ['='] + t.value;
    assert TokenBytes(t, sep) == x + [sep];
    var p := |TokenBytes(s, sep)| + |x| + 1;
    assert raw == TokenBytes(s, sep) + x + [sep] + (TokenBytes(last, sep) + tail);
    assert raw[p - 1 := c] == TokenBytes(s, sep) + x + [c] + (TokenBytes(last, sep) + tail);
    var y := last.text + ['='] + last.value;
    assert TokenBytes(last, sep) == y + [sep];
    assert t.value + [c] + last.text + ['='] + last.value == t.value + [c] + y;
    assert TokenBytes(Token(t.tag, t.text, t.value + [c] + y), sep) == x + [c] + y + [sep];
  }

  /** Were the changed message accepted, its CheckSum field would be found where it was. */
  lemma ChangeKeepsStart(raw: bytes, sep: Separator, a: Scanned, i: nat, c: byte, b: Scanned, p: nat)
    requires |raw| < 0x8000_0000
    requires WellFormed(raw, sep, a) && |SummedBytes(a.tokens, sep)| == p
    requires i < p <= |raw| && c != raw[i]
    requires WellFormed(raw[i := c], sep, b)
    ensures |SummedBytes(b.tokens, sep)| == p
  {
    hide LengthHolds, ChecksumHolds, TokenBytes, GoodToken, BodyBytes;
    if i + 1 < p {
      StartIsKept(raw, sep, a, i, c, b);
    } else if BodyBytes(a.tokens, sep) != [] {
      LengthFixesStart(raw, sep, a, c, b, p);
    } else {
      SegmentationFrom(raw, sep, a, |a.tokens| - 1);
      SummedEnd(a.tokens, sep);
      assert raw[p - 1] == raw[..p][p - 1] == sep;
      EmptyBodyMerges(raw, sep, a, c, b, p);
    }
  }

  /** An accepted message with one byte before its CheckSum field changed is rejected. */
  lemma SingleByteErrorIsDetected(raw: bytes, sep: Separator, i: nat, c: byte)
    requires |raw| < 0x8000_0000
    requires Parsing(raw, sep).Ok?
    requires i < ChecksumStart(raw, sep) <= |raw| && c != raw[i]
    ensures Parsing(raw[i := c], sep).Err?
  {
    var other, p := raw[i := c], ChecksumStart(raw, sep);
    var a := ParsingIsSound(raw, sep);
    ParsingIsComplete(raw, sep, a);
    if Parsing(other, sep).Ok? {
      var b := ParsingIsSound(other, sep);
      ChangeKeepsStart(raw, sep, a, i, c, b, p);
      SameStartSameSum(raw, other, sep, a, b, p);
      SumsDiffer(raw, p, i, c);
    }
  }
}
