/**
 The message writer: fields are written into a caller's buffer behind a
 five-digit length slot, the rest is shifted in place to fit the real length,
 the length is patched in and the checksum appended.
 */
module Serializer {
  import opened Bytes
  import opened Decimal
  import opened Codec
  import opened CodecLaws

  datatype SerializeError = InvalidArgument | NoBufferSpace

  // ----- moving bytes inside the buffer -----

  /** The text s with s[first..last] copied to position dest. */
  function Moved(s: bytes, first: nat, last: nat, dest: nat): bytes
    requires first <= last <= |s| && dest + (last - first) <= |s|
  {
    s[..dest] + s[first..last] + s[dest + (last - first)..]
  }

  lemma MovedIs(was: bytes, now: bytes, first: nat, last: nat, dest: nat)
    requires first <= last <= |was| == |now| && dest + (last - first) <= |was|
    requires forall j :: dest <= j < dest + (last - first) ==> now[j] == was[j - dest + first]
    requires forall j :: 0 <= j < dest || dest + (last - first) <= j < |now| ==> now[j] == was[j]
    ensures now == Moved(was, first, last, dest)
  {
  }

  /** Copies a range down, from its first byte to its last; the ranges may overlap. */
  method MoveForward(a: array<byte>, first: nat, last: nat, dest: nat)
    requires dest <= first <= last <= a.Length
    modifies a
    ensures a[..] == Moved(old(a[..]), first, last, dest)
  {
    ghost var was := a[..];
    var n := last - first;
    for i := 0 to n
      invariant forall j :: dest <= j < dest + i ==> a[j] == was[j + (first - dest)]
      invariant forall j :: 0 <= j < dest || dest + i <= j < a.Length ==> a[j] == was[j]
    {
      a[dest + i] := a[first + i];
    }
    MovedIs(was, a[..], first, last, dest);
  }

  /** Copies a range up, from its last byte to its first; the ranges may overlap. */
  method MoveBackward(a: array<byte>, first: nat, last: nat, destLast: nat)
    requires first <= last <= destLast <= a.Length
    modifies a
    ensures a[..] == Moved(old(a[..]), first, last, destLast - (last - first))
  {
    ghost var was := a[..];
    var n := last - first;
    var dest := destLast - n;
    var i := n;
    while i > 0
      invariant 0 <= i <= n
      invariant forall j :: dest + i <= j < destLast ==> a[j] == was[j - (dest - first)]
      invariant forall j :: 0 <= j < dest + i || destLast <= j < a.Length ==> a[j] == was[j]
    {
      i := i - 1;
      a[dest + i] := a[first + i];
    }
    MovedIs(was, a[..], first, last, dest);
  }

  // ----- writing at the offset -----

  /** The text w with s written over it at a position. */
  function Written(w: bytes, offset: nat, s: bytes): (r: bytes)
    requires offset + |s| <= |w|
    ensures |r| == |w|
  {
    w[..offset] + s + w[offset + |s|..]
  }

  lemma WrittenIs(was: bytes, now: bytes, offset: nat, s: bytes)
    requires |was| == |now| && offset + |s| <= |was|
    requires forall j :: offset <= j < offset + |s| ==> now[j] == s[j - offset]
    requires forall j :: 0 <= j < offset || offset + |s| <= j < |now| ==> now[j] == was[j]
    ensures now == Written(was, offset, s)
  {
  }

  lemma WrittenTwice(w: bytes, offset: nat, s: bytes, t: bytes)
    requires offset + |s| + |t| <= |w|
    ensures Written(Written(w, offset, s), offset + |s|, t) == Written(w, offset, s + t)
  {
    assert w[offset + |s|..][|t|..] == w[offset + |s| + |t|..];
  }

  /** Writes s at the offset if it fits. */
  method WriteText(buffer: array<byte>, offset: nat, s: bytes) returns (ok: bool)
    requires offset <= buffer.Length
    modifies buffer
    ensures ok <==> offset + |s| <= buffer.Length
    ensures buffer[..] == if ok then Written(old(buffer[..]), offset, s) else old(buffer[..])
  {
    if offset + |s| > buffer.Length {
      return false;
    }
    ghost var was := buffer[..];
    for i := 0 to |s|
      invariant forall j :: offset <= j < offset + i ==> buffer[j] == s[j - offset]
      invariant forall j :: 0 <= j < offset || offset + i <= j < buffer.Length ==> buffer[j] == was[j]
    {
      buffer[offset + i] := s[i];
    }
    WrittenIs(was, buffer[..], offset, s);
    return true;
  }

  /** Writes tag text, '=', value and separator at the offset if they all fit. */
  method WriteTagValue(buffer: array<byte>, offset: nat, f: Field, sep: Separator) returns (ok: bool)
    requires offset <= buffer.Length
    modifies buffer
    ensures ok <==> offset + |TokenBytes(TokenOf(f), sep)| <= buffer.Length
    ensures ok ==> buffer[..] == Written(old(buffer[..]), offset, TokenBytes(TokenOf(f), sep))
  {
    hide Written, ToChars;
    ghost var was := buffer[..];
    var tagText := ToChars(f.tag);
    ok := WriteText(buffer, offset, tagText);
    if !ok { return; }
    ok := WriteText(buffer, offset + |tagText|, ['=']);
    if !ok { return; }
    WrittenTwice(was, offset, tagText, ['=']);
    ok := WriteText(buffer, offset + |tagText| + 1, f.value);
    if !ok { return; }
    WrittenTwice(was, offset, tagText + ['='], f.value);
    ok := WriteText(buffer, offset + |tagText| + 1 + |f.value|, [sep]);
    if !ok { return; }
    WrittenTwice(was, offset, tagText + ['='] + f.value, [sep]);
  }

  // ----- fitting the length -----

  /** The width of the slot the body length is patched into. */
  const PLACEHOLDER: nat := 5

  /** Replaces the five bytes at the slot by the digits, shifting what follows up or down. */
  method FitLength(buffer: array<byte>, slot: nat, offset: nat, digits: bytes) returns (ok: bool, end: nat)
    requires slot + PLACEHOLDER <= offset <= buffer.Length < 0x8000_0000
    requires digits != []
    modifies buffer
    ensures ok <==> offset + |digits| <= buffer.Length + PLACEHOLDER
    ensures ok ==> end + PLACEHOLDER == offset + |digits|
    ensures ok ==>
              && end <= buffer.Length
              && buffer[..end] == old(buffer[..slot]) + digits + old(buffer[slot + PLACEHOLDER..offset])
    ensures ok ==> forall j :: end <= j < buffer.Length && offset <= j ==> buffer[j] == old(buffer[j])
  {
    hide Moved, Written;
    ghost var was := buffer[..];
    var diff: int := |digits| - PLACEHOLDER;
    end := offset;
    if diff != 0 {
      if offset + diff > buffer.Length {
        return false, end;
      }
      var shiftStart := slot + PLACEHOLDER;
      if diff > 0 {
        MoveBackward(buffer, shiftStart, offset, offset + diff);
      } else {
        MoveForward(buffer, shiftStart, offset, shiftStart + diff);
      }
      end := offset + diff;
    } else {
      MovedNowhere(was, slot + PLACEHOLDER, offset);
    }
    ok := WriteText(buffer, slot, digits);
    FittedIs(was, buffer[..], slot, offset, digits, end);
  }

  lemma MovedNowhere(w: bytes, first: nat, last: nat)
    requires first <= last <= |w|
    ensures Moved(w, first, last, first) == w
  {
  }

  lemma FittedIs(was: bytes, now: bytes, slot: nat, offset: nat, digits: bytes, end: nat)
    requires slot + PLACEHOLDER <= offset <= |was|
    requires end + PLACEHOLDER == offset + |digits| && end <= |was|
    requires now == Written(Moved(was, slot + PLACEHOLDER, offset, slot + |digits|), slot, digits)
    ensures |now| == |was| && now[..end] == was[..slot] + digits + was[slot + PLACEHOLDER..offset]
    ensures forall j :: end <= j < |now| && offset <= j ==> now[j] == was[j]
  {
    var moved := Moved(was, slot + PLACEHOLDER, offset, slot + |digits|);
    assert moved[..slot] == was[..slot];
    assert moved[slot + |digits|..end] == was[slot + PLACEHOLDER..offset];
    assert now[..slot + |digits|] == was[..slot] + digits;
    assert now[slot + |digits|..end] == moved[slot + |digits|..end];
    assert now[..end] == now[..slot + |digits|] + now[slot + |digits|..end];
  }

  // ----- the whole message -----

  /** The text in the buffer before the length is patched in, up to field i. */
  function Draft(fields: seq<Field>, sep: Separator, i: nat): bytes
    requires 1 <= i <= |fields|
  {
    TokenBytes(TokenOf(Field(8, fields[0].value)), sep) + "9=00000" + [sep] + Render(TokensOf(Kept(fields[1..i])), sep)
  }

  lemma DraftStart(fields: seq<Field>, sep: Separator)
    requires fields != []
    ensures Draft(fields, sep, 1) == TokenBytes(TokenOf(Field(8, fields[0].value)), sep) + "9=00000" + [sep]
  {
    assert fields[1..1] == [] && TokensOf(Kept([])) == [];
  }

  lemma DraftNext(fields: seq<Field>, sep: Separator, i: nat)
    requires 1 <= i < |fields|
    ensures Draft(fields, sep, i + 1)
         == if IsFraming(fields[i].tag) then Draft(fields, sep, i)
            else Draft(fields, sep, i) + TokenBytes(TokenOf(fields[i]), sep)
  {
    var f := fields[i];
    assert fields[1..i + 1] == fields[1..i] + [f];
    KeptSnoc(fields[1..i], f);
    if !IsFraming(f.tag) {
      TokensOfAppend(Kept(fields[1..i]), [f]);
      assert TokensOf([f]) == [TokenOf(f)];
      RenderSnoc(TokensOf(Kept(fields[1..i])), TokenOf(f), sep);
    }
  }

  lemma KeptSnoc(fields: seq<Field>, f: Field)
    ensures Kept(fields + [f]) == Kept(fields) + if IsFraming(f.tag) then [] else [f]
  {
    assert (fields + [f])[..|fields|] == fields;
  }

  lemma {:induction false} DraftGrows(fields: seq<Field>, sep: Separator, i: nat, j: nat)
    requires 1 <= i <= j <= |fields|
    ensures |Draft(fields, sep, i)| <= |Draft(fields, sep, j)|
    decreases j - i
  {
    if i < j {
      DraftNext(fields, sep, i);
      DraftGrows(fields, sep, i + 1, j);
    }
  }

  /** The finished text is never shorter than the draft: the trailer outweighs the slot. */
  lemma DraftAndWire(fields: seq<Field>, sep: Separator)
    requires fields != []
    ensures var d := |Digits(|BodyText(fields, sep)|)|;
            && d >= 1
            && |FrontText(fields, sep)| + PLACEHOLDER == |Draft(fields, sep, |fields|)| + d
            && |Wire(fields, sep)| == |FrontText(fields, sep)| + 7
  {
    FramingTags();
    assert fields[1..|fields|] == fields[1..];
  }

  /** The front text in the parts the writer puts together. */
  lemma FrontParts(fields: seq<Field>, sep: Separator, slot: nat)
    requires fields != [] && slot == |TokenBytes(TokenOf(Field(8, fields[0].value)), sep)| + 2
    ensures var draft := Draft(fields, sep, |fields|);
            && slot + PLACEHOLDER < |draft|
            && draft[slot + PLACEHOLDER + 1..] == BodyText(fields, sep)
            && draft[..slot] + Digits(|BodyText(fields, sep)|) + draft[slot + PLACEHOLDER..] == FrontText(fields, sep)
  {
    FramingTags();
    assert fields[1..|fields|] == fields[1..];
    var body := BodyText(fields, sep);
    var draft := Draft(fields, sep, |fields|);
    var first := TokenBytes(TokenOf(Field(8, fields[0].value)), sep);
    assert draft[slot + PLACEHOLDER..] == [sep] + body;
    assert draft[..slot] == first + "9=";
    assert first == "8=" + fields[0].value + [sep];
  }

  /**
   Writes the message into the buffer. It fits exactly when the finished text
   does, and then nothing past the text is touched.
   */
  method SerializeMessage(fields: seq<Field>, buffer: array<byte>, sep: Separator := SOH)
    returns (r: Result<nat, SerializeError>)
    requires buffer.Length < 0x8000_0000
    modifies buffer
    ensures fields == [] || fields[0].tag != 8 ==> r == Err(InvalidArgument) && buffer[..] == old(buffer[..])
    ensures fields != [] && fields[0].tag == 8 ==>
              r == if |Wire(fields, sep)| <= buffer.Length then Ok(|Wire(fields, sep)|) else Err(NoBufferSpace)
    ensures r.Ok? ==>
              && buffer[..r.value] == Wire(fields, sep)
              && buffer[r.value..] == old(buffer[r.value..])
  {
    hide Wire, FrontText, BodyText, Draft, Written, Kept, Render, TokensOf, Digits, TokenBytes;
    if fields == [] || fields[0].tag != 8 {
      return Err(InvalidArgument);
    }
    ghost var was := buffer[..];
    DraftAndWire(fields, sep);
    var offset: nat := 0;
    var first := Field(8, fields[0].value);
    var ok := WriteTagValue(buffer, offset, first, sep);
    if !ok {
      DraftStart(fields, sep);
      DraftGrows(fields, sep, 1, |fields|);
      return Err(NoBufferSpace);
    }
    offset := |TokenBytes(TokenOf(first), sep)|;
    var lengthTagPos := offset;
    DraftStart(fields, sep);
    DraftGrows(fields, sep, 1, |fields|);
    ok := WriteText(buffer, offset, "9=00000");
    if !ok {
      return Err(NoBufferSpace);
    }
    offset := offset + 7;
    WrittenTwice(was, 0, TokenBytes(TokenOf(first), sep), "9=00000");
    ok := WriteText(buffer, offset, [sep]);
    if !ok {
      return Err(NoBufferSpace);
    }
    offset := offset + 1;
    WrittenTwice(was, 0, TokenBytes(TokenOf(first), sep) + "9=00000", [sep]);
    var bodyStart := offset;
    for i := 1 to |fields|
      invariant offset == |Draft(fields, sep, i)| <= buffer.Length
      invariant bodyStart <= offset
      invariant buffer[..] == Written(was, 0, Draft(fields, sep, i))
    {
      var f := fields[i];
      DraftNext(fields, sep, i);
      if f.tag != 8 && f.tag != 9 && f.tag != 10 {
        ghost var token := TokenBytes(TokenOf(f), sep);
        ok := WriteTagValue(buffer, offset, f, sep);
        if !ok {
          DraftGrows(fields, sep, i + 1, |fields|);
          return Err(NoBufferSpace);
        }
        WrittenTwice(was, 0, Draft(fields, sep, i), token);
        offset := offset + |TokenBytes(TokenOf(f), sep)|;
      }
    }
    r := Finish(buffer, lengthTagPos + 2, bodyStart, offset, fields, sep, was);
  }

  lemma WrittenFront(was: bytes, s: bytes)
    requires |s| <= |was|
    ensures Written(was, 0, s)[..|s|] == s
    ensures forall j :: |s| <= j < |was| ==> Written(was, 0, s)[j] == was[j]
  {
  }

  /** The front of the message is the draft with the slot replaced by the digits. */
  lemma FrontIs(drafted: bytes, fields: seq<Field>, sep: Separator, slot: nat, offset: nat)
    requires fields != [] && slot == |TokenBytes(TokenOf(Field(8, fields[0].value)), sep)| + 2
    requires offset == |Draft(fields, sep, |fields|)| <= |drafted| && drafted[..offset] == Draft(fields, sep, |fields|)
    ensures slot + PLACEHOLDER < offset && offset - (slot + PLACEHOLDER + 1) == |BodyText(fields, sep)|
    ensures drafted[..slot] + Digits(|BodyText(fields, sep)|) + drafted[slot + PLACEHOLDER..offset]
            == FrontText(fields, sep)
  {
    FrontParts(fields, sep, slot);
    assert drafted[..slot] == drafted[..offset][..slot];
    assert drafted[slot + PLACEHOLDER..offset] == drafted[..offset][slot + PLACEHOLDER..];
  }

  /** The front and the trailer make the message, and what follows is as it was. */
  lemma FinishedIs(was: bytes, fitted: bytes, now: bytes, fields: seq<Field>, sep: Separator, end: nat)
    requires fields != [] && |fitted| == |was|
    requires end == |FrontText(fields, sep)| && end + 7 <= |was| && fitted[..end] == FrontText(fields, sep)
    requires forall j :: end + 7 <= j < |was| ==> fitted[j] == was[j]
    requires var trailer := Field(10, ThreeDigits(Sum(fitted[..end]) % 256));
             && end + |TokenBytes(TokenOf(trailer), sep)| <= |was|
             && now == Written(fitted, end, TokenBytes(TokenOf(trailer), sep))
    ensures |Wire(fields, sep)| == end + 7 && now[..end + 7] == Wire(fields, sep) && now[end + 7..] == was[end + 7..]
  {
    FramingTags();
    var checksum := ThreeDigits(Sum(fitted[..end]) % 256);
    var t := "10" + ['='] + checksum + [sep];
    assert |t| == 7 && now == fitted[..end] + t + fitted[end + 7..];
    TrailerText(fitted[..end], checksum, sep);
  }

  lemma TrailerLength(checksum: bytes, sep: Separator)
    requires |checksum| == 3
    ensures |TokenBytes(TokenOf(Field(10, checksum)), sep)| == 7
  {
    FramingTags();
  }

  /** Patches the length in, then appends the checksum of everything written. */
  method Finish(buffer: array<byte>, slot: nat, bodyStart: nat, offset: nat,
                ghost fields: seq<Field>, sep: Separator, ghost was: bytes)
    returns (r: Result<nat, SerializeError>)
    requires buffer.Length == |was| < 0x8000_0000
    requires fields != [] && slot == |TokenBytes(TokenOf(Field(8, fields[0].value)), sep)| + 2
    requires bodyStart == slot + PLACEHOLDER + 1
    requires offset == |Draft(fields, sep, |fields|)| <= buffer.Length
    requires buffer[..] == Written(was, 0, Draft(fields, sep, |fields|))
    modifies buffer
    ensures r == if |Wire(fields, sep)| <= buffer.Length then Ok(|Wire(fields, sep)|) else Err(NoBufferSpace)
    ensures r.Ok? ==> buffer[..r.value] == Wire(fields, sep) && buffer[r.value..] == was[r.value..]
  {
    hide Wire, FrontText, BodyText, Draft, Kept, Render, TokensOf, Digits, Written, TokenBytes, ThreeDigits;
    ghost var drafted := buffer[..];
    WrittenFront(was, Draft(fields, sep, |fields|));
    FrontIs(drafted, fields, sep, slot, offset);
    DraftAndWire(fields, sep);
    var digits := Digits(offset - bodyStart);
    var ok, end := FitLength(buffer, slot, offset, digits);
    if !ok {
      return Err(NoBufferSpace);
    }
    ghost var fitted := buffer[..];
    var sum := ByteSum(buffer[..], end);
    var trailer := Field(10, ThreeDigits(sum));
    TrailerLength(trailer.value, sep);
    ok := WriteTagValue(buffer, end, trailer, sep);
    if !ok {
      return Err(NoBufferSpace);
    }
    FinishedIs(was, fitted, buffer[..], fields, sep, end);
    return Ok(end + |TokenBytes(TokenOf(trailer), sep)|);
  }
}
