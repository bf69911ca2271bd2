/**
 The message parser: one pass over the raw bytes with position tracking,
 then the length and checksum checks, and the look-ups on a parsed message.
 */
module Parser {
  import opened Bytes
  import opened Decimal
  import opened Codec
  import opened CodecLaws

  /** The first position of c in s from a position on, or |s| when there is none. */
  function Find(s: bytes, c: byte, from: nat): nat
    requires from <= |s|
  {
    from + IndexOf(s[from..], c)
  }

  /** What a scan yields when the tokens already read are put in front. */
  function Prepend(done: seq<Token>, r: Result<Scanned, ParseError>): Result<Scanned, ParseError> {
    match r
    case Ok(s) => Ok(Scanned(done + s.tokens, s.tail))
    case Err(e) => Err(e)
  }

  lemma PrependChain(whole: Result<Scanned, ParseError>, here: Result<Scanned, ParseError>,
                     after: Result<Scanned, ParseError>, done: seq<Token>, t: Token)
    requires whole == Prepend(done, here) && here == Prepend([t], after)
    ensures whole == Prepend(done + [t], after)
  {
    if after.Ok? {
      Assoc(done, [t], after.value.tokens);
    }
  }

  /** The next field of a text, found by absolute positions. */
  lemma NextByPositions(raw: bytes, sep: Separator, pos: nat)
    requires pos <= |raw|
    ensures var eq := Find(raw, '=', pos);
            if eq == |raw| then NextToken(raw[pos..], sep).NoEquals?
            else
              var end := Find(raw, sep, eq);
              if end == |raw| then NextToken(raw[pos..], sep).Unterminated?
              else NextToken(raw[pos..], sep) == Next(raw[pos..eq], raw[eq + 1..end], end + 1 - pos)
  {
    hide IndexOf;
    var eq := Find(raw, '=', pos);
    if eq < |raw| {
      DropDrop(raw, pos, eq);
      DropSlice(raw, pos, pos, eq);
      var end := Find(raw, sep, eq);
      if end < |raw| {
        DropSlice(raw, pos, eq + 1, end);
      }
    }
  }

  /** The tokens done so far are what the scan of the whole text starts with. */
  ghost predicate Progress(raw: bytes, sep: Separator, done: seq<Token>, pos: nat) {
    && pos <= |raw|
    && raw[..pos] == Render(done, sep)
    && Scan(raw, sep, 0) == Prepend(done, Scan(raw[pos..], sep, |done|))
  }

  /** What reading one field at a position can yield. */
  datatype FieldRead = Tail | Malformed | Read(token: Token, length: nat)

  /** What the outcome of one read says about the text from that position on. */
  ghost predicate ReadsAs(s: bytes, sep: Separator, r: FieldRead) {
    match r
    case Tail => NextToken(s, sep).NoEquals? && Blank(s, sep)
    case Malformed =>
      match NextToken(s, sep) {
        case NoEquals => !Blank(s, sep)
        case Unterminated => true
        case Next(text, _, _) => ReadTag(text).None?
      }
    case Read(t, length) => NextToken(s, sep) == Next(t.text, t.value, length) && ReadTag(t.text) == Some(t.tag)
  }

  lemma ScanUnfolds(s: bytes, sep: Separator, k: nat, r: FieldRead)
    requires s != [] && k < MAX_FIELDS && ReadsAs(s, sep, r)
    ensures r.Tail? ==> Scan(s, sep, k) == Ok(Scanned([], s))
    ensures r.Malformed? ==> Scan(s, sep, k) == Err(InvalidFormat)
    ensures r.Read? ==>
              Scan(s, sep, k) == if k == 0 && r.token.tag != 8 then Err(InvalidBeginString)
                                 else if k == 1 && r.token.tag != 9 then Err(MissingBodyLength)
                                 else Prepend([r.token], Scan(s[r.length..], sep, k + 1))
  {
  }

  lemma TextAdvances(raw: bytes, sep: Separator, done: seq<Token>, pos: nat, t: Token, next: nat)
    requires pos < next <= |raw| && raw[..pos] == Render(done, sep) && raw[pos..next] == TokenBytes(t, sep)
    ensures raw[..next] == Render(done + [t], sep)
  {
    assert raw[..next] == raw[..pos] + raw[pos..next];
    RenderSnoc(done, t, sep);
  }

  lemma TokenText(raw: bytes, sep: Separator, pos: nat, t: Token, next: nat)
    requires pos < next <= |raw| && ReadsAs(raw[pos..], sep, Read(t, next - pos))
    ensures raw[pos..next] == TokenBytes(t, sep)
  {
    hide NextToken;
    DropSlice(raw, pos, pos, next);
    NextTokenIsSound(raw[pos..], sep);
  }

  lemma ReadAdvances(raw: bytes, sep: Separator, done: seq<Token>, pos: nat, t: Token, next: nat)
    requires Progress(raw, sep, done, pos) && pos < next <= |raw|
    requires ReadsAs(raw[pos..], sep, Read(t, next - pos))
    requires Scan(raw[pos..], sep, |done|) == Prepend([t], Scan(raw[pos..][next - pos..], sep, |done| + 1))
    ensures Progress(raw, sep, done + [t], next)
  {
    hide Scan, NextToken, Render, TokenBytes, Prepend, ReadsAs;
    DropDrop(raw, pos, next);
    TokenText(raw, sep, pos, t, next);
    TextAdvances(raw, sep, done, pos, t, next);
    PrependChain(Scan(raw, sep, 0), Scan(raw[pos..], sep, |done|), Scan(raw[next..], sep, |done| + 1), done, t);
  }

  lemma ProgressStart(raw: bytes, sep: Separator)
    ensures Progress(raw, sep, [], 0)
    ensures Tracks([], sep, None, None, None) && TokenFields([]) == []
  {
    assert raw[0..] == raw && raw[..0] == [];
    var r := Scan(raw, sep, 0);
    assert r.Ok? ==> [] + r.value.tokens == r.value.tokens;
  }

  /** A read that finds no field ends the scan. */
  lemma ReadStops(raw: bytes, sep: Separator, done: seq<Token>, pos: nat, r: FieldRead)
    requires Progress(raw, sep, done, pos) && pos < |raw| && |done| < MAX_FIELDS
    requires ReadsAs(raw[pos..], sep, r) && !r.Read?
    ensures r.Tail? ==> Finished(raw, sep, done, raw[pos..])
    ensures r.Malformed? ==> Scan(raw, sep, 0) == Err(InvalidFormat)
  {
    ScanUnfolds(raw[pos..], sep, |done|, r);
    if r.Tail? {
      ProgressEnd(raw, sep, done, pos, raw[pos..]);
    }
  }

  /** A read that finds a field moves on to the next one, unless the tag is out of place. */
  lemma ReadMoves(raw: bytes, sep: Separator, done: seq<Token>, pos: nat, t: Token, length: nat)
    requires Progress(raw, sep, done, pos) && pos < |raw| && |done| < MAX_FIELDS
    requires ReadsAs(raw[pos..], sep, Read(t, length))
    ensures 0 < length <= |raw| - pos
    ensures |done| == 0 && t.tag != 8 ==> Scan(raw, sep, 0) == Err(InvalidBeginString)
    ensures |done| == 1 && t.tag != 9 ==> Scan(raw, sep, 0) == Err(MissingBodyLength)
    ensures TagInPlace(t.tag, |done|) ==> Progress(raw, sep, done + [t], pos + length)
  {
    hide Scan, NextToken;
    ScanUnfolds(raw[pos..], sep, |done|, Read(t, length));
    if TagInPlace(t.tag, |done|) {
      ReadAdvances(raw, sep, done, pos, t, pos + length);
    }
  }

  ghost predicate Finished(raw: bytes, sep: Separator, done: seq<Token>, tail: bytes) {
    Scan(raw, sep, 0) == Ok(Scanned(done, tail)) && Render(done, sep) <= raw
  }

  lemma ReadEnds(raw: bytes, sep: Separator, done: seq<Token>, pos: nat)
    requires Progress(raw, sep, done, pos)
    ensures pos < |raw| && |done| >= MAX_FIELDS ==> Scan(raw, sep, 0) == Err(TooManyFields)
    ensures pos == |raw| ==> Finished(raw, sep, done, [])
  {
    if pos == |raw| {
      ProgressEnd(raw, sep, done, pos, []);
    }
  }

  method OnlyBlanks(raw: bytes, pos: nat, sep: Separator) returns (blank: bool)
    requires pos <= |raw|
    ensures blank == Blank(raw[pos..], sep)
  {
    for i := pos to |raw|
      invariant forall j :: pos <= j < i ==> IsBlank(raw[j], sep)
    {
      if raw[i] != sep && raw[i] != '\r' && raw[i] != '\n' && raw[i] != ' ' {
        assert raw[pos..][i - pos] == raw[i];
        return false;
      }
    }
    return true;
  }

  /** Reads the field at a position */
  method ReadField(raw: bytes, sep: Separator, pos: nat) returns (r: FieldRead)
    requires pos < |raw|
    ensures ReadsAs(raw[pos..], sep, r)
  {
    NextByPositions(raw, sep, pos);
    var eq := Find(raw, '=', pos);
    if eq == |raw| {
      var blank := OnlyBlanks(raw, pos, sep);
      return if blank then Tail else Malformed;
    }
    var soh := Find(raw, sep, eq);
    if soh == |raw| {
      return Malformed;
    }
    var tagText, value := raw[pos..eq], raw[eq + 1..soh];
    match FromChars(tagText) {
      case Parsed(tag, length) =>
        if length != |tagText| {
          return Malformed;
        }
        return Read(Token(tag, tagText, value), soh + 1 - pos);
      case _ =>
        return Malformed;
    }
  }

  /** The positions the parser keeps: end of the second field, start of the latest tag-10 field. */
  ghost predicate Tracks(done: seq<Token>, sep: Separator, bodyStart: Option<nat>, bodyEnd: Option<nat>,
                         checksumStart: Option<nat>) {
    var n := |done|;
    && (n > 0 ==> done[0].tag == 8)
    && (n > 1 ==> done[1].tag == 9 && bodyStart == Some(|Render(done[..2], sep)|))
    && (n > 0 && done[n - 1].tag == 10 ==> checksumStart == bodyEnd == Some(|Render(done[..n - 1], sep)|))
  }

  lemma TracksNext(done: seq<Token>, sep: Separator, t: Token, bodyStart: Option<nat>, bodyEnd: Option<nat>,
                   checksumStart: Option<nat>,
                   newBodyStart: Option<nat>, newBodyEnd: Option<nat>, newChecksumStart: Option<nat>)
    requires Tracks(done, sep, bodyStart, bodyEnd, checksumStart) && TagInPlace(t.tag, |done|)
    requires newBodyStart == if |done| == 1 then Some(|Render(done + [t], sep)|) else bodyStart
    requires t.tag == 10 ==> newChecksumStart == newBodyEnd == Some(|Render(done, sep)|)
    ensures Tracks(done + [t], sep, newBodyStart, newBodyEnd, newChecksumStart)
  {
    assert (done + [t])[..|done|] == done;
    assert |done| == 1 ==> (done + [t])[..2] == done + [t];
    assert |done| >= 2 ==> (done + [t])[..2] == done[..2];
  }

  lemma FieldsNext(fields: seq<Field>, done: seq<Token>, t: Token)
    requires |done| < |fields| && fields[..|done|] == TokenFields(done) && fields[|done|] == Field(t.tag, t.value)
    ensures fields[..|done| + 1] == TokenFields(done + [t])
  {
    assert fields[..|done| + 1] == fields[..|done|] + [fields[|done|]];
  }

  lemma ProgressEnd(raw: bytes, sep: Separator, done: seq<Token>, pos: nat, tail: bytes)
    requires Progress(raw, sep, done, pos)
    requires Scan(raw[pos..], sep, |done|) == Ok(Scanned([], tail))
    ensures Finished(raw, sep, done, tail)
  {
    assert done + [] == done;
  }

  /** Where the parser finds the body and the trailer, and what it looks up there. */
  lemma PositionsMean(tokens: seq<Token>, sep: Separator)
    requires |tokens| >= 3
    ensures |BodyBytes(tokens, sep)| == |SummedBytes(tokens, sep)| - |Render(tokens[..2], sep)|
  {
    var front := tokens[..|tokens| - 1];
    assert front[..2] == tokens[..2] && front[2..] == tokens[2..|tokens| - 1];
    RenderSplit(front, 2, sep);
  }

  lemma SummedIsPrefix(raw: bytes, tokens: seq<Token>, sep: Separator)
    requires tokens != [] && Render(tokens, sep) <= raw
    ensures |SummedBytes(tokens, sep)| <= |raw| && raw[..|SummedBytes(tokens, sep)|] == SummedBytes(tokens, sep)
  {
    RenderSplit(tokens, |tokens| - 1, sep);
  }

  lemma SecondFieldIsFound(fields: seq<Field>)
    requires |fields| >= 2 && fields[0].tag == 8 && fields[1].tag == 9
    ensures FieldOf(fields, 9) == Some(fields[1].value)
  {
    assert fields[1..][0] == fields[1];
  }

  /** The number of fields read and the positions recorded on the way. */
  datatype Layout = Layout(count: nat, bodyStart: Option<nat>, bodyEnd: Option<nat>, checksumStart: Option<nat>)

  /** Reads field after field into the slots, as the scan of the text prescribes. */
  method ReadFields(raw: bytes, sep: Separator, slots: array<Field>)
    returns (r: Result<Layout, ParseError>, ghost scanned: Scanned)
    requires slots.Length == MAX_FIELDS
    modifies slots
    ensures Scan(raw, sep, 0) == if r.Ok? then Ok(scanned) else Err(r.error)
    ensures r.Ok? ==>
              && r.value.count == |scanned.tokens| <= MAX_FIELDS
              && slots[..r.value.count] == TokenFields(scanned.tokens)
              && Tracks(scanned.tokens, sep, r.value.bodyStart, r.value.bodyEnd, r.value.checksumStart)
              && Render(scanned.tokens, sep) <= raw
  {
    hide Scan, NextToken, Render, TokenFields, Tracks, ReadTag, Blank;
    var pos, fieldIdx := 0, 0;
    var bodyStart: Option<nat>, bodyEnd: Option<nat>, checksumStart: Option<nat> := None, None, None;
    ghost var done: seq<Token> := [];
    scanned := Scanned([], []);
    ProgressStart(raw, sep);
    while pos < |raw|
      invariant fieldIdx == |done| <= MAX_FIELDS
      invariant Progress(raw, sep, done, pos)
      invariant Tracks(done, sep, bodyStart, bodyEnd, checksumStart)
      invariant slots[..fieldIdx] == TokenFields(done)
      decreases |raw| - pos
    {
      if fieldIdx >= MAX_FIELDS {
        ReadEnds(raw, sep, done, pos);
        return Err(TooManyFields), scanned;
      }
      var read := ReadField(raw, sep, pos);
      if read.Malformed? {
        ReadStops(raw, sep, done, pos, read);
        return Err(InvalidFormat), scanned;
      }
      if read.Tail? {
        ReadStops(raw, sep, done, pos, read);
        return Ok(Layout(fieldIdx, bodyStart, bodyEnd, checksumStart)), Scanned(done, raw[pos..]);
      }
      ReadMoves(raw, sep, done, pos, read.token, read.length);
      var tag, next := read.token.tag, pos + read.length;
      ghost var was := (bodyStart, bodyEnd, checksumStart);
      slots[fieldIdx] := Field(tag, read.token.value);
      if fieldIdx == 0 {
        if tag != 8 {
          return Err(InvalidBeginString), scanned;
        }
      } else if fieldIdx == 1 {
        if tag != 9 {
          return Err(MissingBodyLength), scanned;
        }
        bodyStart := Some(next);
      }
      if tag == 10 {
        checksumStart := Some(pos);
        bodyEnd := Some(pos);
      }
      TracksNext(done, sep, read.token, was.0, was.1, was.2, bodyStart, bodyEnd, checksumStart);
      FieldsNext(slots[..], done, read.token);
      done := done + [read.token];
      fieldIdx := fieldIdx + 1;
      pos := next;
    }
    ReadEnds(raw, sep, done, pos);
    return Ok(Layout(fieldIdx, bodyStart, bodyEnd, checksumStart)), Scanned(done, []);
  }

  datatype FixMessage = FixMessage(raw: bytes, fields: seq<Field>) {

    /** Parses raw bytes; every verdict is the one the format prescribes. */
    static method Parse(raw: bytes, sep: Separator := SOH) returns (r: Result<FixMessage, ParseError>)
      ensures r.Ok? <==> Parsing(raw, sep).Ok?
      ensures r.Ok? ==> r.value == FixMessage(raw, Parsing(raw, sep).value)
      ensures r.Err? ==> r.error == Parsing(raw, sep).error
    {
      if raw == [] {
        return Err(EmptyBuffer);
      }
      var slots := new Field[MAX_FIELDS](_ => Field(0, []));
      var layout, scanned := ReadFields(raw, sep, slots);
      if layout.Err? {
        return Err(layout.error);
      }
      var Layout(count, bodyStart, bodyEnd, checksumStart) := layout.value;
      var msg := FixMessage(raw, slots[..count]);
      r := msg.Check(sep, bodyStart, bodyEnd, checksumStart, scanned.tokens);
      VerifyAccepts(scanned.tokens, sep);
    }

    /** The checks after the scan, on the positions it recorded. */
    method Check(sep: Separator, bodyStart: Option<nat>, bodyEnd: Option<nat>, checksumStart: Option<nat>,
                 ghost tokens: seq<Token>)
      returns (r: Result<FixMessage, ParseError>)
      requires fields == TokenFields(tokens)
      requires Tracks(tokens, sep, bodyStart, bodyEnd, checksumStart)
      requires Render(tokens, sep) <= raw
      ensures r.Ok? <==> Verify(tokens, sep).Ok?
      ensures r.Ok? ==> r.value == this
      ensures r.Err? ==> r.error == Verify(tokens, sep).error
    {
      if |fields| < 3 {
        return Err(InvalidFormat);
      }
      if fields[|fields| - 1].tag != 10 {
        return Err(MissingChecksum);
      }
      var declared := GetInt(9);
      SecondFieldIsFound(fields);
      if declared.None? {
        return Err(InvalidBodyLength);
      }
      // both positions are known here: the second field is tag 9, the last one tag 10
      var actual := WrapInt32(bodyEnd.value - bodyStart.value);
      PositionsMean(tokens, sep);
      if actual != declared.value {
        return Err(BodyLengthMismatch);
      }
      SummedIsPrefix(raw, tokens, sep);
      var sum := ByteSum(raw, checksumStart.value);
      match FromChars(fields[|fields| - 1].value) {
        case Parsed(c, _) =>
          if c < 0 || c > 255 {
            return Err(InvalidChecksum);
          }
          if sum != c {
            return Err(ChecksumMismatch);
          }
          return Ok(this);
        case _ =>
          return Err(InvalidChecksum);
      }
    }

    /** The first value of a tag. */
    method GetField(tag: int) returns (r: Option<bytes>)
      ensures r == FieldOf(fields, tag)
    {
      assert fields[0..] == fields;
      for i := 0 to |fields|
        invariant FieldOf(fields[i..], tag) == FieldOf(fields, tag)
      {
        if fields[i].tag == tag {
          return Some(fields[i].value);
        }
        assert fields[i..][1..] == fields[i + 1..];
      }
      return None;
    }

    method GetInt(tag: int) returns (r: Option<int32>)
      ensures r == IntOf(fields, tag)
    {
      var value := GetField(tag);
      if value.None? {
        return None;
      }
      match FromChars(value.value) {
        case Parsed(n, _) => return Some(n);
        case _ => return None;
      }
    }
  }
}
