/**
 What the scenario language means on every text, well formed or not: how a
 script is cut into lines, lines into words and fields, and which error is
 reported on which line.
 */
module DslLaws {
  import opened Bytes
  import opened Decimal
  import opened Codec
  import opened Scenario
  import opened Dsl

  // ----- trimming -----

  predicate AllWhite(s: bytes) {
    forall i :: 0 <= i < |s| ==> s[i] == ' ' || s[i] == '\t' || s[i] == '\r' || s[i] == '\n'
  }

  predicate White(c: byte) { c == ' ' || c == '\t' || c == '\r' || c == '\n' }

  /** The text is t with white space around it. */
  predicate Padded(s: bytes, left: bytes, t: bytes, right: bytes) {
    && s == left + t + right && AllWhite(left) && AllWhite(right)
    && (t != [] ==> !White(t[0]) && !White(t[|t| - 1]))
  }

  /** Trimming yields what white space surrounds. */
  lemma TrimIs(s: bytes, t: bytes)
    ensures Trim(s) == t <==> exists left, right :: Padded(s, left, t, right)
  {
    hide Trim;
    if Trim(s) == t {
      TrimParts(s);
    }
    forall left, right | Padded(s, left, t, right)
      ensures Trim(s) == t
    {
      if t != [] {
        TrimPadded(left, t, right);
      } else {
        WhiteIsNothing(s);
      }
    }
  }

  lemma WhiteIsNothing(s: bytes)
    requires AllWhite(s)
    ensures Trim(s) == []
  {
    FirstTextIs(s, |s|);
  }

  lemma {:induction false} FirstTextSkips(s: bytes)
    ensures forall k :: 0 <= k < FirstText(s) ==> White(s[k])
  {
    if s != [] && IsSpace(s[0]) {
      FirstTextSkips(s[1..]);
      assert forall k :: 1 <= k < |s| ==> s[k] == s[1..][k - 1];
    }
  }

  lemma {:induction false} TextEndSkips(s: bytes)
    ensures forall k :: TextEnd(s) <= k < |s| ==> White(s[k])
  {
    if s != [] && IsSpace(s[|s| - 1]) {
      TextEndSkips(s[..|s| - 1]);
    }
  }

  lemma TrimParts(s: bytes)
    ensures exists left, right :: Padded(s, left, Trim(s), right)
  {
    hide FirstText, TextEnd;
    FirstTextSkips(s);
    TextEndSkips(s);
    TextEndSolid(s);
    var i, n := FirstText(s), TextEnd(s);
    if i == |s| {
      assert Trim(s) == [] && s == s + [] + [];
      assert Padded(s, s, Trim(s), []);
    } else {
      TextEndsAfterFirst(s);
      Parts(s, i, n);
      assert Padded(s, s[..i], Trim(s), s[n..]);
    }
  }

  lemma Parts(s: bytes, i: nat, n: nat)
    requires i < n <= |s| && !White(s[i]) && !White(s[n - 1])
    requires forall k :: 0 <= k < i ==> White(s[k])
    requires forall k :: n <= k < |s| ==> White(s[k])
    ensures Padded(s, s[..i], s[i..n], s[n..])
  {
    var left, t, right := s[..i], s[i..n], s[n..];
    assert s == left + t + right;
    assert forall k :: 0 <= k < |left| ==> White(s[k]) && left[k] == s[k];
    assert forall k :: 0 <= k < |right| ==> White(s[n + k]) && right[k] == s[n + k];
    assert t[0] == s[i] && t[|t| - 1] == s[n - 1];
  }

  // ----- one field -----

  /** The text before and after the first '='. */
  predicate Cut(core: bytes, a: bytes, b: bytes) {
    core == a + ['='] + b && '=' !in a
  }

  /** A piece of a line that is the field: a number and anything before the first '=', the value after it. */
  ghost predicate PieceIs(piece: bytes, f: Field) {
    exists a, b :: Cut(Trim(piece), a, b) && BeginsWith(Trim(a), f.tag) && f.value == Trim(b)
  }

  ghost predicate PieceIsSome(piece: bytes) {
    exists f :: PieceIs(piece, f)
  }

  /** A piece that is no field, and why. */
  ghost predicate PieceFails(piece: bytes, kind: DslErrorKind) {
    match kind
    case InvalidField(token) => token == Trim(piece) && '=' !in token
    case InvalidTag(text) =>
      (exists a, b :: Cut(Trim(piece), a, b) && text == Trim(a)) && forall n: int :: !BeginsWith(text, n)
    case UnknownCommand(_) => false
  }

  lemma CutIs(core: bytes)
    ensures '=' in core <==> IndexOf(core, '=') < |core|
    ensures forall a, b :: Cut(core, a, b) <==>
              '=' in core && a == core[..IndexOf(core, '=')] && b == core[IndexOf(core, '=') + 1..]
  {
    hide IndexOf;
    var i := IndexOf(core, '=');
    if i < |core| {
      assert core == core[..i] + ['='] + core[i + 1..];
    }
    forall a, b | Cut(core, a, b)
      ensures '=' in core && a == core[..i] && b == core[i + 1..]
    {
      IndexOfIs(core, '=', |a|);
      assert core[|a|] == '=';
    }
  }

  lemma NumberMeans(s: bytes)
    ensures forall n: int :: BeginsWith(s, n) <==> FromChars(s).Parsed? && FromChars(s).value == n
    ensures FromChars(s).Parsed? <==> exists n: int :: BeginsWith(s, n)
  {
    hide BeginsWith, FromChars;
    forall n: int
      ensures BeginsWith(s, n) <==> FromChars(s).Parsed? && FromChars(s).value == n
    {
      ReadingMeans(s, n);
    }
    if FromChars(s).Parsed? {
      assert BeginsWith(s, FromChars(s).value);
    }
  }

  /** Reading one piece. */
  lemma PieceMeans(piece: bytes)
    requires Trim(piece) != []
    ensures forall f :: ReadField(Trim(piece)) == Ok(f) <==> PieceIs(piece, f)
    ensures forall kind :: ReadField(Trim(piece)) == Err(kind) <==> PieceFails(piece, kind)
  {
    hide Trim, BeginsWith, FromChars, IndexOf, Cut;
    var core := Trim(piece);
    CutIs(core);
    var i := IndexOf(core, '=');
    if i < |core| {
      var a, b := core[..i], core[i + 1..];
      assert Cut(core, a, b);
      NumberMeans(Trim(a));
    }
  }

  // ----- the fields of a line -----

  /** Pieces, each followed by a bar. */
  function Barred(pieces: seq<bytes>): bytes {
    if pieces == [] then [] else pieces[0] + ['|'] + Barred(pieces[1..])
  }

  /** Pieces with SOH in between. */
  function Joined(pieces: seq<bytes>): bytes
    requires pieces != []
  {
    if |pieces| == 1 then pieces[0] else pieces[0] + [SOH] + Joined(pieces[1..])
  }

  predicate Free(pieces: seq<bytes>, c: byte) {
    forall i :: 0 <= i < |pieces| ==> c !in pieces[i]
  }

  /** The arguments are cut at every bar, and behind the last bar at every SOH. */
  ghost predicate CutInto(args: bytes, barred: seq<bytes>, joined: seq<bytes>) {
    && joined != [] && args == Barred(barred) + Joined(joined)
    && Free(barred, '|') && Free(joined, '|') && Free(joined, SOH)
  }

  /** The pieces that are not just white space. */
  function Solids(pieces: seq<bytes>): seq<bytes> {
    if pieces == [] then []
    else if AllWhite(pieces[0]) then Solids(pieces[1..])
    else [pieces[0]] + Solids(pieces[1..])
  }

  /** What pieces read as: their fields, or the failure of the first that is none. */
  ghost predicate PiecesSay(pieces: seq<bytes>, r: Result<seq<Field>, DslErrorKind>) {
    var solids := Solids(pieces);
    match r
    case Ok(fields) => |fields| == |solids| && forall i :: 0 <= i < |fields| ==> PieceIs(solids[i], fields[i])
    case Err(kind) => exists i :: 0 <= i < |solids| && FailsFirst(solids, i, kind)
  }

  ghost predicate FailsFirst(solids: seq<bytes>, i: nat, kind: DslErrorKind)
    requires i < |solids|
  {
    PieceFails(solids[i], kind) && forall j :: 0 <= j < i ==> PieceIsSome(solids[j])
  }

  lemma WhiteMeans(piece: bytes)
    ensures AllWhite(piece) <==> Trim(piece) == []
  {
    hide Trim;
    if AllWhite(piece) {
      WhiteIsNothing(piece);
    }
    if Trim(piece) == [] {
      TrimParts(piece);
      var left, right :| Padded(piece, left, [], right);
      assert piece == left + right;
    }
  }

  /** The pieces of some arguments. */
  lemma {:induction false} CutUp(args: bytes) returns (barred: seq<bytes>, joined: seq<bytes>)
    ensures CutInto(args, barred, joined)
    decreases |args|
  {
    hide IndexOf;
    var i := IndexOf(args, '|');
    if i < |args| {
      var rest := args[i + 1..];
      barred, joined := CutUp(rest);
      assert args == args[..i] + ['|'] + rest;
      assert forall k :: 0 <= k < i ==> args[..i][k] == args[k];
      CutMore(args[..i], barred, joined);
      barred := [args[..i]] + barred;
    } else {
      barred := [];
      joined := CutAtSoh(args);
      assert [] + Joined(joined) == Joined(joined);
    }
  }

  lemma CutMore(piece: bytes, barred: seq<bytes>, joined: seq<bytes>)
    requires joined != [] && Free(barred, '|') && '|' !in piece
    ensures Barred([piece] + barred) + Joined(joined) == piece + ['|'] + (Barred(barred) + Joined(joined))
    ensures Free([piece] + barred, '|')
  {
    assert ([piece] + barred)[1..] == barred;
    Assoc(piece + ['|'], Barred(barred), Joined(joined));
  }

  lemma {:induction false} CutAtSoh(args: bytes) returns (joined: seq<bytes>)
    requires '|' !in args
    ensures joined != [] && args == Joined(joined) && Free(joined, '|') && Free(joined, SOH)
    decreases |args|
  {
    hide IndexOf;
    var i := IndexOf(args, SOH);
    if i < |args| {
      var rest := CutAtSoh(args[i + 1..]);
      assert args == args[..i] + [SOH] + args[i + 1..];
      assert forall k :: 0 <= k < i ==> args[..i][k] == args[k];
      joined := [args[..i]] + rest;
      assert joined[1..] == rest;
    } else {
      joined := [args];
    }
  }

  lemma FirstPiece(args: bytes, barred: seq<bytes>, joined: seq<bytes>)
    requires CutInto(args, barred, joined) && args != []
    ensures barred != [] ==> args[..FieldEnd(args)] == barred[0] && CutInto(AfterField(args), barred[1..], joined)
    ensures barred == [] && |joined| > 1 ==>
              args[..FieldEnd(args)] == joined[0] && CutInto(AfterField(args), [], joined[1..])
    ensures barred == [] && |joined| == 1 ==> args[..FieldEnd(args)] == joined[0] && AfterField(args) == []
  {
    hide IndexOf;
    if barred != [] {
      var rest := Barred(barred[1..]) + Joined(joined);
      Assoc(barred[0] + ['|'], Barred(barred[1..]), Joined(joined));
      assert args == barred[0] + ['|'] + rest;
      IndexOfIs(args, '|', |barred[0]|);
      assert args[|barred[0]| + 1..] == rest;
    } else {
      assert args == Joined(joined);
      JoinedIsBarFree(joined);
      IndexOfIs(args, '|', |args|);
      IndexOfIs(args, SOH, |joined[0]|);
      if |joined| > 1 {
        assert args[|joined[0]| + 1..] == Joined(joined[1..]) == Barred([]) + Joined(joined[1..]);
      }
    }
  }

  lemma {:induction false} JoinedIsBarFree(joined: seq<bytes>)
    requires joined != [] && Free(joined, '|')
    ensures '|' !in Joined(joined)
  {
    if |joined| > 1 {
      JoinedIsBarFree(joined[1..]);
    }
  }

  /** One more piece in front. */
  lemma PiecesNext(piece: bytes, rest: seq<bytes>, r: Result<seq<Field>, DslErrorKind>)
    ensures AllWhite(piece) ==> (PiecesSay([piece] + rest, r) <==> PiecesSay(rest, r))
    ensures !AllWhite(piece) ==>
              forall kind :: PieceFails(piece, kind) && r == Err(kind) ==> PiecesSay([piece] + rest, r)
    ensures !AllWhite(piece) ==>
              forall f :: PieceIs(piece, f) && PiecesSay(rest, r) ==> PiecesSay([piece] + rest, Before([f], r))
  {
    hide PieceIs, PieceFails, AllWhite;
    var all := [piece] + rest;
    assert all[1..] == rest;
    if !AllWhite(piece) {
      var solids := Solids(rest);
      assert Solids(all) == [piece] + solids;
      forall kind | PieceFails(piece, kind) && r == Err(kind)
        ensures PiecesSay(all, r)
      {
        assert FailsFirst(Solids(all), 0, kind);
      }
      forall f | PieceIs(piece, f) && PiecesSay(rest, r)
        ensures PiecesSay(all, Before([f], r))
      {
        if r.Err? {
          var i :| 0 <= i < |solids| && FailsFirst(solids, i, r.error);
          assert PieceIsSome(piece);
          assert FailsFirst([piece] + solids, i + 1, r.error);
        }
      }
    }
  }

  lemma NothingSays()
    ensures PiecesSay([], Ok([])) && PiecesSay([[]], Ok([]))
  {
    assert Solids([[]][1..]) == [];
  }

  /** What is read of some arguments is what their pieces say. */
  lemma {:induction false} FieldsMean(args: bytes, barred: seq<bytes>, joined: seq<bytes>)
    requires CutInto(args, barred, joined)
    ensures PiecesSay(barred + joined, ReadFields(args))
    decreases |args|
  {
    hide ReadFields, ReadField, FieldEnd, AfterField, Trim, PiecesSay, CutInto, AllWhite, PieceIs, PieceFails;
    if args == [] {
      EmptyIsCut(barred, joined);
      NoFields();
      NothingSays();
    } else {
      var piece, rest := args[..FieldEnd(args)], AfterField(args);
      FirstPiece(args, barred, joined);
      FieldsStep(args);
      WhiteMeans(piece);
      var others: seq<bytes>;
      if barred != [] {
        FieldsMean(rest, barred[1..], joined);
        others := barred[1..] + joined;
        assert barred + joined == [piece] + others;
      } else if |joined| > 1 {
        FieldsMean(rest, [], joined[1..]);
        others := [] + joined[1..];
        assert barred + joined == [piece] + others;
      } else {
        NoFields();
        NothingSays();
        others := [];
        JoinedIsSome(args, barred, joined);
        assert barred + joined == [piece] + others;
      }
      var r := ReadFields(rest);
      PiecesNext(piece, others, r);
      if Trim(piece) != [] {
        PieceMeans(piece);
        PiecesNext(piece, others, ReadFields(args));
      }
    }
  }

  lemma JoinedIsSome(args: bytes, barred: seq<bytes>, joined: seq<bytes>)
    requires CutInto(args, barred, joined)
    ensures |joined| > 0
  {
  }

  lemma EmptyIsCut(barred: seq<bytes>, joined: seq<bytes>)
    requires CutInto([], barred, joined)
    ensures barred + joined == [[]]
  {
  }

  // ----- a line -----

  /** The first word of a text and what follows it. */
  predicate Splits(core: bytes, word: bytes, rest: bytes) {
    && core == word + rest
    && ' ' !in word && '\t' !in word
    && (rest != [] ==> rest[0] == ' ' || rest[0] == '\t')
  }

  /** The word is the command of the action. */
  predicate Commands(word: bytes, action: ActionType) {
    || (word == "CONNECT" && action == Connect)
    || (word == "SEND" && action == Send)
    || (word == "EXPECT" && action == Expect)
    || (word == "MOCK" && action == Mock)
    || (word == "DISCONNECT" && action == Disconnect)
  }

  ghost predicate IsCommand(word: bytes) {
    exists action :: Commands(word, action)
  }

  lemma {:induction false} WordEndMeans(s: bytes)
    ensures Splits(s, s[..WordEnd(s)], s[WordEnd(s)..])
  {
    if s != [] && s[0] != ' ' && s[0] != '\t' {
      WordEndMeans(s[1..]);
      assert s[..WordEnd(s)] == [s[0]] + s[1..][..WordEnd(s[1..])];
      assert s[WordEnd(s)..] == s[1..][WordEnd(s[1..])..];
    }
  }

  lemma {:induction false} WordEndIsWord(word: bytes, rest: bytes)
    requires Splits(word + rest, word, rest)
    ensures WordEnd(word + rest) == |word|
  {
    if word != [] {
      assert (word + rest)[1..] == word[1..] + rest;
      WordEndIsWord(word[1..], rest);
    }
  }

  lemma CommandMeans(word: bytes)
    ensures ReadCommand(word).Some? <==> IsCommand(word)
    ensures forall action :: ReadCommand(word) == Some(action) <==> Commands(word, action)
  {
    assert ReadCommand(word).Some? ==> Commands(word, ReadCommand(word).value);
  }

  /** The step a command makes of its fields. */
  function WithFields(action: ActionType, fields: Result<seq<Field>, DslErrorKind>)
    : Result<Option<ScenarioStep>, DslErrorKind>
  {
    if fields.Ok? then Ok(Some(ScenarioStep(action, fields.value))) else Err(fields.error)
  }

  /** A line that is blank or begins with '#' says nothing; any other is a command with its fields, or unknown. */
  lemma LineMeans(raw: bytes, word: bytes, rest: bytes)
    requires Splits(Trim(raw), word, rest)
    ensures var core := Trim(raw);
            && (core == [] || core[0] == '#' ==> ReadLine(raw) == Ok(None))
            && (core != [] && core[0] != '#' ==>
                  && (!IsCommand(word) ==> ReadLine(raw) == Err(UnknownCommand(word)))
                  && forall action :: Commands(word, action) ==>
                       ReadLine(raw) == WithFields(action, ReadFields(Trim(rest))))
  {
    hide Trim, ReadFields, ReadCommand, Commands, WordEnd;
    var core := Trim(raw);
    WordEndIsWord(word, rest);
    assert core[..|word|] == word && core[|word|..] == rest;
    CommandMeans(word);
  }

  // ----- a script -----

  /** Lines, each closed by a newline. */
  function Closed(lines: seq<bytes>): bytes {
    if lines == [] then [] else lines[0] + [NEWLINE] + Closed(lines[1..])
  }

  predicate AreLines(lines: seq<bytes>) {
    forall i :: 0 <= i < |lines| ==> NEWLINE !in lines[i]
  }

  /** Every script is some lines, the last one perhaps not closed. */
  lemma {:induction false} IntoLines(s: bytes) returns (lines: seq<bytes>)
    ensures AreLines(lines) && (s == Closed(lines) || s + [NEWLINE] == Closed(lines))
    decreases |s|
  {
    hide IndexOf;
    var i := IndexOf(s, NEWLINE);
    if s == [] {
      lines := [];
    } else if i < |s| {
      var rest := s[i + 1..];
      var others := IntoLines(rest);
      assert s == s[..i] + [NEWLINE] + rest;
      assert forall k :: 0 <= k < i ==> s[..i][k] == s[k];
      lines := [s[..i]] + others;
      assert lines[1..] == others;
      Assoc(s[..i] + [NEWLINE], rest, [NEWLINE]);
    } else {
      lines := [s];
      assert lines[1..] == [];
      assert Closed(lines) == s + [NEWLINE];
    }
  }

  /** The steps that lines say. */
  function Said(lines: seq<bytes>): seq<ScenarioStep> {
    if lines == [] then []
    else
      var r := ReadLine(lines[0]);
      (if r.Ok? && r.value.Some? then [r.value.value] else []) + Said(lines[1..])
  }

  /** Line i is the first that fails. */
  ghost predicate FirstFailing(lines: seq<bytes>, i: nat, kind: DslErrorKind)
    requires i < |lines|
  {
    ReadLine(lines[i]) == Err(kind) && forall j :: 0 <= j < i ==> ReadLine(lines[j]).Ok?
  }

  /** A script is read line by line; the first line that fails is reported with its number. */
  lemma {:induction false} ScriptMeans(lines: seq<bytes>, n: nat)
    requires AreLines(lines)
    ensures (forall i :: 0 <= i < |lines| ==> ReadLine(lines[i]).Ok?) ==>
              ReadScript(Closed(lines), n) == Ok(Said(lines))
    ensures forall i, kind :: 0 <= i < |lines| && FirstFailing(lines, i, kind) ==>
              ReadScript(Closed(lines), n) == Err(DslError(n + i, kind))
    decreases |lines|
  {
    hide ReadScript, ReadLine;
    if lines == [] {
      NoScript(n);
    } else {
      var line, others := lines[0], lines[1..];
      ScriptMeans(others, n + 1);
      ScriptStep(line, Closed(others), n);
      assert forall i :: 1 <= i < |lines| ==> lines[i] == others[i - 1];
      assert forall i :: 0 <= i < |others| ==> others[i] == lines[i + 1];
      forall i, kind | 0 <= i < |lines| && FirstFailing(lines, i, kind)
        ensures ReadScript(Closed(lines), n) == Err(DslError(n + i, kind))
      {
        if i > 0 {
          assert ReadLine(lines[0]).Ok?;
          assert FirstFailing(others, i - 1, kind);
        }
      }
    }
  }
}
