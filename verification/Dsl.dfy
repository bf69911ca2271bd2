/**
 The scenario language: one step a line, a command word followed by
 tag=value fields between '|' or SOH; blank lines and '#' lines say nothing.
 */
module Dsl {
  import opened Bytes
  import opened Decimal
  import opened Codec
  import opened Scenario

  const NEWLINE: byte := '\n'

  // ----- trimming -----

  predicate IsSpace(c: byte) { c == ' ' || c == '\t' || c == '\r' || c == '\n' }

  /** The position of the first byte that is no white space, or |s|. */
  function FirstText(s: bytes): (i: nat)
    ensures i <= |s|
  {
    if s == [] || !IsSpace(s[0]) then 0 else 1 + FirstText(s[1..])
  }

  /** The position after the last byte that is no white space, or 0. */
  function TextEnd(s: bytes): (i: nat)
    ensures i <= |s|
  {
    if s == [] || !IsSpace(s[|s| - 1]) then |s| else TextEnd(s[..|s| - 1])
  }

  function Trim(s: bytes): (r: bytes)
    ensures |r| <= |s|
  {
    var i := FirstText(s);
    if i == |s| then []
    else
      TextEndsAfterFirst(s);
      s[i..TextEnd(s)]
  }

  lemma {:induction false} TextEndsAfterFirst(s: bytes)
    requires FirstText(s) < |s|
    ensures FirstText(s) < TextEnd(s)
    decreases |s|
  {
    if IsSpace(s[|s| - 1]) {
      FirstTextOfFront(s);
      TextEndsAfterFirst(s[..|s| - 1]);
    }
  }

  lemma {:induction false} FirstTextOfFront(s: bytes)
    requires FirstText(s) < |s| && IsSpace(s[|s| - 1])
    ensures FirstText(s[..|s| - 1]) == FirstText(s) < |s| - 1
    decreases |s|
  {
    if IsSpace(s[0]) {
      FirstTextOfFront(s[1..]);
      assert s[1..][..|s| - 2] == s[..|s| - 1][1..];
    }
  }

  // ----- reading -----

  datatype DslErrorKind = UnknownCommand(word: bytes) | InvalidField(token: bytes) | InvalidTag(text: bytes)

  datatype DslError = DslError(line: nat, kind: DslErrorKind)

  function ReadCommand(word: bytes): Option<ActionType> {
    if word == "CONNECT" then Some(Connect)
    else if word == "SEND" then Some(Send)
    else if word == "EXPECT" then Some(Expect)
    else if word == "MOCK" then Some(Mock)
    else if word == "DISCONNECT" then Some(Disconnect)
    else None
  }

  /** The position of the first blank or tab, or |s|. */
  function WordEnd(s: bytes): (i: nat)
    ensures i <= |s|
  {
    if s == [] || s[0] == ' ' || s[0] == '\t' then 0 else 1 + WordEnd(s[1..])
  }

  /** Where the first field of the arguments ends: at a '|' if there is one anywhere, else at a SOH. */
  function FieldEnd(args: bytes): (i: nat)
    ensures i <= |args|
  {
    var pipe := IndexOf(args, '|');
    if pipe < |args| then pipe else IndexOf(args, SOH)
  }

  /** One field: tag text up to '=', of which a decimal prefix counts, and the value. */
  function ReadField(token: bytes): Result<Field, DslErrorKind> {
    var eq := IndexOf(token, '=');
    if eq == |token| then Err(InvalidField(token))
    else
      var tagText := Trim(token[..eq]);
      match FromChars(tagText)
      case Parsed(tag, _) => Ok(Field(tag, Trim(token[eq + 1..])))
      case _ => Err(InvalidTag(tagText))
  }

  /** The arguments after their first field. */
  function AfterField(args: bytes): (rest: bytes)
    ensures args != [] ==> |rest| < |args|
  {
    var end := FieldEnd(args);
    if end == |args| then [] else args[end + 1..]
  }

  function ReadFields(args: bytes): Result<seq<Field>, DslErrorKind>
    decreases |args|
  {
    if args == [] then Ok([])
    else
      var token, rest := Trim(args[..FieldEnd(args)]), AfterField(args);
      if token == [] then ReadFields(rest)
      else
        match ReadField(token)
        case Err(e) => Err(e)
        case Ok(field) =>
          match ReadFields(rest) {
            case Err(e) => Err(e)
            case Ok(fields) => Ok([field] + fields)
          }
  }

  /** A line is a step, or says nothing. */
  function ReadLine(raw: bytes): Result<Option<ScenarioStep>, DslErrorKind> {
    var line := Trim(raw);
    if line == [] || line[0] == '#' then Ok(None)
    else
      var end := WordEnd(line);
      match ReadCommand(line[..end])
      case None => Err(UnknownCommand(line[..end]))
      case Some(action) =>
        match ReadFields(Trim(line[end..]))
        case Err(e) => Err(e)
        case Ok(fields) => Ok(Some(ScenarioStep(action, fields)))
  }

  /** The rest of a text after its first line. */
  function AfterLine(s: bytes): bytes {
    var end := IndexOf(s, NEWLINE);
    if end == |s| then [] else s[end + 1..]
  }

  /** The steps of a text whose first line has the given number. */
  function ReadScript(s: bytes, line: nat): Result<seq<ScenarioStep>, DslError>
    decreases |s|
  {
    if s == [] then Ok([])
    else
      match ReadLine(s[..IndexOf(s, NEWLINE)])
      case Err(kind) => Err(DslError(line, kind))
      case Ok(step) =>
        match ReadScript(AfterLine(s), line + 1)
        case Err(e) => Err(e)
        case Ok(steps) => Ok((if step.Some? then [step.value] else []) + steps)
  }

  // ----- the parser -----

  /** Results with what was read before put in front. */
  function Before<T, E>(front: seq<T>, r: Result<seq<T>, E>): Result<seq<T>, E> {
    match r
    case Ok(v) => Ok(front + v)
    case Err(e) => Err(e)
  }

  lemma BeforeTwice<T, E>(a: seq<T>, b: seq<T>, r: Result<seq<T>, E>)
    ensures Before(a, Before(b, r)) == Before(a + b, r)
  {
    if r.Ok? {
      Assoc(a, b, r.value);
    }
  }

  lemma BeforeNothing<T, E>(r: Result<seq<T>, E>)
    ensures Before([], r) == r
  {
    if r.Ok? {
      assert [] + r.value == r.value;
    }
  }

  lemma NoFields()
    ensures ReadFields([]) == Ok([])
  {
  }

  lemma FieldsStep(args: bytes)
    requires args != []
    ensures var token, rest := Trim(args[..FieldEnd(args)]), ReadFields(AfterField(args));
            ReadFields(args) == if token == [] then rest
                                else match ReadField(token)
                                     case Err(e) => Err(e)
                                     case Ok(field) => Before([field], rest)
  {
    hide Trim, ReadField, FieldEnd, AfterField;
  }

  method ParseFields(args: bytes) returns (r: Result<seq<Field>, DslErrorKind>)
    ensures r == ReadFields(args)
  {
    hide Trim, ReadField, IndexOf, FieldEnd, ReadFields;
    var fields: seq<Field> := [];
    NoFields();
    var fieldPos := 0;
    assert args[0..] == args;
    BeforeNothing(ReadFields(args));
    while fieldPos < |args|
      invariant fieldPos <= |args|
      invariant ReadFields(args) == Before(fields, ReadFields(args[fieldPos..]))
      decreases |args| - fieldPos
    {
      var here := args[fieldPos..];
      var nextPipe := FieldEnd(here);
      var token := here[..nextPipe];
      if nextPipe == |here| {
        fieldPos := |args|;
      } else {
        DropDrop(args, fieldPos, fieldPos + nextPipe + 1);
        fieldPos := fieldPos + nextPipe + 1;
      }
      assert args[fieldPos..] == AfterField(here);
      FieldsStep(here);
      token := Trim(token);
      if token == [] {
        continue;
      }
      var field := ReadField(token);
      if field.Err? {
        return Err(field.error);
      }
      BeforeTwice(fields, [field.value], ReadFields(args[fieldPos..]));
      fields := fields + [field.value];
    }
    assert args[|args|..] == [] && fields + [] == fields;
    return Ok(fields);
  }

  /** Reads a scenario text line by line. */
  method ParseDsl(dsl: bytes) returns (r: Result<seq<ScenarioStep>, DslError>)
    ensures r == ReadScript(dsl, 1)
  {
    hide Trim, ReadFields, IndexOf, ReadCommand, WordEnd;
    var steps: seq<ScenarioStep> := [];
    var lineNum, pos := 0, 0;
    assert dsl[0..] == dsl;
    BeforeNothing(ReadScript(dsl, 1));
    while pos < |dsl|
      invariant pos <= |dsl|
      invariant ReadScript(dsl, 1) == Before(steps, ReadScript(dsl[pos..], lineNum + 1))
      decreases |dsl| - pos
    {
      var here := dsl[pos..];
      var nextLine := IndexOf(here, NEWLINE);
      var lineRaw := here[..nextLine];
      if nextLine == |here| {
        pos := |dsl|;
      } else {
        DropDrop(dsl, pos, pos + nextLine + 1);
        pos := pos + nextLine + 1;
      }
      assert dsl[pos..] == AfterLine(here);
      lineNum := lineNum + 1;
      BeforeNothing(ReadScript(dsl[pos..], lineNum + 1));
      var line := Trim(lineRaw);
      if line == [] || line[0] == '#' {
        continue;
      }
      var spacePos := WordEnd(line);
      var cmd, args := line[..spacePos], Trim(line[spacePos..]);
      var action := ReadCommand(cmd);
      if action.None? {
        return Err(DslError(lineNum, UnknownCommand(cmd)));
      }
      var fields := ParseFields(args);
      if fields.Err? {
        return Err(DslError(lineNum, fields.error));
      }
      var step := ScenarioStep(action.value, fields.value);
      BeforeTwice(steps, [step], ReadScript(dsl[pos..], lineNum + 1));
      steps := steps + [step];
    }
    assert steps + [] == steps;
    return Ok(steps);
  }

  // ----- what values can be read -----

  lemma TrimMeans(s: bytes)
    ensures Trim(Trim(s)) == Trim(s)
    ensures forall c :: c in Trim(s) ==> c in s
  {
    TrimIsSolid(s);
    if Trim(s) != [] {
      TrimSolid(Trim(s));
    }
  }

  lemma TrimIsSolid(s: bytes)
    ensures Trim(s) == [] || Solid(Trim(s))
  {
    var i := FirstText(s);
    if i < |s| {
      TextEndsAfterFirst(s);
      TextEndSolid(s);
      var t, n := Trim(s), TextEnd(s);
      assert t[0] == s[i] && t[|t| - 1] == s[n - 1];
    }
  }

  /** A value read from some arguments: trimmed, free of bars, part of them, and free of SOH where no bar follows. */
  ghost predicate ValueReadFrom(args: bytes, v: bytes) {
    && Trim(v) == v && '|' !in v
    && (forall c :: c in v ==> c in args)
    && ('|' !in args ==> SOH !in v)
  }

  lemma FieldEndMeans(args: bytes)
    ensures var s := args[..FieldEnd(args)];
            '|' !in s && ('|' !in args ==> SOH !in s)
  {
    var s := args[..FieldEnd(args)];
    assert forall k :: 0 <= k < |s| ==> s[k] == args[k];
    if '|' in args {
      assert IndexOf(args, '|') < |args|;
    }
  }

  lemma FieldReadIs(args: bytes, token: bytes)
    requires args != [] && token == Trim(args[..FieldEnd(args)]) && ReadField(token).Ok?
    ensures ValueReadFrom(args, ReadField(token).value.value)
  {
    hide FieldEnd, Trim, IndexOf, FromChars;
    FieldEndMeans(args);
    TrimMeans(args[..FieldEnd(args)]);
    var rest := token[IndexOf(token, '=') + 1..];
    TrimMeans(rest);
    assert forall c :: c in rest ==> c in token;
    assert forall c :: c in args[..FieldEnd(args)] ==> c in args;
  }

  lemma {:induction false} FieldsReadAre(args: bytes, fields: seq<Field>)
    requires ReadFields(args) == Ok(fields)
    ensures forall i :: 0 <= i < |fields| ==> ValueReadFrom(args, fields[i].value)
    decreases |args|
  {
    hide ReadField, FieldEnd, Trim, ReadFields, ValueReadFrom;
    if args == [] {
      NoFields();
    } else {
      var token, rest := Trim(args[..FieldEnd(args)]), AfterField(args);
      FieldsStep(args);
      if token == [] {
        FieldsReadAre(rest, fields);
        ReadFromRest(args, fields);
      } else {
        var others := ReadFields(rest).value;
        FieldsReadAre(rest, others);
        ReadFromRest(args, others);
        FieldReadIs(args, token);
        assert fields == [ReadField(token).value] + others;
      }
    }
  }

  lemma ReadFromRest(args: bytes, fields: seq<Field>)
    requires args != []
    requires forall i :: 0 <= i < |fields| ==> ValueReadFrom(AfterField(args), fields[i].value)
    ensures forall i :: 0 <= i < |fields| ==> ValueReadFrom(args, fields[i].value)
  {
    hide FieldEnd, Trim;
    assert forall c :: c in AfterField(args) ==> c in args;
  }

  lemma LineReadIs(raw: bytes)
    requires NEWLINE !in raw && ReadLine(raw).Ok? && ReadLine(raw).value.Some?
    ensures PlainFields(ReadLine(raw).value.value.fields)
  {
    hide ReadFields, WordEnd, ReadCommand, Trim;
    var line := Trim(raw);
    TrimMeans(raw);
    var args := line[WordEnd(line)..];
    TrimMeans(args);
    var fields := ReadLine(raw).value.value.fields;
    assert ReadFields(Trim(args)) == Ok(fields);
    FieldsReadAre(Trim(args), fields);
    assert forall c :: c in args ==> c in line;
    assert NEWLINE !in Trim(args);
    forall i | 0 <= i < |fields|
      ensures PlainValue(fields[i].value)
    {
      assert ValueReadFrom(Trim(args), fields[i].value);
    }
  }

  /** Whatever the script, every value read from it is trimmed and free of bars and newlines. */
  lemma {:induction false} ScriptReadIs(s: bytes, n: nat, steps: seq<ScenarioStep>)
    requires ReadScript(s, n) == Ok(steps)
    ensures forall i :: 0 <= i < |steps| ==> PlainFields(steps[i].fields)
    decreases |s|
  {
    hide ReadLine, PlainFields;
    if s != [] {
      var line := s[..IndexOf(s, NEWLINE)];
      assert NEWLINE !in line;
      var step := ReadLine(line).value;
      ScriptReadIs(AfterLine(s), n + 1, ReadScript(AfterLine(s), n + 1).value);
      if step.Some? {
        LineReadIs(line);
      }
    }
  }

  lemma ScriptUnfolds(s: bytes, n: nat)
    requires s != []
    ensures var here := ReadLine(s[..IndexOf(s, NEWLINE)]);
            ReadScript(s, n)
            == if here.Err? then Err(DslError(n, here.error))
               else Before(OptionSteps(here.value), ReadScript(AfterLine(s), n + 1))
  {
    hide ReadLine;
  }

  function OptionSteps(step: Option<ScenarioStep>): seq<ScenarioStep> {
    if step.Some? then [step.value] else []
  }

  lemma NoScript(n: nat)
    ensures ReadScript([], n) == Ok([])
  {
  }

  /** Closing the last line changes nothing. */
  lemma {:induction false} ClosingIsHarmless(s: bytes, n: nat)
    ensures ReadScript(s + [NEWLINE], n) == ReadScript(s, n)
    decreases |s|
  {
    hide ReadLine, ReadScript, IndexOf;
    var t, i := s + [NEWLINE], IndexOf(s, NEWLINE);
    IndexOfIs(t, NEWLINE, i);
    assert t[..i] == s[..i];
    ScriptUnfolds(t, n);
    NoScript(n + 1);
    if s == [] {
      NoScript(n);
      NothingRead();
      BeforeNothing(ReadScript([], n + 1));
    } else {
      ScriptUnfolds(s, n);
      if i < |s| {
        assert t[i + 1..] == s[i + 1..] + [NEWLINE];
        ClosingIsHarmless(s[i + 1..], n + 1);
      }
    }
  }

  lemma NothingRead()
    ensures ReadLine([]) == Ok(None)
  {
    TrimOfNothing();
  }

  // ----- writing -----

  function CommandText(action: ActionType): bytes {
    match action
    case Connect => "CONNECT"
    case Send => "SEND"
    case Expect => "EXPECT"
    case Mock => "MOCK"
    case Disconnect => "DISCONNECT"
  }

  function FieldText(f: Field): bytes {
    ToChars(f.tag) + "=" + f.value
  }

  /** Fields written one after the other, with " | " in between. */
  function FieldsText(fields: seq<Field>): bytes {
    if fields == [] then []
    else if |fields| == 1 then FieldText(fields[0])
    else FieldText(fields[0]) + " | " + FieldsText(fields[1..])
  }

  function StepText(step: ScenarioStep): bytes {
    if step.fields == [] then CommandText(step.action)
    else CommandText(step.action) + " " + FieldsText(step.fields)
  }

  /** A line of a script: a step, or a remark that says nothing. */
  datatype ScriptLine = StepLine(step: ScenarioStep) | Remark(text: bytes)

  function LineText(line: ScriptLine): bytes {
    match line
    case StepLine(step) => StepText(step)
    case Remark(text) => text
  }

  function ScriptText(lines: seq<ScriptLine>): bytes {
    if lines == [] then [] else LineText(lines[0]) + [NEWLINE] + ScriptText(lines[1..])
  }

  function StepsOf(lines: seq<ScriptLine>): seq<ScenarioStep> {
    if lines == [] then []
    else (match lines[0] case StepLine(step) => [step] case Remark(_) => []) + StepsOf(lines[1..])
  }

  /** A value that survives the notation: trimmed, and free of bars and newlines. */
  predicate PlainValue(v: bytes) {
    Trim(v) == v && Plain(v)
  }

  predicate PlainFields(fields: seq<Field>) {
    forall i :: 0 <= i < |fields| ==> PlainValue(fields[i].value)
  }

  /** Fields that can be read back: a SOH does no harm while a bar follows. */
  predicate Renderable(fields: seq<Field>) {
    PlainFields(fields) && (fields != [] ==> SOH !in fields[|fields| - 1].value)
  }

  /** A remark is a line that is blank or begins with '#'. */
  predicate IsRemark(text: bytes) {
    NEWLINE !in text && (Trim(text) == [] || Trim(text)[0] == '#')
  }

  predicate PlainLine(line: ScriptLine) {
    match line
    case StepLine(step) => PlainFields(step.fields)
    case Remark(text) => IsRemark(text)
  }

  // ----- the round trip -----

  /** A text that begins and ends with something other than white space. */
  predicate Solid(s: bytes) {
    s != [] && !IsSpace(s[0]) && !IsSpace(s[|s| - 1])
  }

  lemma FirstTextIs(s: bytes, i: nat)
    requires i <= |s| && (i < |s| ==> !IsSpace(s[i]))
    requires forall k :: 0 <= k < i ==> IsSpace(s[k])
    ensures FirstText(s) == i
  {
    if i > 0 {
      FirstTextIs(s[1..], i - 1);
    }
  }

  lemma {:induction false} TextEndIs(s: bytes, n: nat)
    requires n <= |s| && (n > 0 ==> !IsSpace(s[n - 1]))
    requires forall k :: n <= k < |s| ==> IsSpace(s[k])
    ensures TextEnd(s) == n
    decreases |s|
  {
    if n < |s| {
      TextEndIs(s[..|s| - 1], n);
    }
  }

  /** Trimming takes blanks off a solid text and leaves the rest. */
  lemma TrimPadded(left: bytes, core: bytes, right: bytes)
    requires Solid(core)
    requires forall k :: 0 <= k < |left| ==> IsSpace(left[k])
    requires forall k :: 0 <= k < |right| ==> IsSpace(right[k])
    ensures Trim(left + core + right) == core
  {
    var s := left + core + right;
    assert s[|left|] == core[0] && s[|left| + |core| - 1] == core[|core| - 1];
    assert forall k :: 0 <= k < |left| ==> s[k] == left[k];
    assert forall k :: |left| + |core| <= k < |s| ==> s[k] == right[k - |left| - |core|];
    FirstTextIs(s, |left|);
    TextEndIs(s, |left| + |core|);
  }

  lemma TrimSolid(s: bytes)
    requires Solid(s)
    ensures Trim(s) == s
  {
    TrimPadded([], s, []);
    assert [] + s + [] == s;
  }

  lemma TrimmedIsSolid(v: bytes)
    requires Trim(v) == v
    ensures v == [] || Solid(v)
  {
    if v != [] {
      assert FirstText(v) < |v|;
      TextEndsAfterFirst(v);
      assert |Trim(v)| == TextEnd(v) - FirstText(v);
      TextEndSolid(v);
    }
  }

  lemma {:induction false} TextEndSolid(s: bytes)
    ensures TextEnd(s) > 0 ==> !IsSpace(s[TextEnd(s) - 1])
    ensures FirstText(s) < |s| ==> !IsSpace(s[FirstText(s)])
    decreases |s|
  {
    if s != [] {
      if IsSpace(s[|s| - 1]) {
        TextEndSolid(s[..|s| - 1]);
      }
      if IsSpace(s[0]) {
        TextEndSolid(s[1..]);
      }
    }
  }

  /** A text free of bars and newlines. */
  predicate Plain(s: bytes) {
    '|' !in s && NEWLINE !in s
  }

  lemma TagText(tag: int32)
    ensures var s := ToChars(tag);
            && s != [] && Plain(s) && SOH !in s && '=' !in s && Solid(s) && s[0] != '#'
            && Trim(s) == s && FromChars(s) == Parsed(tag, |s|)
  {
    var k: int := tag;
    var s := ToChars(tag);
    var d := Digits(if k < 0 then -k else k);
    assert forall i :: 0 <= i < |s| ==> s[i] == '-' || IsDigit(s[i]);
    assert Solid(s);
    TrimSolid(s);
    FromToChars(tag, []);
    assert s + [] == s;
  }

  lemma FieldTextShape(f: Field)
    requires PlainValue(f.value)
    ensures Solid(FieldText(f)) && Plain(FieldText(f))
    ensures SOH in FieldText(f) <==> SOH in f.value
    ensures ReadField(FieldText(f)) == Ok(f)
  {
    hide ToChars, FromChars, Trim, FirstText, TextEnd;
    TagText(f.tag);
    TrimmedIsSolid(f.value);
    var tag, s := ToChars(f.tag), FieldText(f);
    assert s[0] == tag[0];
    assert f.value == [] ==> s[|s| - 1] == '=';
    assert f.value != [] ==> s[|s| - 1] == f.value[|f.value| - 1];
    IndexOfIs(s, '=', |tag|);
    assert s[..|tag|] == tag && s[|tag| + 1..] == f.value;
  }

  /** Without separators the arguments are one field. */
  lemma FieldEndOfPlain(s: bytes)
    requires '|' !in s && SOH !in s
    ensures FieldEnd(s) == |s|
  {
  }

  lemma FieldEndAtPipe(a: bytes, b: bytes)
    requires '|' !in a
    ensures FieldEnd(a + ['|'] + b) == |a|
    ensures AfterField(a + ['|'] + b) == b
  {
    IndexOfIs(a + ['|'] + b, '|', |a|);
  }

  lemma {:induction false} FieldsTextShape(fields: seq<Field>)
    requires PlainFields(fields) && fields != []
    ensures Solid(FieldsText(fields)) && NEWLINE !in FieldsText(fields)
    ensures FieldsText(fields)[0] == FieldText(fields[0])[0]
    decreases |fields|
  {
    hide PlainValue, FieldText;
    var first := FieldText(fields[0]);
    FieldTextShape(fields[0]);
    if |fields| > 1 {
      var rest := FieldsText(fields[1..]);
      FieldsTextShape(fields[1..]);
      var s := FieldsText(fields);
      assert s == first + " | " + rest;
      assert s[0] == first[0] && s[|s| - 1] == rest[|rest| - 1];
    }
  }

  /** The pieces of a padded list of fields. */
  lemma PaddedFields(pad: bytes, first: bytes, rest: bytes)
    requires Solid(first) && Plain(first) && (pad == [] || pad == " ")
    ensures var args := pad + (first + " | " + rest);
            && args != []
            && Trim(args[..FieldEnd(args)]) == first
            && AfterField(args) == " " + rest
  {
    var args := pad + (first + " | " + rest);
    var a, b := pad + first + " ", " " + rest;
    assert args == a + ['|'] + b;
    FieldEndAtPipe(a, b);
    assert args[..|a|] == a;
    TrimPadded(pad, first, " ");
  }

  lemma PaddedField(pad: bytes, first: bytes)
    requires Solid(first) && Plain(first) && SOH !in first && (pad == [] || pad == " ")
    ensures var args := pad + first;
            && args != []
            && Trim(args[..FieldEnd(args)]) == first
            && AfterField(args) == []
  {
    var args := pad + first;
    FieldEndOfPlain(args);
    assert args[..|args|] == args;
    assert args + [] == args;
    TrimPadded(pad, first, []);
  }

  /** Fields free of bars and newlines are read back exactly when the last value is free of SOH. */
  lemma {:induction false} FieldsRoundTrip(pad: bytes, fields: seq<Field>)
    requires PlainFields(fields) && fields != [] && (pad == [] || pad == " ")
    ensures ReadFields(pad + FieldsText(fields)) == Ok(fields) <==> Renderable(fields)
    decreases |fields|
  {
    hide PlainValue, FieldText, FieldsText, Trim, FieldEnd, AfterField, ReadField, ReadFields, Solid, Plain;
    FieldsTextStep(fields);
    var f, others := fields[0], fields[1..];
    FieldTextShape(f);
    SolidIsText(FieldText(f));
    var args := pad + FieldsText(fields);
    if |fields| == 1 {
      OneFieldRoundTrip(pad, f);
      assert [f] == fields;
    } else {
      PaddedFields(pad, FieldText(f), FieldsText(others));
      FieldsStep(args);
      FieldsRoundTrip(" ", others);
      assert [f] + others == fields;
    }
  }

  lemma OneFieldRoundTrip(pad: bytes, f: Field)
    requires PlainValue(f.value) && (pad == [] || pad == " ")
    ensures ReadFields(pad + FieldText(f)) == Ok([f]) <==> SOH !in f.value
  {
    hide PlainValue, FieldText, Trim, FieldEnd, AfterField, ReadField, ReadFields, Solid;
    FieldTextShape(f);
    SolidIsText(FieldText(f));
    var args := pad + FieldText(f);
    if SOH !in f.value {
      PaddedField(pad, FieldText(f));
      FieldsStep(args);
      NoFields();
      assert [f] + [] == [f];
    } else if ReadFields(args).Ok? {
      var fields := ReadFields(args).value;
      FieldsReadAre(args, fields);
      assert fields != [] ==> ValueReadFrom(args, fields[0].value);
    }
  }

  lemma FieldsTextStep(fields: seq<Field>)
    requires fields != []
    ensures FieldsText(fields) == if |fields| == 1 then FieldText(fields[0])
                                  else FieldText(fields[0]) + " | " + FieldsText(fields[1..])
  {
  }

  lemma SolidIsText(s: bytes)
    requires Solid(s)
    ensures s != []
  {
  }

  lemma CommandIsWord(action: ActionType)
    ensures var c := CommandText(action);
            && ReadCommand(c) == Some(action) && Solid(c) && NEWLINE !in c && c[0] != '#'
            && forall i :: 0 <= i < |c| ==> c[i] != ' ' && c[i] != '\t'
  {
  }

  lemma {:induction false} WordEndIs(s: bytes, i: nat)
    requires i <= |s| && (i < |s| ==> s[i] == ' ')
    requires forall k :: 0 <= k < i ==> s[k] != ' ' && s[k] != '\t'
    ensures WordEnd(s) == i
  {
    if i > 0 {
      WordEndIs(s[1..], i - 1);
    }
  }

  /** A written step is read back from its line exactly when its fields are renderable. */
  lemma LineRoundTrip(step: ScenarioStep)
    requires PlainFields(step.fields)
    ensures NEWLINE !in StepText(step)
    ensures ReadLine(StepText(step)) == Ok(Some(step)) <==> Renderable(step.fields)
    ensures ReadLine(StepText(step)).Ok? ==> ReadLine(StepText(step)).value.Some?
  {
    hide CommandText, ReadCommand, Trim, FieldsText, ReadFields, PlainFields, WordEnd;
    var c, s := CommandText(step.action), StepText(step);
    CommandIsWord(step.action);
    if step.fields == [] {
      TrimSolid(s);
      WordEndIs(s, |c|);
      assert s[..|c|] == c && s[|c|..] == [];
      TrimOfNothing();
      NoFields();
    } else {
      var t := FieldsText(step.fields);
      FieldsTextShape(step.fields);
      WordAndRest(c, t);
      FieldsRoundTrip([], step.fields);
      assert [] + t == t;
    }
  }

  /** A word, a blank and a solid text: the word ends at the blank, the rest trims to the text. */
  lemma WordAndRest(c: bytes, t: bytes)
    requires Solid(c) && Solid(t) && c[0] != '#'
    requires forall i :: 0 <= i < |c| ==> c[i] != ' ' && c[i] != '\t'
    ensures var s := c + " " + t;
            && Trim(s) == s && s != [] && s[0] == c[0]
            && WordEnd(s) == |c| && s[..|c|] == c && Trim(s[|c|..]) == t
  {
    hide Trim, WordEnd;
    var s := c + " " + t;
    assert s[0] == c[0] && s[|s| - 1] == t[|t| - 1];
    TrimSolid(s);
    WordEndIs(s, |c|);
    assert s[..|c|] == c && s[|c|..] == " " + t;
    TrimPadded(" ", t, []);
    assert " " + t + [] == " " + t;
  }

  lemma TrimOfNothing()
    ensures Trim([]) == []
  {
  }

  function StepOf(line: ScriptLine): Option<ScenarioStep> {
    match line
    case StepLine(step) => Some(step)
    case Remark(_) => None
  }

  /** A line that is read back. */
  predicate ReadableLine(line: ScriptLine) {
    line.StepLine? ==> Renderable(line.step.fields)
  }

  lemma LineReads(line: ScriptLine)
    requires PlainLine(line)
    ensures NEWLINE !in LineText(line)
    ensures ReadLine(LineText(line)) == Ok(StepOf(line)) <==> ReadableLine(line)
    ensures ReadLine(LineText(line)).Ok? ==> (ReadLine(LineText(line)).value.Some? <==> line.StepLine?)
  {
    hide ReadFields, Trim, WordEnd, ReadCommand, StepText, Renderable;
    match line
    case StepLine(step) => LineRoundTrip(step);
    case Remark(_) =>
  }

  /** One line and what follows it. */
  lemma ScriptStep(line: bytes, rest: bytes, n: nat)
    requires NEWLINE !in line
    ensures var here := ReadLine(line);
            ReadScript(line + [NEWLINE] + rest, n)
            == if here.Err? then Err(DslError(n, here.error))
               else Before(OptionSteps(here.value), ReadScript(rest, n + 1))
  {
    hide ReadLine;
    var s := line + [NEWLINE] + rest;
    IndexOfIs(s, NEWLINE, |line|);
    assert s[..|line|] == line && s[|line| + 1..] == rest;
  }

  lemma StepsOfNext(line: ScriptLine, others: seq<ScriptLine>)
    ensures StepsOf([line] + others) == OptionSteps(StepOf(line)) + StepsOf(others)
  {
    assert ([line] + others)[1..] == others;
  }

  /** Lines whose values are plain are read back exactly when each of them is. */
  lemma {:induction false} PlainScript(lines: seq<ScriptLine>, n: nat)
    requires forall i :: 0 <= i < |lines| ==> PlainLine(lines[i])
    ensures ReadScript(ScriptText(lines), n) == Ok(StepsOf(lines)) <==>
            forall i :: 0 <= i < |lines| ==> ReadableLine(lines[i])
    decreases |lines|
  {
    hide ReadScript, LineText, PlainLine, ReadLine, ReadableLine, StepsOf;
    if lines == [] {
      NoScript(n);
      NoSteps();
    } else {
      var line, others := lines[0], lines[1..];
      LineReads(line);
      PlainScript(others, n + 1);
      ScriptStep(LineText(line), ScriptText(others), n);
      assert lines == [line] + others;
      StepsOfNext(line, others);
      var read := ReadLine(LineText(line));
      if read.Ok? {
        BeforeCancels(OptionSteps(read.value), ReadScript(ScriptText(others), n + 1), OptionSteps(StepOf(line)),
                      StepsOf(others));
      }
      assert (forall i :: 0 <= i < |lines| ==> ReadableLine(lines[i])) <==>
             ReadableLine(line) && forall i :: 0 <= i < |others| ==> ReadableLine(others[i]) by {
        assert forall i :: 1 <= i < |lines| ==> lines[i] == others[i - 1];
        assert forall i :: 0 <= i < |others| ==> others[i] == lines[i + 1];
      }
    }
  }

  lemma BeforeCancels<T, E>(a: seq<T>, r: Result<seq<T>, E>, b: seq<T>, v: seq<T>)
    requires |a| == |b|
    ensures Before(a, r) == Ok(b + v) <==> a == b && r == Ok(v)
  {
    if r.Ok? {
      SumParts(a, r.value);
      SumParts(b, v);
    }
  }

  lemma NoSteps()
    ensures StepsOf([]) == []
  {
  }

  lemma {:induction false} StepsOfHas(lines: seq<ScriptLine>, i: nat)
    requires i < |lines| && lines[i].StepLine?
    ensures lines[i].step in StepsOf(lines)
    decreases |lines|
  {
    if i > 0 {
      StepsOfHas(lines[1..], i - 1);
    }
  }

  lemma {:induction false} ScriptOfMore(lines: seq<ScriptLine>, last: ScriptLine)
    ensures ScriptText(lines + [last]) == ScriptText(lines) + LineText(last) + [NEWLINE]
    decreases |lines|
  {
    hide LineText;
    if lines == [] {
      assert [last][1..] == [] && [] + [last] == [last];
    } else {
      assert (lines + [last])[1..] == lines[1..] + [last];
      ScriptOfMore(lines[1..], last);
      var front := LineText(lines[0]) + [NEWLINE];
      Assoc(front, ScriptText(lines[1..]) + LineText(last), [NEWLINE]);
      Assoc(front, ScriptText(lines[1..]), LineText(last));
    }
  }

  /** Whether every line of a script is read back: remarks always are. */
  predicate AllReadable(lines: seq<ScriptLine>) {
    forall i :: 0 <= i < |lines| ==> ReadableLine(lines[i])
  }

  /**
   The round trip of the language: steps written line by line, with remarks
   anywhere, are read back, exactly when all values are trimmed and free of
   bars and newlines, and the last value of each step is free of SOH.
   */
  lemma ScriptRoundTrip(lines: seq<ScriptLine>)
    requires forall i :: 0 <= i < |lines| && lines[i].Remark? ==> IsRemark(lines[i].text)
    ensures ReadScript(ScriptText(lines), 1) == Ok(StepsOf(lines)) <==> AllReadable(lines)
  {
    hide ReadScript, ScriptText, StepsOf, PlainFields, IsRemark;
    if AllReadable(lines) {
      assert forall i :: 0 <= i < |lines| ==> ReadableLine(lines[i]) && PlainLine(lines[i]);
      PlainScript(lines, 1);
    }
    if ReadScript(ScriptText(lines), 1) == Ok(StepsOf(lines)) {
      ScriptReadIs(ScriptText(lines), 1, StepsOf(lines));
      forall i | 0 <= i < |lines|
        ensures PlainLine(lines[i])
      {
        if lines[i].StepLine? {
          StepsOfHas(lines, i);
          var k :| 0 <= k < |StepsOf(lines)| && StepsOf(lines)[k] == lines[i].step;
        }
      }
      PlainScript(lines, 1);
    }
  }

  /** The same when the last line is not closed. */
  lemma OpenScriptRoundTrip(lines: seq<ScriptLine>, last: ScriptLine)
    requires forall i :: 0 <= i < |lines| && lines[i].Remark? ==> IsRemark(lines[i].text)
    requires last.Remark? ==> IsRemark(last.text)
    ensures ReadScript(ScriptText(lines) + LineText(last), 1) == Ok(StepsOf(lines + [last])) <==>
            AllReadable(lines + [last])
  {
    hide ReadScript, ScriptText, LineText, StepsOf, IsRemark, AllReadable;
    ScriptOfMore(lines, last);
    ClosingIsHarmless(ScriptText(lines) + LineText(last), 1);
    ScriptRoundTrip(lines + [last]);
  }

  /** The step SEND 58=x, SOH, y is not read back, though its value is trimmed and free of bars and newlines. */
  lemma SohAtEndIsLost()
    ensures var value: bytes := "x" + [SOH] + "y";
            var line := StepLine(ScenarioStep(Send, [Field(58, value)]));
            ReadScript(ScriptText([line]), 1) != Ok(StepsOf([line]))
  {
    hide ReadScript, ScriptText, StepsOf, PlainFields;
    var value: bytes := "x" + [SOH] + "y";
    var line := StepLine(ScenarioStep(Send, [Field(58, value)]));
    ScriptRoundTrip([line]);
    assert value[1] == SOH;
    assert !ReadableLine([line][0]);
  }
}
