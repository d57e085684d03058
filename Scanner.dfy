/** Pass 1 of the patcher (terraria-wasm/patch/Program.cs, lines 6-26): one forward scan over the
    lines of a WebAssembly text module that records the callback type id and the position of
    `$do_callback` in element segment 0. The scan never stops early, so later matches overwrite
    earlier ones, and the two lookups that can throw in C# end the scan with an error. */
module Scanner {
  import opened Wrappers
  import opened TextOps

  const TypeMarker := "(type"
  const CallbackSignature := "(func (param i32 i32 i32) (result i32))"
  const ElemMarker := "(elem (;0;)"
  const CallbackName := "$do_callback"

  /** The exceptions that end the patcher before pass 2. */
  datatype ScanError =
    | IndexOutOfRange     // `line.Split(";")[1]` on a matching type line without any ';'
    | NoMatchingElement   // `First(...)` finds no `$do_callback` in the element segment
    | MissingFacts        // the check after pass 1: a fact was never set

  /** The two locals pass 1 updates: `callbackType` (null is `None`) and `doCallbackIdx` (-1 when unset). */
  datatype ScanState = ScanState(callbackType: Option<string>, doCallbackIdx: int)

  const Initial := ScanState(None, -1)

  /** A declaration of the function type `[i32 i32 i32] -> [i32]`. */
  predicate IsCallbackTypeLine(line: string) {
    Contains(line, TypeMarker) && Contains(line, CallbackSignature)
  }

  /** The first element segment. */
  predicate IsElemLine(line: string) {
    Contains(line, ElemMarker)
  }

  /** `line.Split(";")[1]`, or `None` where that index is out of range. */
  function TypeField(line: string): (r: Option<string>)
    ensures r.None? <==> !Contains(line, ";")
  {
    var parts := Split(line, ";");
    if |parts| > 1 then Some(parts[1]) else None
  }

  /** In `(type (;7;) ...)` the field between the first two semicolons is the index comment's `7`. */
  lemma TypeFieldBetweenSemicolons(pre: string, id: string, post: string)
    requires ';' !in pre && ';' !in id
    ensures TypeField(pre + ";" + id + ";" + post) == Some(id)
  {
    SplitAtFirst(pre, ";", id + ";" + post);
    SplitAtFirst(id, ";", post);
    assert pre + ";" + id + ";" + post == pre + ";" + (id + ";" + post);
  }

  /** `string.Join("func", line.Split("func").Skip(1))`: the text after the first `func`. */
  function TextAfterFunc(line: string): string
  {
    Join("func", Split(line, "func")[1..])
  }

  /** The rejoined text is everything after the first `func` of the line. */
  lemma TextAfterFuncAt(line: string, i: nat)
    requires FirstOccurrence(line, "func") == Some(i)
    ensures i + 4 <= |line| && TextAfterFunc(line) == line[i + 4..]
  {
    FirstOccurrenceSpec(line, "func");
    JoinSplit(line[i + 4..], "func");
  }

  /** In `pre func rest`, where `pre` holds no `func`, the rejoined text is `rest`. */
  lemma TextAfterFirstFunc(pre: string, rest: string)
    requires !Contains(pre, "func")
    ensures TextAfterFunc(pre + "func" + rest) == rest
  {
    assert "func"[0] !in "func"[1..];
    FirstOccurrenceAfterFree(pre, "func", rest);
    TextAfterFuncAt(pre + "func" + rest, |pre|);
    assert (pre + "func" + rest)[|pre| + 4..] == rest;
  }

  /** The token list `functable` built from an element segment line. */
  function FuncTable(line: string): (r: seq<string>)
    ensures |r| >= 1
  {
    Split(TrimEnd(TextAfterFunc(line), ')'), " ")
  }

  /** `xs.Index().First(x => x.Item == name).Index`, or `None` where `First` throws. */
  function IndexOf(xs: seq<string>, name: string): (r: Option<nat>)
    ensures r.Some? ==> r.value < |xs| && xs[r.value] == name
    ensures r.Some? ==> forall j :: 0 <= j < r.value ==> xs[j] != name
    ensures r.None? <==> name !in xs
  {
    if |xs| == 0 then None
    else if xs[0] == name then Some(0)
    else match IndexOf(xs[1..], name)
      case None => None
      case Some(k) => Some(k + 1)
  }

  /** The value `doCallbackIdx` receives from an element segment line, `None` where `First` throws. */
  function CallbackIndex(line: string): Option<nat>
  {
    IndexOf(FuncTable(line), CallbackName)
  }

  /** A joined list whose last part is not empty ends with that part's last character. */
  lemma {:induction false} JoinLastChar(sep: string, parts: seq<string>)
    requires |parts| >= 1 && |parts[|parts| - 1]| > 0
    ensures |Join(sep, parts)| > 0
    ensures Join(sep, parts)[|Join(sep, parts)| - 1] == parts[|parts| - 1][|parts[|parts| - 1]| - 1]
  {
    if |parts| > 1 {
      JoinLastChar(sep, parts[1..]);
    }
  }

  /** In `pre func body)` with no `)` closing `body`, the text that is split is `body`. */
  lemma TrimmedTextAfterFunc(pre: string, body: string)
    requires !Contains(pre, "func")
    requires |body| > 0 && body[|body| - 1] != ')'
    ensures TrimEnd(TextAfterFunc(pre + "func" + body + ")"), ')') == body
  {
    assert pre + "func" + body + ")" == pre + "func" + (body + ")");
    TextAfterFirstFunc(pre, body + ")");
    assert (body + ")")[..|body|] == body;
  }

  /** The token list of an element segment `pre func t0 t1 ...)` is the names after an empty
      token: the space after `func` splits off an empty first piece. */
  lemma FuncTableOfSegment(pre: string, names: seq<string>)
    requires !Contains(pre, "func")
    requires |names| >= 1 && forall k :: 0 <= k < |names| ==> ' ' !in names[k]
    requires |names[|names| - 1]| > 0 && names[|names| - 1][|names[|names| - 1]| - 1] != ')'
    ensures FuncTable(pre + "func" + " " + Join(" ", names) + ")") == [""] + names
  {
    var body := " " + Join(" ", names);
    JoinLastChar(" ", names);
    assert pre + "func" + " " + Join(" ", names) + ")" == pre + "func" + body + ")";
    TrimmedTextAfterFunc(pre, body);
    var tokens := [""] + names;
    assert Join(" ", tokens) == body by {
      assert tokens[1..] == names;
    }
    SplitJoin(tokens, " ");
  }

  /** The index counts the empty token in front of the first name: an element segment
      `pre func t0 t1 ...)` gives position 1 to `t0`, so `$do_callback` at position `i` of the
      names yields `i + 1`. */
  lemma CallbackIndexCountsLeadingSpace(pre: string, names: seq<string>)
    requires !Contains(pre, "func")
    requires |names| >= 1 && forall k :: 0 <= k < |names| ==> ' ' !in names[k]
    requires |names[|names| - 1]| > 0 && names[|names| - 1][|names[|names| - 1]| - 1] != ')'
    ensures CallbackIndex(pre + "func" + " " + Join(" ", names) + ")") ==
      match IndexOf(names, CallbackName)
      case None => None
      case Some(i) => Some(i + 1)
  {
    FuncTableOfSegment(pre, names);
    var tokens := [""] + names;
    assert tokens[0] != CallbackName && tokens[1..] == names;
  }

  /** What a single line does to the state, following lines 14-24 in order. */
  function ScanLine(st: ScanState, line: string): Result<ScanState, ScanError>
  {
    var typed :=
      if !IsCallbackTypeLine(line) then Ok(st)
      else match TypeField(line)
        case None => Err(IndexOutOfRange)
        case Some(t) => Ok(st.(callbackType := Some(t)));
    if typed.Err? || !IsElemLine(line) then typed
    else match CallbackIndex(line)
      case None => Err(NoMatchingElement)
      case Some(i) => Ok(typed.value.(doCallbackIdx := i))
  }

  /** The state after scanning `lines` from the initial state, or the first exception. */
  function ScanLines(lines: seq<string>): Result<ScanState, ScanError>
  {
    if |lines| == 0 then Ok(Initial)
    else match ScanLines(lines[..|lines| - 1])
      case Err(e) => Err(e)
      case Ok(st) => ScanLine(st, lines[|lines| - 1])
  }

  /** Once an exception is raised, scanning more lines does not change the outcome. */
  lemma {:induction false} ScanErrorPersists(lines: seq<string>, i: nat)
    requires i <= |lines| && ScanLines(lines[..i]).Err?
    ensures ScanLines(lines) == ScanLines(lines[..i])
    decreases |lines| - i
  {
    if i < |lines| {
      assert lines[..i + 1][..i] == lines[..i];
      ScanErrorPersists(lines, i + 1);
    } else {
      assert lines[..i] == lines;
    }
  }

  /** The exception a line raises whatever the state, or `None` for a line that cannot throw. */
  function LineError(line: string): Option<ScanError>
  {
    if IsCallbackTypeLine(line) && TypeField(line).None? then Some(IndexOutOfRange)
    else if IsElemLine(line) && CallbackIndex(line).None? then Some(NoMatchingElement)
    else None
  }

  /** Pass 1 ends normally exactly when no line raises an exception. */
  lemma {:induction false} ScanSucceedsIffNoBadLine(lines: seq<string>)
    ensures ScanLines(lines).Ok? <==> forall k :: 0 <= k < |lines| ==> LineError(lines[k]).None?
  {
    if |lines| > 0 {
      var prefix := lines[..|lines| - 1];
      ScanSucceedsIffNoBadLine(prefix);
      assert forall k :: 0 <= k < |prefix| ==> prefix[k] == lines[k];
    }
  }

  /** Pass 1 fails with the exception of the first line that raises one. */
  lemma {:induction false} ScanFailsAtFirstBadLine(lines: seq<string>, k: nat)
    requires k < |lines| && LineError(lines[k]).Some?
    requires forall j :: 0 <= j < k ==> LineError(lines[j]).None?
    ensures ScanLines(lines) == Err(LineError(lines[k]).value)
  {
    var upTo := lines[..k + 1];
    ScanSucceedsIffNoBadLine(upTo[..k]);
    assert upTo[..k] == lines[..k];
    ScanErrorPersists(lines, k + 1);
  }

  /** After a normal scan `callbackType` holds the field of the LAST matching type line:
      a later match overwrites an earlier one. */
  lemma {:induction false} CallbackTypeFromLastMatch(lines: seq<string>, k: nat)
    requires ScanLines(lines).Ok?
    requires k < |lines| && IsCallbackTypeLine(lines[k])
    requires forall j :: k < j < |lines| ==> !IsCallbackTypeLine(lines[j])
    ensures TypeField(lines[k]).Some?
    ensures ScanLines(lines).value.callbackType == TypeField(lines[k])
  {
    var prefix := lines[..|lines| - 1];
    if k < |lines| - 1 {
      CallbackTypeFromLastMatch(prefix, k);
    }
  }

  /** Without a matching type line `callbackType` stays null. */
  lemma {:induction false} CallbackTypeUnsetWithoutMatch(lines: seq<string>)
    requires ScanLines(lines).Ok?
    requires forall k :: 0 <= k < |lines| ==> !IsCallbackTypeLine(lines[k])
    ensures ScanLines(lines).value.callbackType == None
  {
    if |lines| > 0 {
      var prefix := lines[..|lines| - 1];
      CallbackTypeUnsetWithoutMatch(prefix);
    }
  }

  /** After a normal scan `doCallbackIdx` comes from the LAST element segment 0 line. */
  lemma {:induction false} CallbackIndexFromLastElem(lines: seq<string>, k: nat)
    requires ScanLines(lines).Ok?
    requires k < |lines| && IsElemLine(lines[k])
    requires forall j :: k < j < |lines| ==> !IsElemLine(lines[j])
    ensures CallbackIndex(lines[k]).Some?
    ensures ScanLines(lines).value.doCallbackIdx == CallbackIndex(lines[k]).value
  {
    var prefix := lines[..|lines| - 1];
    if k < |lines| - 1 {
      CallbackIndexFromLastElem(prefix, k);
    }
  }

  /** Without an element segment 0 line `doCallbackIdx` keeps its initial -1. */
  lemma {:induction false} CallbackIndexUnsetWithoutElem(lines: seq<string>)
    requires ScanLines(lines).Ok?
    requires forall k :: 0 <= k < |lines| ==> !IsElemLine(lines[k])
    ensures ScanLines(lines).value.doCallbackIdx == -1
  {
    if |lines| > 0 {
      var prefix := lines[..|lines| - 1];
      CallbackIndexUnsetWithoutElem(prefix);
    }
  }

  /** When the last line does not satisfy `p`, some line does exactly when some line before the
      last does. */
  lemma SomeLineBeforeLast(lines: seq<string>, prefix: seq<string>, p: string -> bool)
    requires |lines| > 0 && prefix == lines[..|lines| - 1] && !p(lines[|lines| - 1])
    ensures (exists k :: 0 <= k < |lines| && p(lines[k])) <==> exists k :: 0 <= k < |prefix| && p(prefix[k])
  {
    if exists k :: 0 <= k < |lines| && p(lines[k]) {
      var k :| 0 <= k < |lines| && p(lines[k]);
      assert k < |prefix| && prefix[k] == lines[k];
    }
    if exists k :: 0 <= k < |prefix| && p(prefix[k]) {
      var k :| 0 <= k < |prefix| && p(prefix[k]);
      assert prefix[k] == lines[k];
    }
  }

  /** One line sets `callbackType` when it declares the callback type and keeps it otherwise. */
  lemma ScanLineType(st: ScanState, line: string)
    requires ScanLine(st, line).Ok?
    ensures IsCallbackTypeLine(line) ==> ScanLine(st, line).value.callbackType.Some?
    ensures !IsCallbackTypeLine(line) ==> ScanLine(st, line).value.callbackType == st.callbackType
  {
  }

  /** One line sets `doCallbackIdx` to a position when it is an element segment 0 line and
      keeps it otherwise. */
  lemma ScanLineIndex(st: ScanState, line: string)
    requires ScanLine(st, line).Ok?
    ensures IsElemLine(line) ==> ScanLine(st, line).value.doCallbackIdx >= 0
    ensures !IsElemLine(line) ==> ScanLine(st, line).value.doCallbackIdx == st.doCallbackIdx
  {
  }

  /** After a normal scan `callbackType` is set exactly when some line declares the callback type. */
  lemma {:induction false} CallbackTypeSetIffTypeLine(lines: seq<string>)
    requires ScanLines(lines).Ok?
    ensures ScanLines(lines).value.callbackType.Some? <==> exists k :: 0 <= k < |lines| && IsCallbackTypeLine(lines[k])
  {
    if |lines| > 0 {
      var last := |lines| - 1;
      var prefix := lines[..last];
      CallbackTypeSetIffTypeLine(prefix);
      ScanLineType(ScanLines(prefix).value, lines[last]);
      if IsCallbackTypeLine(lines[last]) {
        assert 0 <= last < |lines| && IsCallbackTypeLine(lines[last]);
      } else {
        SomeLineBeforeLast(lines, prefix, IsCallbackTypeLine);
      }
    }
  }

  /** After a normal scan `doCallbackIdx` is -1 or a position, and it is -1 exactly when no line
      is an element segment 0 line. */
  lemma {:induction false} CallbackIndexSetIffElemLine(lines: seq<string>)
    requires ScanLines(lines).Ok?
    ensures ScanLines(lines).value.doCallbackIdx >= -1
    ensures ScanLines(lines).value.doCallbackIdx != -1 <==> exists k :: 0 <= k < |lines| && IsElemLine(lines[k])
  {
    if |lines| > 0 {
      var last := |lines| - 1;
      var prefix := lines[..last];
      CallbackIndexSetIffElemLine(prefix);
      ScanLineIndex(ScanLines(prefix).value, lines[last]);
      if IsElemLine(lines[last]) {
        assert 0 <= last < |lines| && IsElemLine(lines[last]);
      } else {
        SomeLineBeforeLast(lines, prefix, IsElemLine);
      }
    }
  }

  /** Lines that are neither a callback type line nor an element segment 0 line leave the
      outcome of the scan as it was. */
  lemma {:induction false} ScanSkipsOtherLines(lines: seq<string>, more: seq<string>)
    requires forall k :: 0 <= k < |more| ==> !IsCallbackTypeLine(more[k]) && !IsElemLine(more[k])
    ensures ScanLines(lines + more) == ScanLines(lines)
  {
    var all := lines + more;
    if |more| > 0 {
      var init := more[..|more| - 1];
      assert all[..|all| - 1] == lines + init;
      assert all[|all| - 1] == more[|more| - 1];
      ScanSkipsOtherLines(lines, init);
    } else {
      assert all == lines;
    }
  }

  // A type declaration and an element segment as they appear in a module's text, built from
  // short pieces so that each fact about them is proved a piece at a time.
  const ExampleTypeLine := "  " + TypeMarker + " (" + ";" + "7" + ";" + ") " + CallbackSignature + ")"
  const ExampleElemPrefix := "  " + ElemMarker + " " + "(i32.const 1) "
  const ExampleNames := ["$x", "$y", "$do_callback", "$z"]
  const ExampleElemLine := ExampleElemPrefix + "func" + " " + Join(" ", ExampleNames) + ")"

  lemma ExampleTypeLineHasTypeMarker()
    ensures Contains(ExampleTypeLine, TypeMarker)
  {
    assert OccursAt(ExampleTypeLine, TypeMarker, 2);
    ContainsSpec(ExampleTypeLine, TypeMarker);
  }

  lemma ExampleTypeLineHasSignature()
    ensures Contains(ExampleTypeLine, CallbackSignature)
  {
    ContainsInMiddle("  " + TypeMarker + " (" + ";" + "7" + ";" + ") ", CallbackSignature, ")");
  }

  lemma ExampleTypeLineNotElem()
    ensures !IsElemLine(ExampleTypeLine)
  {
    assert '0' !in CallbackSignature;
    var pre := "  " + TypeMarker + " (" + ";" + "7" + ";" + ") ";
    assert '0' !in pre;
    assert ExampleTypeLine == pre + CallbackSignature + ")";
    assert ElemMarker[8] == '0';
    AbsentCharNotContained(ExampleTypeLine, ElemMarker, 8);
  }

  lemma ExampleTypeLineMatches()
    ensures IsCallbackTypeLine(ExampleTypeLine) && !IsElemLine(ExampleTypeLine)
  {
    ExampleTypeLineHasTypeMarker();
    ExampleTypeLineHasSignature();
    ExampleTypeLineNotElem();
  }

  lemma ExampleTypeLineField()
    ensures TypeField(ExampleTypeLine) == Some("7")
  {
    var pre := "  " + TypeMarker + " (";
    var post := ") " + CallbackSignature + ")";
    assert ExampleTypeLine == pre + ";" + "7" + ";" + post;
    TypeFieldBetweenSemicolons(pre, "7", post);
  }

  lemma ExampleElemLineHasMarker()
    ensures IsElemLine(ExampleElemLine)
  {
    assert OccursAt(ExampleElemLine, ElemMarker, 2);
    ContainsSpec(ExampleElemLine, ElemMarker);
  }

  lemma ExampleElemLineWithoutP()
    ensures 'p' !in ExampleElemLine
  {
    assert 'p' !in Join(" ", ExampleNames) by {
      CharNotInJoin('p', " ", ExampleNames);
    }
    assert 'p' !in ExampleElemPrefix;
  }

  lemma ExampleElemLineNotType()
    ensures !IsCallbackTypeLine(ExampleElemLine)
  {
    ExampleElemLineWithoutP();
    assert TypeMarker[3] == 'p';
    AbsentCharNotContained(ExampleElemLine, TypeMarker, 3);
  }

  lemma ExampleElemLineIndex()
    ensures CallbackIndex(ExampleElemLine) == Some(3)
  {
    assert 'f' !in ExampleElemPrefix;
    AbsentCharNotContained(ExampleElemPrefix, "func", 0);
    CallbackIndexCountsLeadingSpace(ExampleElemPrefix, ExampleNames);
    assert IndexOf(ExampleNames, CallbackName) == Some(2);
  }

  /** Scanning two lines is scanning the first from the initial state, then the second. */
  lemma ScanTwoLines(first: string, second: string)
    requires ScanLine(Initial, first).Ok?
    ensures ScanLines([first, second]) == ScanLine(ScanLine(Initial, first).value, second)
  {
    var lines := [first, second];
    assert lines[..1][..0] == [];
    assert lines[..1] == [first];
    assert ScanLines(lines[..1]) == ScanLine(Initial, first);
  }

  lemma ExampleTypeLineScan()
    ensures ScanLine(Initial, ExampleTypeLine) == Ok(ScanState(Some("7"), -1))
  {
    ExampleTypeLineMatches();
    ExampleTypeLineField();
  }

  lemma ExampleElemLineScan()
    ensures ScanLine(ScanState(Some("7"), -1), ExampleElemLine) == Ok(ScanState(Some("7"), 3))
  {
    ExampleElemLineHasMarker();
    ExampleElemLineNotType();
    ExampleElemLineIndex();
  }

  /** A module with the type declaration `(;7;)` and the segment `func $x $y $do_callback $z`
      gives the type id `7` and the index 3 (not 2: the empty token before `$x` counts). */
  lemma ExampleScan()
    ensures ScanLines([ExampleTypeLine, ExampleElemLine]) == Ok(ScanState(Some("7"), 3))
  {
    ExampleTypeLineScan();
    ExampleElemLineScan();
    ScanTwoLines(ExampleTypeLine, ExampleElemLine);
  }

  /** The body of the loop of pass 1 on one line: the new values of the two locals, or the
      exception the line raises. */
  method ScanStep(callbackType: Option<string>, doCallbackIdx: int, line: string)
    returns (r: Result<ScanState, ScanError>)
    ensures r == ScanLine(ScanState(callbackType, doCallbackIdx), line)
  {
    var typeId := callbackType;
    if Contains(line, TypeMarker) && Contains(line, CallbackSignature) {
      var parts := Split(line, ";");
      if |parts| < 2 {
        return Err(IndexOutOfRange);
      }
      typeId := Some(parts[1]);
    }
    var index := doCallbackIdx;
    if Contains(line, ElemMarker) {
      var functable := Split(TrimEnd(Join("func", Split(line, "func")[1..]), ')'), " ");
      match IndexOf(functable, CallbackName)
      case None =>
        return Err(NoMatchingElement);
      case Some(k) =>
        index := k;
    }
    r := Ok(ScanState(typeId, index));
  }

  /** Pass 1 as the source runs it: a loop over the lines updating `callbackType` and
      `doCallbackIdx`, leaving with the exception that a failing lookup throws. */
  method ScanPass(lines: seq<string>) returns (r: Result<ScanState, ScanError>)
    ensures r == ScanLines(lines)
    ensures r.Ok? ==> r.value.doCallbackIdx >= -1
  {
    var callbackType: Option<string> := None;
    var doCallbackIdx: int := -1;
    var i := 0;
    while i < |lines|
      invariant 0 <= i <= |lines|
      invariant ScanLines(lines[..i]) == Ok(ScanState(callbackType, doCallbackIdx))
      invariant doCallbackIdx >= -1
    {
      assert lines[..i + 1][..i] == lines[..i];
      var step := ScanStep(callbackType, doCallbackIdx, lines[i]);
      if step.Err? {
        ScanErrorPersists(lines, i + 1);
        return step;
      }
      callbackType, doCallbackIdx := step.value.callbackType, step.value.doCallbackIdx;
      i := i + 1;
    }
    assert lines[..i] == lines;
    r := Ok(ScanState(callbackType, doCallbackIdx));
  }
}
