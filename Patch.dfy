/** The whole patcher (terraria-wasm/patch/Program.cs): pass 1 over the input's lines, the check
    that both facts were found, then pass 2 with the two templates of the source, whose output is
    the patched module's lines. Any exception ends the run without a result. */
module Patch {
  import opened Wrappers
  import opened TextOps
  import opened Scanner
  import opened Templates
  import opened Rewriter

  /** The check after pass 1: it throws when `callbackType` is null or `doCallbackIdx` is -1. */
  function CheckFacts(st: ScanState): (r: Result<Facts, ScanError>)
    requires st.doCallbackIdx >= -1
    ensures r.Ok? <==> st.callbackType.Some? && st.doCallbackIdx != -1
    ensures r.Ok? ==> r.value.callbackType == st.callbackType.value && r.value.doCallbackIdx == st.doCallbackIdx
    ensures r.Err? ==> r.error == MissingFacts
  {
    if st.callbackType.None? || st.doCallbackIdx == -1 then Err(MissingFacts)
    else Ok(Facts(st.callbackType.value, st.doCallbackIdx))
  }

  /** The two templates the source writes. */
  const SourceTemplates := TemplatePair(ProxyTemplate, CallbackTemplate)

  /** The outcome of a run on `lines` that injects `templates`: the exception that ends it, or
      the lines it writes. The patcher injects `SourceTemplates`. */
  function Patched(lines: seq<string>, templates: TemplatePair): Result<seq<string>, ScanError>
  {
    match ScanLines(lines)
    case Err(e) => Err(e)
    case Ok(st) =>
      CallbackIndexSetIffElemLine(lines);
      match CheckFacts(st)
      case Err(e) => Err(e)
      case Ok(facts) => Ok(Passthrough(lines, facts, templates))
  }

  /** Once pass 1 has found both facts, the output is pass 2 with those facts. */
  lemma PatchedWithFacts(lines: seq<string>, facts: Facts, templates: TemplatePair)
    requires ScanLines(lines) == Ok(ScanState(Some(facts.callbackType), facts.doCallbackIdx))
    ensures Patched(lines, templates) == Ok(Passthrough(lines, facts, templates))
  {
    CallbackIndexSetIffElemLine(lines);
  }

  /** A run produces output exactly when no line throws in pass 1, some line declares the
      callback type and some line is element segment 0. */
  lemma PatchSucceedsIff(lines: seq<string>, templates: TemplatePair)
    ensures Patched(lines, templates).Ok? <==>
      && (forall k :: 0 <= k < |lines| ==> LineError(lines[k]).None?)
      && (exists k :: 0 <= k < |lines| && IsCallbackTypeLine(lines[k]))
      && (exists k :: 0 <= k < |lines| && IsElemLine(lines[k]))
  {
    ScanSucceedsIffNoBadLine(lines);
    if ScanLines(lines).Ok? {
      CallbackTypeSetIffTypeLine(lines);
      CallbackIndexSetIffElemLine(lines);
    }
  }

  /** A module without an element segment 0 line ends the run with an exception. */
  lemma NoElemSegmentFails(lines: seq<string>, templates: TemplatePair)
    requires forall k :: 0 <= k < |lines| ==> !IsElemLine(lines[k])
    ensures Patched(lines, templates).Err?
  {
    PatchSucceedsIff(lines, templates);
  }

  /** When pass 1 succeeds, the output uses the facts of the last type line and the last
      element segment line. */
  lemma PatchUsesLastFacts(lines: seq<string>, t: nat, e: nat, templates: TemplatePair)
    requires ScanLines(lines).Ok?
    requires t < |lines| && IsCallbackTypeLine(lines[t])
    requires forall j :: t < j < |lines| ==> !IsCallbackTypeLine(lines[j])
    requires e < |lines| && IsElemLine(lines[e])
    requires forall j :: e < j < |lines| ==> !IsElemLine(lines[j])
    ensures TypeField(lines[t]).Some? && CallbackIndex(lines[e]).Some?
    ensures Patched(lines, templates) ==
      Ok(Passthrough(lines, Facts(TypeField(lines[t]).value, CallbackIndex(lines[e]).value), templates))
  {
    CallbackTypeFromLastMatch(lines, t);
    CallbackIndexFromLastElem(lines, e);
    var facts := Facts(TypeField(lines[t]).value, CallbackIndex(lines[e]).value);
    assert ScanLines(lines) == Ok(ScanState(Some(facts.callbackType), facts.doCallbackIdx));
    PatchedWithFacts(lines, facts, templates);
  }

  /** The patcher as the source runs it: pass 1, the check, pass 2. */
  method Run(lines: seq<string>) returns (r: Result<seq<string>, ScanError>)
    ensures r == Patched(lines, SourceTemplates)
  {
    var scanned := ScanPass(lines);
    if scanned.Err? {
      return Err(scanned.error);
    }
    var st := scanned.value;
    if st.callbackType.None? || st.doCallbackIdx == -1 {
      return Err(MissingFacts);
    }
    var facts := Facts(st.callbackType.value, st.doCallbackIdx);
    var out := RewritePass(lines, facts, SourceTemplates);
    r := Ok(out);
  }
}
