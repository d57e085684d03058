/** A run of the whole patcher on a small module: the type id and table index found by pass 1
    end up in the template that replaces the body of `$do_callback`. */
module PatchExample {
  import opened Wrappers
  import opened TextOps
  import opened Scanner
  import opened Templates
  import opened Rewriter
  import opened RewriteExamples
  import opened Patch

  /** The type declaration and element segment of the scanner's example, then the module of the
      rewriter's example. */
  const ExampleFile := [ExampleTypeLine, ExampleElemLine] + ExampleModule

  lemma ModuleLineNeitherTypeNorElem(line: string)
    requires 's' !in line && ';' !in line
    ensures !IsCallbackTypeLine(line) && !IsElemLine(line)
  {
    assert CallbackSignature == "(func (param i32 i32 i32) " + "(re" + "sult i32))";
    AbsentCharNotContained(line, CallbackSignature, 29);
    AbsentCharNotContained(line, ElemMarker, 7);
  }

  lemma LinesNeitherTypeNorElem(lines: seq<string>)
    requires forall k :: 0 <= k < |lines| ==> 's' !in lines[k] && ';' !in lines[k]
    ensures forall k :: 0 <= k < |lines| ==> !IsCallbackTypeLine(lines[k]) && !IsElemLine(lines[k])
  {
    forall k | 0 <= k < |lines|
      ensures !IsCallbackTypeLine(lines[k]) && !IsElemLine(lines[k])
    {
      ModuleLineNeitherTypeNorElem(lines[k]);
    }
  }

  lemma ExampleCallbackLineChars()
    ensures 's' !in ExampleCallbackLine && ';' !in ExampleCallbackLine
  {
    assert 's' !in CallbackHeader && ';' !in CallbackHeader;
  }

  lemma ExampleModuleChars()
    ensures forall k :: 0 <= k < |ExampleModule| ==> 's' !in ExampleModule[k] && ';' !in ExampleModule[k]
  {
    ExampleCallbackLineChars();
    assert ExampleModule == ["(module", ExampleCallbackLine, "    local.get 0", "    drop" + ")", ")"];
  }

  lemma ExampleModuleSkipped()
    ensures forall k :: 0 <= k < |ExampleModule| ==> !IsCallbackTypeLine(ExampleModule[k]) && !IsElemLine(ExampleModule[k])
  {
    ExampleModuleChars();
    LinesNeitherTypeNorElem(ExampleModule);
  }

  lemma ExampleFileScan()
    ensures ScanLines(ExampleFile) == Ok(ScanState(Some("7"), 3))
  {
    ExampleModuleSkipped();
    ScanSkipsOtherLines([ExampleTypeLine, ExampleElemLine], ExampleModule);
    ExampleScan();
  }

  lemma ExampleElemLineNotHeader()
    ensures !IsHeader(ExampleElemLine)
  {
    ExampleElemLineWithoutP();
    assert ProxyHeader[14] == 'p';
    assert CallbackHeader[22] == 'p';
    AbsentCharNotContained(ExampleElemLine, ProxyHeader, 14);
    AbsentCharNotContained(ExampleElemLine, CallbackHeader, 22);
  }

  lemma ExampleTypeLineNotHeader()
    ensures !IsHeader(ExampleTypeLine)
  {
    assert '$' !in ExampleTypeLine by {
      assert '$' !in CallbackSignature;
    }
    DollarFreeNotHeader(ExampleTypeLine);
  }

  lemma ExampleScannedLinesCopied(facts: Facts)
    ensures Passthrough(ExampleFile, facts, SourceTemplates)
      == [ExampleTypeLine, ExampleElemLine] + Passthrough(ExampleModule, facts, SourceTemplates)
  {
    ExampleTypeLineNotHeader();
    ExampleElemLineNotHeader();
    PassthroughCopiesHeaderFree([ExampleTypeLine, ExampleElemLine], ExampleModule, facts, SourceTemplates);
  }

  lemma Regroup(t: string, e: string, open: string, header: string, block: seq<string>, close: string)
    ensures [t, e] + ([open] + ([header] + (block + [close]))) == [t, e, open, header] + block + [close]
  {
  }

  /** The run succeeds; its output keeps every line outside `$do_callback`, and the body of
      `$do_callback` becomes the callback template whose `call_indirect` names type 7. */
  lemma ExampleRun()
    ensures Patched(ExampleFile, SourceTemplates) ==
      Ok([ExampleTypeLine, ExampleElemLine, "(module", ExampleCallbackLine]
        + (CallbackTemplate[..8] + ["call_indirect (type 7)"] + CallbackTemplate[9..]) + [")"])
  {
    var facts := Facts("7", 3);
    var block := CallbackTemplate[..8] + ["call_indirect (type 7)"] + CallbackTemplate[9..];
    var rewritten := Passthrough(ExampleModule, facts, SourceTemplates);
    assert Patched(ExampleFile, SourceTemplates) == Ok(Passthrough(ExampleFile, facts, SourceTemplates)) by {
      ExampleFileScan();
      PatchedWithFacts(ExampleFile, facts, SourceTemplates);
    }
    assert Passthrough(ExampleFile, facts, SourceTemplates) == [ExampleTypeLine, ExampleElemLine] + rewritten by {
      ExampleScannedLinesCopied(facts);
    }
    assert rewritten == ["(module"] + ([ExampleCallbackLine] + (block + [")"])) by {
      ExampleRewrite(facts, SourceTemplates);
      InstantiateCallback("7");
      assert "call_indirect (type " + "7" + ")" == "call_indirect (type 7)";
    }
    Regroup(ExampleTypeLine, ExampleElemLine, "(module", ExampleCallbackLine, block, ")");
  }
}
