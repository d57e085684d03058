/** Worked examples of pass 2 on a small module in the WebAssembly text format. */
module RewriteExamples {
  import opened TextOps
  import opened Templates
  import opened Rewriter

  /** A small module in the text format: a `$do_callback` function whose body ends on its
      second line. */
  const ExampleCallbackLine := "  " + CallbackHeader + " 7) (param i32)"
  const ExampleBody := ["    local.get 0", "    drop" + ")"]
  const ExampleModule := ["(module"] + ([ExampleCallbackLine] + (ExampleBody + [")"]))

  lemma ExampleCallbackLineHasCallbackHeader()
    ensures Contains(ExampleCallbackLine, CallbackHeader)
  {
    assert OccursAt(ExampleCallbackLine, CallbackHeader, 2);
    ContainsSpec(ExampleCallbackLine, CallbackHeader);
  }

  lemma ExampleCallbackLineIsCallbackHeader()
    ensures Contains(ExampleCallbackLine, CallbackHeader)
    ensures !Contains(ExampleCallbackLine, ProxyHeader)
  {
    ExampleCallbackLineHasCallbackHeader();
    assert 'h' !in ExampleCallbackLine by {
      assert 'h' !in CallbackHeader;
    }
    assert ProxyHeader[36] == 'h';
    AbsentCharNotContained(ExampleCallbackLine, ProxyHeader, 36);
  }

  /** A two-line body closes at its second line when the first keeps the depth and the second
      takes it below zero. */
  lemma TwoLinesCloseAtLast(first: string, last: string, nesting: nat)
    requires nesting + Balance(first) >= 0 && nesting + Balance(first) + Balance(last) < 0
    ensures ClosesAtLast([first, last], nesting)
  {
    var body := [first, last];
    assert body[..1] == [first];
    assert body[1..] == [last] && body[1..][1..] == [];
  }

  lemma ExampleBodyHeaderFree()
    ensures HeaderFree(ExampleBody)
  {
    DollarFreeNotHeader(ExampleBody[0]);
    DollarFreeNotHeader(ExampleBody[1]);
  }

  lemma ClosingLineBalance(s: string)
    requires '(' !in s && ')' !in s
    ensures Balance(s + ")") == -1
  {
    ParenFreeBalance(s);
    BalanceAppend(s, ")");
  }

  lemma ExampleFirstBodyLineBalance()
    ensures Balance(ExampleBody[0]) == 0
  {
    ParenFreeBalance(ExampleBody[0]);
  }

  lemma ExampleLastBodyLineBalance()
    ensures Balance(ExampleBody[1]) == -1
  {
    ClosingLineBalance("    drop");
  }

  lemma ExampleBodyCloses()
    ensures HeaderFree(ExampleBody) && ClosesAtLast(ExampleBody, 0)
  {
    ExampleBodyHeaderFree();
    ExampleFirstBodyLineBalance();
    ExampleLastBodyLineBalance();
    TwoLinesCloseAtLast(ExampleBody[0], ExampleBody[1], 0);
  }
  /** A module holding one target function between an opening and a closing line. */
  lemma OneFunctionModule(open: string, header: string, body: seq<string>, close: string, facts: Facts, templates: TemplatePair)
    requires !IsHeader(open) && !IsHeader(close) && IsHeader(header)
    requires HeaderFree(body) && ClosesAtLast(body, 0)
    ensures Passthrough([open] + ([header] + (body + [close])), facts, templates)
      == [open] + ([header] + (Injected(header, facts, templates) + [close]))
  {
    ReplacedFunction([open], header, body, [close], facts, templates);
    assert HeaderFree([open]);
    ClosingLineCopied(close, facts, templates);
  }

  lemma ClosingLineCopied(close: string, facts: Facts, templates: TemplatePair)
    requires !IsHeader(close)
    ensures Passthrough([close], facts, templates) == [close]
  {
    PassthroughCopiesLine(close, [], facts, templates);
    assert [close] + [] == [close];
  }

  /** Five body lines with balances +2, 0, -1, -1, -1: the running total first drops below zero
      at the fifth line, so the region ends there and the line after it is copied again. */
  lemma FiveLineRegion(body: seq<string>, rest: seq<string>, facts: Facts, templates: TemplatePair)
    requires |body| == 5 && HeaderFree(body)
    requires Balance(body[0]) == 2 && Balance(body[1]) == 0
    requires Balance(body[2]) == -1 && Balance(body[3]) == -1 && Balance(body[4]) == -1
    ensures ClosesAtLast(body, 0)
    ensures Output(LoopState(true, 0), body + rest, facts, templates) == Passthrough(rest, facts, templates)
  {
    assert SumBalance(body[..0]) == 0;
    SumBalanceExtend(body, 0);
    SumBalanceExtend(body, 1);
    SumBalanceExtend(body, 2);
    SumBalanceExtend(body, 3);
    SumBalanceExtend(body, 4);
    assert body[..5] == body;
    RegionEndsWhereBodyCloses(body, rest, 0, facts, templates);
  }

  lemma ExampleOuterLines()
    ensures !IsHeader("(module") && !IsHeader(")")
  {
    DollarFreeNotHeader("(module");
    DollarFreeNotHeader(")");
  }

  lemma ExampleInjected(facts: Facts, templates: TemplatePair)
    ensures IsHeader(ExampleCallbackLine)
    ensures Injected(ExampleCallbackLine, facts, templates) == Instantiate(templates.callback, facts.callbackType)
  {
    ExampleCallbackLineIsCallbackHeader();
  }

  /** Pass 2 on the example: the header is copied and followed by the callback template, the
      two body lines are dropped, and the module's closing line is copied. */
  lemma ExampleRewrite(facts: Facts, templates: TemplatePair)
    ensures Passthrough(ExampleModule, facts, templates)
      == ["(module"] + ([ExampleCallbackLine] + (Instantiate(templates.callback, facts.callbackType) + [")"]))
  {
    ExampleInjected(facts, templates);
    ExampleBodyCloses();
    ExampleOuterLines();
    OneFunctionModule("(module", ExampleCallbackLine, ExampleBody, ")", facts, templates);
  }
}
