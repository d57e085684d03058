/** Pass 2 of the patcher (terraria-wasm/patch/Program.cs, lines 30-111): a second forward pass
    that copies every line to the output, except the lines of the two target function bodies,
    which it drops after writing a template in their place. Its state is `inTarget` and
    `nesting`, the count of `(` minus `)` over the dropped lines. The two templates are a
    parameter here; the patcher passes the ones of the Templates module. */
module Rewriter {
  import opened TextOps
  import opened Templates

  const ProxyHeader := "(func $_emscripten_run_callback_on_thread (type"
  const CallbackHeader := "(func $do_callback (type"

  /** The two facts pass 1 found, once checked: `callbackType` is not null and `doCallbackIdx` is not -1. */
  datatype Facts = Facts(callbackType: string, doCallbackIdx: nat)

  /** The template written after a `$_emscripten_run_callback_on_thread` header and the one
      written after a `$do_callback` header. */
  datatype TemplatePair = TemplatePair(proxy: seq<string>, callback: seq<string>)

  /** A line that starts a target region. */
  predicate IsHeader(line: string) {
    Contains(line, ProxyHeader) || Contains(line, CallbackHeader)
  }

  /** What the two `if` blocks after the copy step write for a line: the proxy template with the
      decimal table index, then the callback template with the type id. */
  function Injected(line: string, facts: Facts, templates: TemplatePair): seq<string>
  {
    (if Contains(line, ProxyHeader) then Instantiate(templates.proxy, Decimal(facts.doCallbackIdx)) else [])
    + (if Contains(line, CallbackHeader) then Instantiate(templates.callback, facts.callbackType) else [])
  }

  /** The loop variables of pass 2 between two lines. Outside a region `nesting` is 0. */
  datatype LoopState = LoopState(inTarget: bool, nesting: nat)

  const Outside := LoopState(false, 0)

  /** What one iteration writes for `line`: the line itself unless it is inside a region, then
      what the two `if` blocks write. */
  function Written(st: LoopState, line: string, facts: Facts, templates: TemplatePair): seq<string>
  {
    (if st.inTarget then [] else [line]) + Injected(line, facts, templates)
  }

  /** The loop variables after one iteration on `line`: inside a region the line's balance is
      added to `nesting`; a negative total ends the region and resets `nesting`; a header line
      starts a region. */
  function Next(st: LoopState, line: string): LoopState
  {
    var n := if st.inTarget then st.nesting + Balance(line) else st.nesting;
    if n < 0 then LoopState(IsHeader(line), 0)
    else LoopState(st.inTarget || IsHeader(line), n)
  }

  /** Outside a region `nesting` is 0, and an iteration keeps it so. */
  predicate Consistent(st: LoopState) {
    !st.inTarget ==> st.nesting == 0
  }

  lemma NextKeepsConsistent(st: LoopState, line: string)
    requires Consistent(st)
    ensures Consistent(Next(st, line))
    ensures !st.inTarget && !IsHeader(line) ==> Next(st, line) == Outside
    ensures IsHeader(line) ==> Next(st, line).inTarget
  {
  }

  /** Everything the loop writes for `lines` when it starts in state `st`. */
  function Output(st: LoopState, lines: seq<string>, facts: Facts, templates: TemplatePair): seq<string>
    decreases |lines|
  {
    if |lines| == 0 then []
    else Written(st, lines[0], facts, templates) + Output(Next(st, lines[0]), lines[1..], facts, templates)
  }

  /** The output of pass 2 for a whole file. */
  function Passthrough(lines: seq<string>, facts: Facts, templates: TemplatePair): seq<string>
  {
    Output(Outside, lines, facts, templates)
  }

  /** The output from line `i` on is what line `i` writes followed by the output from line `i + 1`. */
  lemma OutputStep(st: LoopState, lines: seq<string>, i: nat, facts: Facts, templates: TemplatePair)
    requires i < |lines|
    ensures Output(st, lines[i..], facts, templates) ==
      Written(st, lines[i], facts, templates) + Output(Next(st, lines[i]), lines[i + 1..], facts, templates)
  {
    assert lines[i..][0] == lines[i] && lines[i..][1..] == lines[i + 1..];
  }

  lemma AppendAssociative(a: seq<string>, b: seq<string>, c: seq<string>)
    ensures (a + b) + c == a + (b + c)
  {
  }

  /** One iteration of the loop of pass 2 on `line`: what it writes, in order, and the new
      `inTarget` and `nesting`. */
  method RewriteLine(line: string, inTarget: bool, nesting: int, facts: Facts, templates: TemplatePair)
    returns (written: seq<string>, inTarget': bool, nesting': int)
    requires nesting >= 0
    ensures written == Written(LoopState(inTarget, nesting), line, facts, templates)
    ensures inTarget' == Next(LoopState(inTarget, nesting), line).inTarget
    ensures nesting' == Next(LoopState(inTarget, nesting), line).nesting
  {
    written, inTarget', nesting' := [], inTarget, nesting;
    if inTarget' {
      nesting' := nesting' + CountChar(line, '(') - CountChar(line, ')');
    } else {
      written := written + [line];
    }
    if nesting' < 0 {
      inTarget' := false;
      nesting' := 0;
    }
    ghost var copied := written;
    if Contains(line, ProxyHeader) {
      written := written + Instantiate(templates.proxy, Decimal(facts.doCallbackIdx));
      inTarget' := true;
    }
    ghost var proxied := written;
    if Contains(line, CallbackHeader) {
      written := written + Instantiate(templates.callback, facts.callbackType);
      inTarget' := true;
    }
    assert written == copied + Injected(line, facts, templates) by {
      var proxyBlock := if Contains(line, ProxyHeader) then Instantiate(templates.proxy, Decimal(facts.doCallbackIdx)) else [];
      var callbackBlock := if Contains(line, CallbackHeader) then Instantiate(templates.callback, facts.callbackType) else [];
      assert Injected(line, facts, templates) == proxyBlock + callbackBlock;
      assert proxied == copied + proxyBlock;
      assert written == proxied + callbackBlock;
    }
  }

  /** Pass 2 as the source runs it, appending to the output as it goes. At the end of every
      iteration `nesting` is non-negative. */
  method RewritePass(lines: seq<string>, facts: Facts, templates: TemplatePair) returns (out: seq<string>)
    ensures out == Passthrough(lines, facts, templates)
  {
    var inTarget := false;
    var nesting: int := 0;
    out := [];
    var i := 0;
    while i < |lines|
      invariant 0 <= i <= |lines| && nesting >= 0 && (!inTarget ==> nesting == 0)
      invariant out + Output(LoopState(inTarget, nesting), lines[i..], facts, templates) == Passthrough(lines, facts, templates)
    {
      ghost var st := LoopState(inTarget, nesting);
      var written;
      written, inTarget, nesting := RewriteLine(lines[i], inTarget, nesting, facts, templates);
      NextKeepsConsistent(st, lines[i]);
      OutputStep(st, lines, i, facts, templates);
      AppendAssociative(out, written, Output(Next(st, lines[i]), lines[i + 1..], facts, templates));
      out := out + written;
      i := i + 1;
    }
    assert lines[i..] == [];
  }

  /** Total balance of a run of lines. */
  function SumBalance(lines: seq<string>): int
  {
    if |lines| == 0 then 0 else Balance(lines[0]) + SumBalance(lines[1..])
  }

  /** The running balance after `k + 1` lines is the one after `k` lines plus line `k`'s. */
  lemma {:induction false} SumBalanceExtend(lines: seq<string>, k: nat)
    requires k < |lines|
    ensures SumBalance(lines[..k + 1]) == SumBalance(lines[..k]) + Balance(lines[k])
  {
    if k == 0 {
      assert lines[..1] == [lines[0]];
      assert lines[..1][1..] == [];
    } else {
      SumBalanceExtend(lines[1..], k - 1);
      assert lines[..k + 1][1..] == lines[1..][..k];
      assert lines[..k][1..] == lines[1..][..k - 1];
    }
  }

  /** No line of `lines` starts a target region. */
  predicate HeaderFree(lines: seq<string>) {
    forall i :: 0 <= i < |lines| ==> !IsHeader(lines[i])
  }

  /** `body`, entered at depth `nesting`, keeps a non-negative running balance up to its last
      line, which takes it below zero: the last line is the one that closes the function. */
  predicate ClosesAtLast(body: seq<string>, nesting: nat) {
    && |body| > 0
    && (forall k :: 0 < k < |body| ==> nesting + SumBalance(body[..k]) >= 0)
    && nesting + SumBalance(body) < 0
  }

  /** Outside a region, a line without a header is copied and adds nothing. */
  lemma PassthroughCopiesLine(line: string, rest: seq<string>, facts: Facts, templates: TemplatePair)
    requires !IsHeader(line)
    ensures Passthrough([line] + rest, facts, templates) == [line] + Passthrough(rest, facts, templates)
  {
    var lines := [line] + rest;
    assert lines[0] == line && lines[1..] == rest;
    assert Injected(line, facts, templates) == [];
  }

  /** Outside a region, lines that contain no header are copied verbatim and add nothing. */
  lemma {:induction false} PassthroughCopiesHeaderFree(a: seq<string>, b: seq<string>, facts: Facts, templates: TemplatePair)
    requires HeaderFree(a)
    ensures Passthrough(a + b, facts, templates) == a + Passthrough(b, facts, templates)
  {
    if |a| > 0 {
      assert a + b == [a[0]] + (a[1..] + b);
      PassthroughCopiesLine(a[0], a[1..] + b, facts, templates);
      PassthroughCopiesHeaderFree(a[1..], b, facts, templates);
      assert a == [a[0]] + a[1..];
    } else {
      assert a + b == b;
    }
  }

  /** A file without either header is written out unchanged. */
  lemma HeaderFreeFileUnchanged(lines: seq<string>, facts: Facts, templates: TemplatePair)
    requires HeaderFree(lines)
    ensures Passthrough(lines, facts, templates) == lines
  {
    PassthroughCopiesHeaderFree(lines, [], facts, templates);
    assert lines + [] == lines;
  }

  /** A region whose header-free body closes at its last line drops exactly that body; what
      follows is copied again. */
  lemma {:induction false} RegionEndsWhereBodyCloses(body: seq<string>, rest: seq<string>, nesting: nat, facts: Facts, templates: TemplatePair)
    requires HeaderFree(body) && ClosesAtLast(body, nesting)
    ensures Output(LoopState(true, nesting), body + rest, facts, templates) == Passthrough(rest, facts, templates)
  {
    var lines := body + rest;
    assert lines[0] == body[0] && lines[1..] == body[1..] + rest;
    assert body[..1] == [body[0]];
    assert SumBalance(body[..1]) == Balance(body[0]);
    var n := nesting + Balance(body[0]);
    if |body| == 1 {
      assert SumBalance(body) == Balance(body[0]);
      assert rest == lines[1..];
    } else {
      assert n >= 0;
      forall k | 0 < k < |body[1..]|
        ensures n + SumBalance(body[1..][..k]) >= 0
      {
        assert body[..k + 1][0] == body[0] && body[..k + 1][1..] == body[1..][..k];
      }
      assert SumBalance(body) == Balance(body[0]) + SumBalance(body[1..]);
      RegionEndsWhereBodyCloses(body[1..], rest, n, facts, templates);
    }
  }

  /** A region whose body never closes drops every remaining line of the file. */
  lemma {:induction false} UnclosedRegionDropsRest(body: seq<string>, nesting: nat, facts: Facts, templates: TemplatePair)
    requires HeaderFree(body)
    requires forall k :: 0 < k <= |body| ==> nesting + SumBalance(body[..k]) >= 0
    ensures Output(LoopState(true, nesting), body, facts, templates) == []
  {
    if |body| > 0 {
      assert body[..1] == [body[0]];
      assert SumBalance(body[..1]) == Balance(body[0]);
      var n := nesting + Balance(body[0]);
      forall k | 0 < k <= |body[1..]|
        ensures n + SumBalance(body[1..][..k]) >= 0
      {
        assert body[..k + 1][0] == body[0] && body[..k + 1][1..] == body[1..][..k];
      }
      UnclosedRegionDropsRest(body[1..], n, facts, templates);
    }
  }

  /** The whole effect of pass 2 on one target function: the lines before it and its header are
      copied, the template follows the header, the body up to the line that closes it is
      dropped, and the lines after it are processed as before. */
  lemma ReplacedFunction(a: seq<string>, header: string, body: seq<string>, rest: seq<string>, facts: Facts, templates: TemplatePair)
    requires HeaderFree(a) && IsHeader(header)
    requires HeaderFree(body) && ClosesAtLast(body, 0)
    ensures Passthrough(a + ([header] + (body + rest)), facts, templates)
      == a + ([header] + (Injected(header, facts, templates) + Passthrough(rest, facts, templates)))
  {
    var lines := [header] + (body + rest);
    PassthroughCopiesHeaderFree(a, lines, facts, templates);
    assert lines[0] == header && lines[1..] == body + rest;
    var injected := Injected(header, facts, templates);
    assert Passthrough(lines, facts, templates) == [header] + injected + Output(LoopState(true, 0), body + rest, facts, templates);
    RegionEndsWhereBodyCloses(body, rest, 0, facts, templates);
    AppendAssociative([header], injected, Passthrough(rest, facts, templates));
  }

  /** A line without `$` is not a header: both headers name a function. */
  lemma DollarFreeNotHeader(line: string)
    requires '$' !in line
    ensures !IsHeader(line)
  {
    assert ProxyHeader[6] == '$' && CallbackHeader[6] == '$';
    AbsentCharNotContained(line, ProxyHeader, 6);
    AbsentCharNotContained(line, CallbackHeader, 6);
  }

}
