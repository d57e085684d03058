/** The two function bodies pass 2 injects (terraria-wasm/patch/Program.cs, lines 56-88 and
    95-108), one line per element after the raw string literal's indentation is removed, and
    their instantiation by `Replace("__X__", ...)`. */
module Templates {
  import opened TextOps

  const Placeholder := "__X__"

  /** New body of `$_emscripten_run_callback_on_thread`: queue the call with
      `$emscripten_proxy_async`, passing the table index of `$do_callback` in place of `__X__`. */
  const ProxyTemplate: seq<string> := [
    "(local i32 i32)",
    "call $emscripten_proxy_get_system_queue",
    "local.set 6",
    "i32.const 16",
    "call $dlmalloc",
    "local.tee 5",
    "local.get 4",
    "i32.store offset=12",
    "local.get 5",
    "local.get 3",
    "i32.store offset=8",
    "local.get 5",
    "local.get 2",
    "i32.store offset=4",
    "local.get 5",
    "local.get 1",
    "i32.store",
    "local.get 6",
    "local.get 0",
    "i32.const __X__",
    "local.get 5",
    "call $emscripten_proxy_async",
    "i32.eqz",
    "if  ;; label = @1",
    "  i32.const 246281",
    "  i32.const 164275",
    "  i32.const 40",
    "  i32.const 150929",
    "  call $__assert_fail",
    "  unreachable",
    "end)"
  ]

  /** New body of `$do_callback`: an indirect call through the callback type in place of `__X__`. */
  const CallbackTemplate: seq<string> := [
    "local.get 0",
    "i32.load offset=4",
    "local.get 0",
    "i32.load offset=8",
    "local.get 0",
    "i32.load offset=12",
    "local.get 0",
    "i32.load",
    "call_indirect (type __X__)",
    "drop",
    "local.get 0",
    "call $dlfree)"
  ]

  /** A template with every `__X__` of every line replaced by `value`. */
  function Instantiate(template: seq<string>, value: string): (r: seq<string>)
    ensures |r| == |template|
  {
    seq(|template|, i requires 0 <= i < |template| => Replace(template[i], Placeholder, value))
  }

  // Where the placeholder stands in each template, proved a step at a time.

  lemma ProxyPlaceholderNotBefore19()
    ensures forall i :: 0 <= i < 19 && i != 1 ==> 'X' !in ProxyTemplate[i]
  {
  }

  lemma ProxyPlaceholderNotAfter19()
    ensures forall i :: 19 < i < |ProxyTemplate| && i != 21 ==> 'X' !in ProxyTemplate[i]
  {
  }

  // The two long `call` lines, character by character.

  lemma ProxyPlaceholderNotInQueueCall()
    ensures forall j :: 0 <= j < |ProxyTemplate[1]| ==> ProxyTemplate[1][j] != 'X'
  {
  }

  lemma ProxyPlaceholderNotInAsyncCall()
    ensures forall j :: 0 <= j < |ProxyTemplate[21]| ==> ProxyTemplate[21][j] != 'X'
  {
  }

  lemma ProxyPlaceholderOnlyAt19()
    ensures forall i :: 0 <= i < |ProxyTemplate| && i != 19 ==> 'X' !in ProxyTemplate[i]
  {
    ProxyPlaceholderNotBefore19();
    ProxyPlaceholderNotAfter19();
    ProxyPlaceholderNotInQueueCall();
    ProxyPlaceholderNotInAsyncCall();
  }

  lemma ProxyPlaceholderReplaced(line: string, value: string)
    requires line == ProxyTemplate[19]
    ensures Replace(line, Placeholder, value) == "i32.const " + value
  {
    assert line == "i32.const " + Placeholder + "";
    ReplaceSingle("i32.const ", Placeholder, "", value, 2);
  }

  lemma CallbackPlaceholderOnlyAt8()
    ensures forall i :: 0 <= i < |CallbackTemplate| && i != 8 ==> 'X' !in CallbackTemplate[i]
  {
  }

  lemma CallbackPlaceholderReplaced(line: string, value: string)
    requires line == CallbackTemplate[8]
    ensures Replace(line, Placeholder, value) == "call_indirect (type " + value + ")"
  {
    var pre := "call_indirect (type ";
    assert 'X' !in pre && Placeholder[..2] == "__";
    assert line == pre + Placeholder + ")";
    ReplaceSingle(pre, Placeholder, ")", value, 2);
  }

  /** A template whose only line holding the placeholder's `X` is line `k` is instantiated by
      replacing line `k` alone. */
  lemma InstantiateOneLine(template: seq<string>, k: nat, value: string)
    requires k < |template|
    requires forall i :: 0 <= i < |template| && i != k ==> 'X' !in template[i]
    ensures Instantiate(template, value) ==
      template[..k] + [Replace(template[k], Placeholder, value)] + template[k + 1..]
  {
    var r := Instantiate(template, value);
    var expected := template[..k] + [Replace(template[k], Placeholder, value)] + template[k + 1..];
    assert Placeholder[2] == 'X';
    forall i | 0 <= i < |template| ensures r[i] == expected[i] {
      if i != k {
        AbsentCharNotContained(template[i], Placeholder, 2);
      }
    }
  }

  /** In the proxy template only the operand of the `i32.const` before `local.get 5` holds the
      placeholder: instantiating it with `value` rewrites that one line to `i32.const <value>`
      and leaves the other thirty lines as they are. */
  lemma InstantiateProxy(value: string)
    ensures Instantiate(ProxyTemplate, value) ==
      ProxyTemplate[..19] + ["i32.const " + value] + ProxyTemplate[20..]
  {
    ProxyPlaceholderOnlyAt19();
    ProxyPlaceholderReplaced(ProxyTemplate[19], value);
    InstantiateOneLine(ProxyTemplate, 19, value);
  }

  /** In the callback template only the type use of `call_indirect` holds the placeholder:
      instantiating it with `value` gives `call_indirect (type <value>)` and changes nothing else. */
  lemma InstantiateCallback(value: string)
    ensures Instantiate(CallbackTemplate, value) ==
      CallbackTemplate[..8] + ["call_indirect (type " + value + ")"] + CallbackTemplate[9..]
  {
    CallbackPlaceholderOnlyAt8();
    CallbackPlaceholderReplaced(CallbackTemplate[8], value);
    InstantiateOneLine(CallbackTemplate, 8, value);
  }
}
