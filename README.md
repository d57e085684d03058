# terraria-wasm patcher, modelled in Dafny

`terraria-wasm/patch/Program.cs` patches the WebAssembly text (`.wat`) of the game build. It
reads the module line by line, twice, and only ever matches substrings: it does not parse the
text format.

* **Pass 1** (lines 9-26) scans every line.
  * A line holding both `(type` and `(func (param i32 i32 i32) (result i32))` sets
    `callbackType` to `line.Split(";")[1]`.
  * A line holding `(elem (;0;)` sets `doCallbackIdx` to the position of `$do_callback` in the
    token list. The list is the text after the first `func`, without the run of `)` at its end,
    split on single spaces.
* **The check** (line 28) throws unless both facts were set.
* **Pass 2** (lines 30-111) copies the module to the output, with two exceptions.
  * After the header line of `$_emscripten_run_callback_on_thread` it writes the proxy template.
    The template's `__X__` is replaced by the decimal text of `doCallbackIdx`.
  * After the header of `$do_callback` it writes the callback template, with `__X__` replaced by
    `callbackType`.
  * Each header met outside a region starts a region of dropped lines. Inside it, `nesting`
    adds the count of `(` minus the count of `)` of every line. The line that takes `nesting`
    below zero is the last one dropped.
  * A header met inside a region is dropped like any other line there, and its parentheses
    are added to `nesting`. Its template is still written. If that header is also the line that
    takes `nesting` below zero, a new region starts after it with `nesting` at 0.

The model is a set of Dafny modules, one per part of the program.

| module | what it holds |
|---|---|
| `Wrappers` | `Option` and `Result` |
| `TextOps` | The .NET string operations the program calls (`Contains`, `Split`, `string.Join`, `TrimEnd`, `Count`, `Replace`, integer interpolation), each specified |
| `Scanner` | Pass 1 |
| `Templates` | The two injected bodies, and the effect of `Replace("__X__", …)` on them |
| `Rewriter` | Pass 2 |
| `Patch` | The whole run: pass 1, the check, pass 2 |
| `RewriteExamples`, `PatchExample` | A small module run through the model end to end |

The two passes are methods with `while` loops (`Scanner.ScanPass`, `Rewriter.RewritePass`) over
the input lines. Their loop bodies are `Scanner.ScanStep` and `Rewriter.RewriteLine`. Each
method is proved equal to a specification function: a fold of `ScanLine` for pass 1, and
`Output`, a fold of one iteration (`Written`, `Next`), for pass 2. The lemmas then prove what
the program promises about those functions.

Four behaviours of the code are easy to misread; the model follows the code:

* **Last match wins.** The scan never leaves its loop early, so a later matching type line
  overwrites `callbackType`, and the last element segment line sets `doCallbackIdx`.
* **The index counts an empty token.** The text after `func` starts with a space, so token 0 is
  the empty string. `func $x $y $do_callback $z` yields 3, one more than the position among the
  names.
* **A failing lookup throws.** A missing `$do_callback` makes `First` throw; it does not leave the
  index at -1. A matching type line without `;` makes `Split(";")[1]` throw. Both end the run
  with an error (`ScanError`).
* **The header line is kept.** A header met outside a region is copied to the output before its
  template, and its own parentheses are not counted: `nesting` starts at 0 on the next line.
  A header met inside a region is not copied, and its parentheses are counted.

## Model

| member | source | states |
|---|---|---|
| TextOps.FirstOccurrenceSpec | terraria-wasm/patch/Program.cs:14 | The position found is an occurrence, and no occurrence starts earlier; none is found only when the pattern occurs nowhere |
| TextOps.ContainsSpec | terraria-wasm/patch/Program.cs:14 | `Contains(s, p)` holds exactly when `p` occurs at some position of `s` |
| TextOps.ContainsInMiddle | terraria-wasm/patch/Program.cs:19 | A string built around the pattern contains it |
| TextOps.AbsentCharNotContained | terraria-wasm/patch/Program.cs:53 | A string lacking one character of the pattern does not contain the pattern |
| TextOps.NoEarlyOccurrence | terraria-wasm/patch/Program.cs:16 | The first occurrence of `sep` in `pre + sep + rest` is right after `pre`, when a character of `sep` is absent from `pre` |
| TextOps.FirstOccurrenceAfterFree | terraria-wasm/patch/Program.cs:21 | In `pre + p + rest`, where `pre` does not contain `p` and the first character of `p` does not recur later in `p`, the first occurrence of `p` is right after `pre` |
| TextOps.BeforeFirstOccurrenceFree | terraria-wasm/patch/Program.cs:16 | The text before the first occurrence of a non-empty pattern does not contain it |
| TextOps.Split | terraria-wasm/patch/Program.cs:16 | `Split` always yields at least one piece, the empty pieces included |
| TextOps.JoinSplit | terraria-wasm/patch/Program.cs:21 | Joining the pieces of a split with the same separator gives back the string |
| TextOps.SplitPiecesFree | terraria-wasm/patch/Program.cs:16 | No piece of a split contains the separator |
| TextOps.SplitAtFirst | terraria-wasm/patch/Program.cs:16 | Splitting `pre + sep + rest` gives `pre` followed by the pieces of `rest` |
| TextOps.SplitJoin | terraria-wasm/patch/Program.cs:21 | Splitting a join on a one-character separator, absent from the parts, gives back the parts |
| TextOps.CharNotInJoin | terraria-wasm/patch/Program.cs:21 | A character in neither the separator nor any part is not in the joined string |
| TextOps.TrimEnd | terraria-wasm/patch/Program.cs:21 | The result is a prefix that does not end in `c`, and only `c`s were removed |
| TextOps.CountCharIsMultiplicity | terraria-wasm/patch/Program.cs:39 | `Count(x => x == c)` is the multiplicity of `c` among the characters |
| TextOps.ParenFreeBalance | terraria-wasm/patch/Program.cs:39 | A line without parentheses leaves `nesting` unchanged |
| TextOps.BalanceAppend | terraria-wasm/patch/Program.cs:39 | The balance of a concatenation is the sum of the balances |
| TextOps.Replace | terraria-wasm/patch/Program.cs:88 | Without an occurrence of the pattern the string is unchanged |
| TextOps.ReplaceIsJoinSplit | terraria-wasm/patch/Program.cs:88 | `Replace` equals splitting at the pattern and joining with the replacement |
| TextOps.ReplaceSingle | terraria-wasm/patch/Program.cs:108 | A single occurrence is replaced and the text around it is kept |
| TextOps.Digit | terraria-wasm/patch/Program.cs:88 | A value below ten becomes a character from `0` to `9` |
| TextOps.Decimal | terraria-wasm/patch/Program.cs:88 | `$"{n}"` is a non-empty run of digits without a leading zero |
| TextOps.DecimalRoundTrip | terraria-wasm/patch/Program.cs:88 | Reading the decimal text back gives the number |
| Templates.Instantiate | terraria-wasm/patch/Program.cs:56-88 | Instantiation keeps the number of template lines |
| Templates.ProxyPlaceholderOnlyAt19 | terraria-wasm/patch/Program.cs:57-87 | No proxy template line other than `i32.const __X__` holds the placeholder |
| Templates.ProxyPlaceholderReplaced | terraria-wasm/patch/Program.cs:76 | `i32.const __X__` becomes `i32.const <value>` |
| Templates.CallbackPlaceholderOnlyAt8 | terraria-wasm/patch/Program.cs:96-107 | No callback template line other than the `call_indirect` holds the placeholder |
| Templates.CallbackPlaceholderReplaced | terraria-wasm/patch/Program.cs:104 | `call_indirect (type __X__)` becomes `call_indirect (type <value>)` |
| Templates.InstantiateOneLine | terraria-wasm/patch/Program.cs:88 | A template whose placeholder sits on one line changes on that line only |
| Templates.InstantiateProxy | terraria-wasm/patch/Program.cs:56-88 | The proxy body with the table index in the `i32.const` operand, the other thirty lines unchanged |
| Templates.InstantiateCallback | terraria-wasm/patch/Program.cs:95-108 | The callback body with the type id in `call_indirect`, the other eleven lines unchanged |
| Scanner.TypeField | terraria-wasm/patch/Program.cs:16 | `Split(";")[1]` is out of range exactly when the line has no `;` |
| Scanner.TypeFieldBetweenSemicolons | terraria-wasm/patch/Program.cs:16 | In `(type (;7;) …)` the field read is the text between the first two `;` |
| Scanner.TextAfterFuncAt | terraria-wasm/patch/Program.cs:21 | Rejoining the pieces after the split on `func` gives everything after the first `func` of the line |
| Scanner.TextAfterFirstFunc | terraria-wasm/patch/Program.cs:21 | For `pre func rest`, where `pre` holds no `func`, the rejoined text is `rest`, even when `rest` holds more `func` |
| Scanner.TrimmedTextAfterFunc | terraria-wasm/patch/Program.cs:21 | For `pre func body)`, where `pre` holds no `func` and `body` does not end in `)`, the trimmed text is `body` |
| Scanner.FuncTable | terraria-wasm/patch/Program.cs:21 | The token list is never empty |
| Scanner.IndexOf | terraria-wasm/patch/Program.cs:22 | The index found is the first position holding the name; there is none exactly when the name is absent, which is when `First` throws |
| Scanner.FuncTableOfSegment | terraria-wasm/patch/Program.cs:21 | The token list of `pre func t0 t1 …)`, where `pre` holds no `func`, is an empty token followed by the names |
| Scanner.CallbackIndexCountsLeadingSpace | terraria-wasm/patch/Program.cs:21-22 | In `pre func t0 t1 …)`, where `pre` holds no `func`, `$do_callback` at position `i` among the names gives index `i + 1`; absent, the lookup throws |
| Scanner.ScanErrorPersists | terraria-wasm/patch/Program.cs:12-24 | Once a line throws, later lines do not change the outcome |
| Scanner.ScanSucceedsIffNoBadLine | terraria-wasm/patch/Program.cs:12-24 | Pass 1 ends normally exactly when no line throws |
| Scanner.ScanFailsAtFirstBadLine | terraria-wasm/patch/Program.cs:12-24 | Pass 1 fails with the exception of the first line that throws |
| Scanner.CallbackTypeFromLastMatch | terraria-wasm/patch/Program.cs:14-18 | `callbackType` is the field of the last matching type line |
| Scanner.CallbackTypeUnsetWithoutMatch | terraria-wasm/patch/Program.cs:6-18 | Without a matching type line `callbackType` stays null |
| Scanner.CallbackIndexFromLastElem | terraria-wasm/patch/Program.cs:19-23 | `doCallbackIdx` comes from the last element segment 0 line |
| Scanner.CallbackIndexUnsetWithoutElem | terraria-wasm/patch/Program.cs:7-23 | Without an element segment 0 line `doCallbackIdx` stays -1 |
| Scanner.ScanLineType | terraria-wasm/patch/Program.cs:14-18 | A line sets `callbackType` when it is a matching type line, and keeps it otherwise |
| Scanner.ScanLineIndex | terraria-wasm/patch/Program.cs:19-23 | An element segment 0 line sets `doCallbackIdx` to a position; any other line keeps it |
| Scanner.CallbackTypeSetIffTypeLine | terraria-wasm/patch/Program.cs:6-18 | After pass 1, `callbackType` is set exactly when some line is a matching type line |
| Scanner.CallbackIndexSetIffElemLine | terraria-wasm/patch/Program.cs:7-23 | After pass 1, `doCallbackIdx` is -1 or a position, and it is -1 exactly when no line is an element segment 0 line |
| Scanner.ScanSkipsOtherLines | terraria-wasm/patch/Program.cs:14-19 | Lines matching neither test leave the outcome of pass 1 as it was |
| Scanner.ExampleScan | terraria-wasm/patch/Program.cs:9-26 | A type line `(type (;7;) …)` and `(elem (;0;) … func $x $y $do_callback $z)` give type `7` and index 3 |
| Scanner.ScanStep | terraria-wasm/patch/Program.cs:14-24 | One iteration of the pass 1 loop computes `ScanLine`: the new locals, or the exception |
| Scanner.ScanPass | terraria-wasm/patch/Program.cs:6-26 | The pass 1 loop computes `ScanLines`, and `doCallbackIdx` never drops below -1 |
| Rewriter.NextKeepsConsistent | terraria-wasm/patch/Program.cs:37-109 | Every iteration keeps `nesting` at 0 outside a region; after a header line the loop is in a region |
| Rewriter.RewriteLine | terraria-wasm/patch/Program.cs:37-110 | One iteration: the lines it writes, in order, and the new `inTarget` and `nesting` |
| Rewriter.RewritePass | terraria-wasm/patch/Program.cs:30-111 | The pass 2 loop writes `Passthrough(lines)`; at the end of every iteration `nesting >= 0`, and `nesting == 0` outside a region |
| Rewriter.SumBalanceExtend | terraria-wasm/patch/Program.cs:39 | The running balance grows by each line's balance |
| Rewriter.PassthroughCopiesLine | terraria-wasm/patch/Program.cs:43-45 | Outside a region a line without a header is written once, unchanged |
| Rewriter.PassthroughCopiesHeaderFree | terraria-wasm/patch/Program.cs:37-45 | Outside a region, header-free lines are written unchanged, once each and in order, and the rest follows |
| Rewriter.HeaderFreeFileUnchanged | terraria-wasm/patch/Program.cs:30-111 | A module without either header comes out unchanged |
| Rewriter.RegionEndsWhereBodyCloses | terraria-wasm/patch/Program.cs:37-51 | A region drops its body up to the line whose balance takes `nesting` below zero, and copying resumes after it |
| Rewriter.UnclosedRegionDropsRest | terraria-wasm/patch/Program.cs:37-51 | A region whose body never closes drops every remaining line |
| Rewriter.ReplacedFunction | terraria-wasm/patch/Program.cs:37-110 | A target function comes out as its header line, then its template, and its body is dropped; the lines around it are handled as before |
| Rewriter.DollarFreeNotHeader | terraria-wasm/patch/Program.cs:53-92 | A line without `$` is not a header |
| RewriteExamples.TwoLinesCloseAtLast | terraria-wasm/patch/Program.cs:39-51 | Two lines whose balance goes negative only on the second close the region there |
| RewriteExamples.FiveLineRegion | terraria-wasm/patch/Program.cs:39-51 | Body balances +2, 0, -1, -1, -1 end the region on the fifth line, and the next line is copied again |
| RewriteExamples.OneFunctionModule | terraria-wasm/patch/Program.cs:37-110 | A module holding one target function comes out with that function's body replaced by its template |
| RewriteExamples.ExampleRewrite | terraria-wasm/patch/Program.cs:92-110 | On a small module the `$do_callback` header is kept, followed by the callback template, and its body is dropped |
| Patch.CheckFacts | terraria-wasm/patch/Program.cs:28 | The check passes exactly when `callbackType` is set and `doCallbackIdx` is not -1, and it hands both on unchanged |
| Patch.PatchedWithFacts | terraria-wasm/patch/Program.cs:28-111 | Once pass 1 has set both facts, the output is pass 2 run with them |
| Patch.PatchSucceedsIff | terraria-wasm/patch/Program.cs:9-28 | A run produces output exactly when no line throws, some line declares the callback type, and some line is element segment 0 |
| Patch.NoElemSegmentFails | terraria-wasm/patch/Program.cs:28 | A module without element segment 0 ends with an exception |
| Patch.PatchUsesLastFacts | terraria-wasm/patch/Program.cs:9-111 | The output is pass 2 run with the facts from the last type line and the last element segment line |
| Patch.Run | terraria-wasm/patch/Program.cs:6-111 | The program as written (pass 1, the check, pass 2) computes `Patched` |
| PatchExample.ExampleRun | terraria-wasm/patch/Program.cs:6-111 | On a small module the run succeeds. The `$do_callback` body becomes the callback template calling through type 7, and every other line is kept |

## Left out

- File I/O is not modelled: reading `args[0]`, writing `args[1]`, and `Flush`/`Close`. The input is the sequence of lines `ReadLine` returns, and the output is the sequence of lines written.
- Newline conventions and how `ReadLine` splits a file into lines are not modelled.
- The `StreamWriter` is created (line 4) before the check at line 28, so a failed run still leaves an empty or truncated output file. The model's error result says only that no patched module is produced.
- The `Console.Error` diagnostics (lines 17, 23, 40, 55, 94) are not modelled.
- Each template is a raw string literal with its indentation removed. It is modelled as a sequence of lines, with `Replace` applied line by line. The placeholder holds no newline, so this gives the same text as one `Replace` on the whole string.
- `WriteLine` of a multi-line template writes those lines; the model appends them to the output as separate lines.
- `$"{doCallbackIdx}"` is modelled as plain decimal digits. `doCallbackIdx` is never negative when it is printed, so culture formatting plays no part.
- `doCallbackIdx` is a 32-bit `int` in C#. It is modelled as an unbounded integer, since a table index from one line of text stays far below 2^31.
- `nesting` is a 32-bit `int` in C# (lines 31 and 39). It is modelled as an unbounded integer. Wrap-around would take more than 2^31 unmatched `(` inside one function body, and would then end the region early; the model does not capture that.
- Whether the injected WebAssembly is valid or behaves correctly is not modelled; the program never checks it.
- The other files of the repository (the TypeScript front end, the file-system and network shims, and the build configuration) are not part of this model.
