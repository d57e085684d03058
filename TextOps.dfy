/** The ordinal string operations of .NET that the patcher applies to each line:
    `Contains`, `Split(string)`, `string.Join`, `TrimEnd(char)`, counting a character,
    `Replace(string, string)`, and the decimal rendering of a non-negative `int`. */
module TextOps {
  import opened Wrappers

  /** `p` occurs in `s` starting at position `i`. */
  predicate OccursAt(s: string, p: string, i: nat) {
    i + |p| <= |s| && s[i..i + |p|] == p
  }

  /** An occurrence at a position after the first is an occurrence in the tail. */
  lemma OccursInTail(s: string, p: string)
    requires |s| > 0
    ensures forall j: nat :: 0 < j ==> (OccursAt(s, p, j) <==> OccursAt(s[1..], p, j - 1))
  {
    forall j: nat | 0 < j ensures OccursAt(s, p, j) <==> OccursAt(s[1..], p, j - 1) {
      var i := j - 1;
      if i + 1 + |p| <= |s| {
        assert s[1..][i..i + |p|] == s[i + 1..i + 1 + |p|];
      }
    }
  }

  /** Position of the leftmost occurrence of `p` in `s`, as `String.IndexOf` with ordinal comparison. */
  function FirstOccurrence(s: string, p: string): Option<nat>
    decreases |s|
  {
    if |s| < |p| then None
    else if s[..|p|] == p then Some(0)
    else
      match FirstOccurrence(s[1..], p)
      case None => None
      case Some(k) => Some(k + 1)
  }

  /** The position found is an occurrence and no earlier position is; `None` means `p` does not
      occur at all. */
  lemma {:induction false} FirstOccurrenceSpec(s: string, p: string)
    ensures var r := FirstOccurrence(s, p);
      && (r.Some? ==> OccursAt(s, p, r.value) && forall j: nat :: j < r.value ==> !OccursAt(s, p, j))
      && (r.None? ==> forall j: nat :: !OccursAt(s, p, j))
    decreases |s|
  {
    if |s| >= |p| && s[..|p|] != p {
      OccursInTail(s, p);
      FirstOccurrenceSpec(s[1..], p);
    }
  }

  /** `String.Contains(string)`. */
  function Contains(s: string, p: string): bool
  {
    FirstOccurrence(s, p).Some?
  }

  /** `s` contains `p` exactly when `p` occurs somewhere in `s`. */
  lemma ContainsSpec(s: string, p: string)
    ensures Contains(s, p) <==> exists i: nat :: OccursAt(s, p, i)
  {
    FirstOccurrenceSpec(s, p);
  }

  /** `p` occurs in `a + p + b` right after `a`. */
  lemma ContainsInMiddle(a: string, p: string, b: string)
    ensures Contains(a + p + b, p)
  {
    assert OccursAt(a + p + b, p, |a|) by { assert (a + p + b)[|a|..|a| + |p|] == p; }
    ContainsSpec(a + p + b, p);
  }

  /** A string in which one character of `p` never appears does not contain `p`. */
  lemma AbsentCharNotContained(s: string, p: string, k: nat)
    requires k < |p| && p[k] !in s
    ensures !Contains(s, p)
  {
    ContainsSpec(s, p);
  }

  /** `String.Split(string)` with no options: the pieces between the leftmost
      non-overlapping occurrences of `sep`, empty pieces included. */
  function Split(s: string, sep: string): (r: seq<string>)
    requires |sep| > 0
    ensures |r| >= 1
    decreases |s|
  {
    FirstOccurrenceSpec(s, sep);
    match FirstOccurrence(s, sep)
    case None => [s]
    case Some(i) => [s[..i]] + Split(s[i + |sep|..], sep)
  }

  /** `String.Join(string, IEnumerable<string>)`. */
  function Join(sep: string, parts: seq<string>): string
  {
    if |parts| == 0 then ""
    else if |parts| == 1 then parts[0]
    else parts[0] + sep + Join(sep, parts[1..])
  }

  /** A character in neither the separator nor any part is not in the joined string. */
  lemma {:induction false} CharNotInJoin(c: char, sep: string, parts: seq<string>)
    requires c !in sep && forall k :: 0 <= k < |parts| ==> c !in parts[k]
    ensures c !in Join(sep, parts)
  {
    if |parts| > 1 {
      CharNotInJoin(c, sep, parts[1..]);
    }
  }

  /** Joining the pieces of a split with the same separator gives back the string. */
  lemma {:induction false} JoinSplit(s: string, sep: string)
    requires |sep| > 0
    ensures Join(sep, Split(s, sep)) == s
    decreases |s|
  {
    FirstOccurrenceSpec(s, sep);
    match FirstOccurrence(s, sep)
    case None =>
    case Some(i) =>
      var tail := s[i + |sep|..];
      var rest := Split(tail, sep);
      JoinSplit(tail, sep);
      assert Split(s, sep) == [s[..i]] + rest;
      assert Join(sep, [s[..i]] + rest) == s[..i] + sep + Join(sep, rest) by {
        assert ([s[..i]] + rest)[1..] == rest;
      }
      assert s == s[..i] + s[i..i + |sep|] + tail;
  }

  /** The text before the first occurrence of `p` does not contain `p`. */
  lemma BeforeFirstOccurrenceFree(s: string, p: string)
    requires |p| > 0 && FirstOccurrence(s, p).Some?
    ensures var i := FirstOccurrence(s, p).value; i + |p| <= |s| && !Contains(s[..i], p)
  {
    FirstOccurrenceSpec(s, p);
    var i := FirstOccurrence(s, p).value;
    forall j: nat | OccursAt(s[..i], p, j) ensures false {
      assert j + |p| <= i;
      assert s[..i][j..j + |p|] == s[j..j + |p|];
      assert OccursAt(s, p, j);
    }
    ContainsSpec(s[..i], p);
  }

  /** No piece of a split contains the separator. */
  lemma {:induction false} SplitPiecesFree(s: string, sep: string)
    requires |sep| > 0
    ensures forall k :: 0 <= k < |Split(s, sep)| ==> !Contains(Split(s, sep)[k], sep)
    decreases |s|
  {
    match FirstOccurrence(s, sep)
    case None =>
    case Some(i) =>
      BeforeFirstOccurrenceFree(s, sep);
      var tail := s[i + |sep|..];
      var later := Split(tail, sep);
      SplitPiecesFree(tail, sep);
      var pieces := Split(s, sep);
      assert pieces == [s[..i]] + later;
      forall k | 0 <= k < |pieces| ensures !Contains(pieces[k], sep) {
        if k > 0 {
          assert pieces[k] == later[k - 1];
        }
      }
  }

  /** No occurrence of `sep` starts inside `pre` when some character `sep[k]` appears neither in
      `pre` nor in `sep` before position `k`: the occurrence would put that character too early. */
  lemma NoEarlyOccurrence(pre: string, sep: string, rest: string, k: nat)
    requires k < |sep| && sep[k] !in pre + sep[..k]
    ensures FirstOccurrence(pre + sep + rest, sep) == Some(|pre|)
  {
    var s := pre + sep + rest;
    FirstOccurrenceSpec(s, sep);
    assert OccursAt(s, sep, |pre|) by { assert s[|pre|..|pre| + |sep|] == sep; }
    var i := FirstOccurrence(s, sep).value;
    assert s[i + k] == s[i..i + |sep|][k] == sep[k];
    assert s[..|pre| + k] == pre + sep[..k];
  }

  /** A pattern that cannot overlap itself (its first character does not recur in it) occurs
      first right after a prefix that does not contain it. */
  lemma FirstOccurrenceAfterFree(pre: string, p: string, rest: string)
    requires |p| > 0 && p[0] !in p[1..] && !Contains(pre, p)
    ensures FirstOccurrence(pre + p + rest, p) == Some(|pre|)
  {
    var s := pre + p + rest;
    FirstOccurrenceSpec(s, p);
    ContainsSpec(pre, p);
    assert OccursAt(s, p, |pre|) by { assert s[|pre|..|pre| + |p|] == p; }
    forall j: nat | j < |pre| ensures !OccursAt(s, p, j) {
      if j + |p| <= |pre| {
        assert s[j..j + |p|] == pre[j..j + |p|];
        assert !OccursAt(pre, p, j);
      } else {
        var d := |pre| - j;
        assert s[|pre|] == p[0] && p[d] == p[1..][d - 1];
      }
    }
  }

  /** Splitting `pre + sep + rest` cuts at the end of `pre` when `pre` lacks the first character of `sep`. */
  lemma SplitAtFirst(pre: string, sep: string, rest: string)
    requires |sep| > 0 && sep[0] !in pre
    ensures Split(pre + sep + rest, sep) == [pre] + Split(rest, sep)
  {
    var s := pre + sep + rest;
    assert pre + sep[..0] == pre;
    NoEarlyOccurrence(pre, sep, rest, 0);
    assert s[..|pre|] == pre;
    assert s[|pre| + |sep|..] == rest;
  }

  /** For a one-character separator that no part contains, splitting undoes joining. */
  lemma {:induction false} SplitJoin(parts: seq<string>, sep: string)
    requires |sep| == 1 && |parts| >= 1
    requires forall k :: 0 <= k < |parts| ==> sep[0] !in parts[k]
    ensures Split(Join(sep, parts), sep) == parts
  {
    if |parts| == 1 {
      AbsentCharNotContained(parts[0], sep, 0);
    } else {
      SplitJoin(parts[1..], sep);
      SplitAtFirst(parts[0], sep, Join(sep, parts[1..]));
    }
  }

  /** `String.TrimEnd(char)`: `s` without its trailing run of `c`. */
  function TrimEnd(s: string, c: char): (r: string)
    ensures r <= s
    ensures |r| == 0 || r[|r| - 1] != c
    ensures forall i :: |r| <= i < |s| ==> s[i] == c
    decreases |s|
  {
    if |s| > 0 && s[|s| - 1] == c then TrimEnd(s[..|s| - 1], c) else s
  }

  /** `Count(x => x == c)`: the number of positions of `s` holding `c`. */
  function CountChar(s: string, c: char): nat
    decreases |s|
  {
    if |s| == 0 then 0
    else (if s[0] == c then 1 else 0) + CountChar(s[1..], c)
  }

  /** The count is the multiplicity of `c` in the multiset of the string's characters. */
  lemma {:induction false} CountCharIsMultiplicity(s: string, c: char)
    ensures CountChar(s, c) == multiset(s)[c]
  {
    if |s| > 0 {
      CountCharIsMultiplicity(s[1..], c);
      assert s == [s[0]] + s[1..];
    }
  }

  /** Opening minus closing parentheses of a line. */
  function Balance(line: string): int
  {
    CountChar(line, '(') - CountChar(line, ')')
  }

  /** A line without parentheses leaves the depth unchanged. */
  lemma ParenFreeBalance(s: string)
    requires '(' !in s && ')' !in s
    ensures Balance(s) == 0
  {
    CountCharIsMultiplicity(s, '(');
    CountCharIsMultiplicity(s, ')');
  }

  /** The balance of two strings written one after the other is the sum of their balances. */
  lemma BalanceAppend(a: string, b: string)
    ensures Balance(a + b) == Balance(a) + Balance(b)
  {
    CountCharIsMultiplicity(a, '('); CountCharIsMultiplicity(b, '('); CountCharIsMultiplicity(a + b, '(');
    CountCharIsMultiplicity(a, ')'); CountCharIsMultiplicity(b, ')'); CountCharIsMultiplicity(a + b, ')');
    assert multiset(a + b) == multiset(a) + multiset(b);
  }

  /** `String.Replace(string, string)`: every leftmost non-overlapping occurrence of `pattern`
      replaced by `replacement`, scanning left to right. */
  function Replace(s: string, pattern: string, replacement: string): (r: string)
    requires |pattern| > 0
    ensures !Contains(s, pattern) ==> r == s
    decreases |s|
  {
    FirstOccurrenceSpec(s, pattern);
    match FirstOccurrence(s, pattern)
    case None => s
    case Some(i) => s[..i] + replacement + Replace(s[i + |pattern|..], pattern, replacement)
  }

  /** Replacing is splitting at `pattern` and joining with `replacement`. */
  lemma {:induction false} ReplaceIsJoinSplit(s: string, pattern: string, replacement: string)
    requires |pattern| > 0
    ensures Replace(s, pattern, replacement) == Join(replacement, Split(s, pattern))
    decreases |s|
  {
    FirstOccurrenceSpec(s, pattern);
    match FirstOccurrence(s, pattern)
    case None =>
    case Some(i) =>
      var tail := s[i + |pattern|..];
      var rest := Split(tail, pattern);
      ReplaceIsJoinSplit(tail, pattern, replacement);
      assert Split(s, pattern) == [s[..i]] + rest;
      assert ([s[..i]] + rest)[1..] == rest;
  }

  /** A string holding a single occurrence of `pattern` gets it replaced by `replacement` and nothing else changes. */
  lemma ReplaceSingle(pre: string, pattern: string, post: string, replacement: string, k: nat)
    requires k < |pattern| && pattern[k] !in pre + pattern[..k]
    requires !Contains(post, pattern)
    ensures Replace(pre + pattern + post, pattern, replacement) == pre + replacement + post
  {
    var s := pre + pattern + post;
    NoEarlyOccurrence(pre, pattern, post, k);
    assert s[..|pre|] == pre;
    assert s[|pre| + |pattern|..] == post;
  }

  /** The digit character for a value below ten. */
  function Digit(d: nat): (c: char)
    requires d < 10
    ensures '0' <= c <= '9'
  {
    ('0' as int + d) as char
  }

  /** The value of a string of decimal digits. */
  function ParseDecimal(s: string): nat
    requires forall i :: 0 <= i < |s| ==> '0' <= s[i] <= '9'
  {
    if |s| == 0 then 0
    else ParseDecimal(s[..|s| - 1]) * 10 + (s[|s| - 1] as int - '0' as int)
  }

  /** `$"{n}"` for a non-negative `int`: its decimal digits, without leading zeros. */
  function Decimal(n: nat): (r: string)
    ensures |r| >= 1 && forall i :: 0 <= i < |r| ==> '0' <= r[i] <= '9'
    ensures r[0] == '0' ==> r == "0"
    decreases n
  {
    if n < 10 then [Digit(n)] else Decimal(n / 10) + [Digit(n % 10)]
  }

  /** Reading the decimal text back gives the number. */
  lemma {:induction false} DecimalRoundTrip(n: nat)
    ensures ParseDecimal(Decimal(n)) == n
    decreases n
  {
    if n >= 10 {
      DecimalRoundTrip(n / 10);
      var r := Decimal(n);
      assert r[..|r| - 1] == Decimal(n / 10);
    }
  }
}
