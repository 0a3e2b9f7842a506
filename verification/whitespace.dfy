/** Python's notion of whitespace as `str.strip()` and `str.split()` use it,
    and the word count the processor derives from it. */
module Whitespace {

  /** The characters Python's `str.isspace()` accepts, by code point. */
  predicate IsSpace(c: char) {
    var n := c as int;
    n == 0x20 || (0x09 <= n <= 0x0D) || (0x1C <= n <= 0x1F) || n == 0x85 || n == 0xA0
    || n == 0x1680 || (0x2000 <= n <= 0x200A) || n == 0x2028 || n == 0x2029
    || n == 0x202F || n == 0x205F || n == 0x3000
  }

  predicate AllSpace(s: string) {
    forall i :: 0 <= i < |s| ==> IsSpace(s[i])
  }

  /** `s.lstrip()`: drop the leading whitespace. */
  function TrimLeft(s: string): (r: string)
    ensures |r| <= |s| && r == s[|s| - |r|..]
    ensures r == [] || !IsSpace(r[0])
    decreases |s|
  {
    if s != [] && IsSpace(s[0]) then TrimLeft(s[1..]) else s
  }

  /** `s.rstrip()`: drop the trailing whitespace. */
  function TrimRight(s: string): (r: string)
    ensures |r| <= |s| && r == s[..|r|]
    ensures r == [] || !IsSpace(r[|r| - 1])
    decreases |s|
  {
    if s != [] && IsSpace(s[|s| - 1]) then TrimRight(s[..|s| - 1]) else s
  }

  /** `s.strip()`: empty exactly for all-whitespace text, and otherwise
      starting and ending with a non-whitespace character. */
  function Strip(s: string): (r: string)
    ensures r == [] <==> AllSpace(s)
    ensures r == [] || (!IsSpace(r[0]) && !IsSpace(r[|r| - 1]))
  {
    TrimLeftEmptyIffAllSpace(s);
    var l := TrimLeft(s);
    if l != [] then TrimRightKeepsHead(l); TrimRight(l) else TrimRight(l)
  }

  /** What `lstrip` drops is whitespace only. */
  lemma {:induction false} TrimLeftDropsOnlySpace(s: string)
    ensures forall i :: 0 <= i < |s| - |TrimLeft(s)| ==> IsSpace(s[i])
    decreases |s|
  {
    if s != [] && IsSpace(s[0]) {
      TrimLeftDropsOnlySpace(s[1..]);
      forall i | 1 <= i < |s| - |TrimLeft(s)| ensures IsSpace(s[i]) {
        assert s[i] == s[1..][i - 1];
      }
    }
  }

  /** What `rstrip` drops is whitespace only. */
  lemma {:induction false} TrimRightDropsOnlySpace(s: string)
    ensures forall i :: |TrimRight(s)| <= i < |s| ==> IsSpace(s[i])
    decreases |s|
  {
    if s != [] && IsSpace(s[|s| - 1]) {
      TrimRightDropsOnlySpace(s[..|s| - 1]);
      forall i | |TrimRight(s)| <= i < |s| - 1 ensures IsSpace(s[i]) {
        assert s[i] == s[..|s| - 1][i];
      }
    }
  }

  /** Leading whitespace is all that `lstrip` removes: an all-whitespace text
      vanishes, and a text with a non-whitespace character keeps it. */
  lemma {:induction false} TrimLeftEmptyIffAllSpace(s: string)
    ensures TrimLeft(s) == [] <==> AllSpace(s)
    decreases |s|
  {
    if s != [] && IsSpace(s[0]) {
      TrimLeftEmptyIffAllSpace(s[1..]);
      assert AllSpace(s) <==> AllSpace(s[1..]);
    }
  }

  /** `rstrip` keeps a text whose first character is not whitespace. */
  lemma {:induction false} TrimRightKeepsHead(s: string)
    requires s != [] && !IsSpace(s[0])
    ensures TrimRight(s) != []
    decreases |s|
  {
    if IsSpace(s[|s| - 1]) {
      TrimRightKeepsHead(s[..|s| - 1]);
    }
  }

  /** Length of the run of non-whitespace characters at the start of `s`. */
  function RunLen(s: string): (n: nat)
    ensures n <= |s|
    ensures forall i :: 0 <= i < n ==> !IsSpace(s[i])
    ensures n == |s| || IsSpace(s[n])
    decreases |s|
  {
    if s == [] || IsSpace(s[0]) then 0 else 1 + RunLen(s[1..])
  }

  /** `s.split()`: the maximal runs of non-whitespace characters, in order.
      All-whitespace text splits into no token at all. */
  function Split(s: string): (tokens: seq<string>)
    ensures tokens == [] <==> AllSpace(s)
    decreases |s|
  {
    TrimLeftEmptyIffAllSpace(s);
    var t := TrimLeft(s);
    if t == [] then []
    else
      var n := RunLen(t);
      [t[..n]] + Split(t[n..])
  }

  /** Counts the positions that start a run of non-whitespace characters;
      `afterSpace` says whether the position before `s` ends a run (or is the
      start of the text). */
  function RunStartsFrom(s: string, afterSpace: bool): nat
    decreases |s|
  {
    if s == [] then 0
    else (if afterSpace && !IsSpace(s[0]) then 1 else 0) + RunStartsFrom(s[1..], IsSpace(s[0]))
  }

  /** The number of maximal non-whitespace runs of `s`. */
  function RunStarts(s: string): nat {
    RunStartsFrom(s, true)
  }

  /** Leading whitespace starts no run. */
  lemma {:induction false} RunStartsTrimLeft(s: string)
    ensures RunStarts(TrimLeft(s)) == RunStarts(s)
    decreases |s|
  {
    if s != [] && IsSpace(s[0]) {
      RunStartsTrimLeft(s[1..]);
    }
  }

  /** Inside a run, nothing new starts until the run ends. */
  lemma {:induction false} RunStartsSkipRun(s: string)
    ensures RunStartsFrom(s, false) == RunStartsFrom(s[RunLen(s)..], false)
    decreases |s|
  {
    if s != [] && !IsSpace(s[0]) {
      RunStartsSkipRun(s[1..]);
      assert s[RunLen(s)..] == s[1..][RunLen(s[1..])..];
    }
  }

  /** `str.split()` yields one token per maximal non-whitespace run. */
  lemma {:induction false} SplitCountsRuns(s: string)
    ensures |Split(s)| == RunStarts(s)
    decreases |s|
  {
    var t := TrimLeft(s);
    RunStartsTrimLeft(s);
    if t != [] {
      var n := RunLen(t);
      var rest := t[n..];
      SplitCountsRuns(rest);
      assert n == 1 + RunLen(t[1..]);
      assert RunStarts(t) == 1 + RunStartsFrom(t[1..], false);
      RunStartsSkipRun(t[1..]);
      assert t[1..][RunLen(t[1..])..] == rest;
      AfterRunNoStart(rest);
    }
  }

  /** At the end of a run, what follows starts no run of its own before the
      next whitespace. */
  lemma AfterRunNoStart(u: string)
    requires u == [] || IsSpace(u[0])
    ensures RunStartsFrom(u, false) == RunStarts(u)
  {
  }

  /** The run count depends only on where the whitespace is. */
  lemma {:induction false} RunStartsSamePattern(a: string, b: string, afterSpace: bool)
    requires |a| == |b| && forall i :: 0 <= i < |a| ==> IsSpace(a[i]) == IsSpace(b[i])
    ensures RunStartsFrom(a, afterSpace) == RunStartsFrom(b, afterSpace)
    decreases |a|
  {
    if a != [] {
      assert IsSpace(a[0]) == IsSpace(b[0]);
      RunStartsSamePattern(a[1..], b[1..], IsSpace(a[0]));
    }
  }

  /** A text has no run exactly when it is all whitespace. */
  lemma {:induction false} NoRunsIffAllSpace(s: string)
    ensures RunStarts(s) == 0 <==> AllSpace(s)
    decreases |s|
  {
    if s != [] && IsSpace(s[0]) {
      NoRunsIffAllSpace(s[1..]);
      assert AllSpace(s) <==> AllSpace(s[1..]);
    }
  }

  /** Counting runs over a concatenation: the second part is counted from
      the state the first part ends in. */
  lemma {:induction false} RunStartsAppend(a: string, b: string, afterSpace: bool)
    ensures RunStartsFrom(a + b, afterSpace)
         == RunStartsFrom(a, afterSpace) + RunStartsFrom(b, if a == [] then afterSpace else IsSpace(a[|a| - 1]))
    decreases |a|
  {
    if a == [] {
      assert a + b == b;
    } else {
      RunStartsAppend(a[1..], b, IsSpace(a[0]));
      assert (a + b)[1..] == a[1..] + b;
      if |a| > 1 {
        assert a[1..][|a[1..]| - 1] == a[|a| - 1];
      }
    }
  }

  /** A text without whitespace is at most one run. */
  lemma {:induction false} OneRun(s: string, afterSpace: bool)
    requires forall i :: 0 <= i < |s| ==> !IsSpace(s[i])
    ensures RunStartsFrom(s, afterSpace) == if afterSpace && s != [] then 1 else 0
    decreases |s|
  {
    if s != [] {
      OneRun(s[1..], false);
    }
  }
}
