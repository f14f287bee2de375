/** The pieces of JavaScript's string built-ins that the bootstrap pagelet
    relies on: `String.prototype.indexOf`, `String.prototype.replace` with a
    string pattern (first occurrence only) and with a global, capture-free
    regular expression (every occurrence), including the `$` patterns that a
    replacement string may contain (GetSubstitution, section 22.1.3.19.1 of
    ECMA-262). */
module JsString {

  /** `pat` occurs in `s` starting at index `i`. */
  predicate OccursAt(s: string, pat: string, i: int) {
    0 <= i && i + |pat| <= |s| && MatchFrom(s, pat, i, 0)
  }

  /** The characters of `pat` from index `k` on agree with those of `s`
      from index `i + k` on, compared one at a time. */
  predicate MatchFrom(s: string, pat: string, i: nat, k: nat)
    requires i + |pat| <= |s| && k <= |pat|
    decreases |pat| - k
  {
    k == |pat| || (s[i + k] == pat[k] && MatchFrom(s, pat, i, k + 1))
  }

  lemma {:induction false} MatchFromSlice(s: string, pat: string, i: nat, k: nat)
    requires i + |pat| <= |s| && k <= |pat|
    ensures MatchFrom(s, pat, i, k) <==> s[i + k..i + |pat|] == pat[k..]
    decreases |pat| - k
  {
    if k < |pat| {
      MatchFromSlice(s, pat, i, k + 1);
      assert s[i + k..i + |pat|] == [s[i + k]] + s[i + k + 1..i + |pat|];
      assert pat[k..] == [pat[k]] + pat[k + 1..];
    }
  }

  /** An occurrence is a slice equal to the pattern. */
  lemma OccursAtSlice(s: string, pat: string, i: int)
    ensures OccursAt(s, pat, i) <==> 0 <= i && i + |pat| <= |s| && s[i..i + |pat|] == pat
  {
    if 0 <= i && i + |pat| <= |s| {
      MatchFromSlice(s, pat, i, 0);
      assert pat[0..] == pat;
    }
  }

  /** `pat` occurs somewhere in `s`. */
  predicate Contains(s: string, pat: string) {
    exists i :: 0 <= i <= |s| && OccursAt(s, pat, i)
  }

  /** `s.indexOf(pat, from)`: the first index at or after `from` where `pat`
      occurs, or -1. An empty pattern is found at `from`, clamped to `|s|`. */
  function IndexOf(s: string, pat: string, from: nat): (r: int)
    ensures |pat| == 0 ==> r == (if from <= |s| then from else |s|)
    ensures |pat| > 0 ==> r == -1 || (from <= r && r + |pat| <= |s|)
    decreases |s| - from
  {
    if |pat| == 0 then (if from <= |s| then from else |s|)
    else if from + |pat| > |s| then -1
    else if OccursAt(s, pat, from) then from
    else IndexOf(s, pat, from + 1)
  }

  /** `IndexOf` finds the first occurrence at or after `from`, and -1 means
      there is none. */
  lemma {:induction false} IndexOfFirst(s: string, pat: string, from: nat)
    requires |pat| > 0
    ensures var r := IndexOf(s, pat, from);
      && (r >= 0 ==> OccursAt(s, pat, r))
      && forall i :: from <= i && (r < 0 || i < r) ==> !OccursAt(s, pat, i)
    decreases |s| - from
  {
    if from + |pat| <= |s| && !OccursAt(s, pat, from) {
      IndexOfFirst(s, pat, from + 1);
    }
  }

  /** `s.indexOf(c, from)` for a one-character pattern `c`, compared
      character by character. */
  function IndexOfChar(s: string, c: char, from: nat): (r: int)
    ensures r == -1 || (from <= r < |s| && s[r] == c)
    decreases |s| - from
  {
    if from >= |s| then -1
    else if s[from] == c then from
    else IndexOfChar(s, c, from + 1)
  }

  /** `IndexOfChar` finds the first `c` at or after `from`, and -1 means
      there is none. */
  lemma {:induction false} IndexOfCharFirst(s: string, c: char, from: nat)
    ensures var r := IndexOfChar(s, c, from);
      forall i :: from <= i < |s| && (r < 0 || i < r) ==> s[i] != c
    decreases |s| - from
  {
    if from < |s| && s[from] != c {
      IndexOfCharFirst(s, c, from + 1);
    }
  }

  /** The one-character search is `indexOf` with a pattern of length one. */
  lemma {:induction false} IndexOfCharIsIndexOf(s: string, c: char, from: nat)
    ensures IndexOfChar(s, c, from) == IndexOf(s, [c], from)
    decreases |s| - from
  {
    if from < |s| {
      assert MatchFrom(s, [c], from, 1);
      assert OccursAt(s, [c], from) <==> s[from] == c;
      if s[from] != c {
        IndexOfCharIsIndexOf(s, c, from + 1);
      }
    }
  }

  /** Shifting: searching `a + t` from inside `t` finds what searching `t` finds. */
  lemma {:induction false} IndexOfCharShift(a: string, t: string, c: char, from: nat)
    ensures IndexOfChar(a + t, c, |a| + from) ==
      (if IndexOfChar(t, c, from) < 0 then -1 else |a| + IndexOfChar(t, c, from))
    decreases |t| - from
  {
    if from < |t| {
      assert (a + t)[|a| + from] == t[from];
      if t[from] != c {
        IndexOfCharShift(a, t, c, from + 1);
      }
    }
  }

  /** An occurrence inside `t` is one inside `a + t`, shifted by `|a|`. */
  lemma OccursAtShift(a: string, t: string, pat: string, i: nat)
    ensures OccursAt(a + t, pat, |a| + i) <==> OccursAt(t, pat, i)
  {
    OccursAtSlice(a + t, pat, |a| + i);
    OccursAtSlice(t, pat, i);
    if 0 <= i && i + |pat| <= |t| {
      assert (a + t)[|a| + i..|a| + i + |pat|] == t[i..i + |pat|];
    }
  }

  /** Searching for `c` from any point up to the first `c` after `a` finds
      that same `c`. */
  lemma IndexOfCharFrom(s: string, c: char, a: nat, b: nat)
    requires a <= b && 0 <= IndexOfChar(s, c, a) && b <= IndexOfChar(s, c, a)
    ensures IndexOfChar(s, c, b) == IndexOfChar(s, c, a)
  {
    var r := IndexOfChar(s, c, a);
    IndexOfCharFirst(s, c, a);
    IndexOfCharFirst(s, c, b);
    var q := IndexOfChar(s, c, b);
    assert q == -1 || q >= r;
  }

  /** The replacement text for one match (GetSubstitution when the pattern has
      no capture groups): `$$` gives `$`, `$&` the matched text, `` $` `` the
      text before the match, `$'` the text after it; any other `$` is kept. */
  function Expand(rep: string, matched: string, before: string, after: string): (r: string)
    ensures '$' !in rep ==> r == rep
  {
    if |rep| == 0 then ""
    else if rep[0] == '$' && |rep| >= 2 && rep[1] == '$' then "$" + Expand(rep[2..], matched, before, after)
    else if rep[0] == '$' && |rep| >= 2 && rep[1] == '&' then matched + Expand(rep[2..], matched, before, after)
    else if rep[0] == '$' && |rep| >= 2 && rep[1] == '`' then before + Expand(rep[2..], matched, before, after)
    else if rep[0] == '$' && |rep| >= 2 && rep[1] == '\'' then after + Expand(rep[2..], matched, before, after)
    else [rep[0]] + Expand(rep[1..], matched, before, after)
  }

  /** `s.replace(pat, rep)` with a string `pat`: only the first occurrence is
      replaced, and `rep` is expanded as a replacement pattern. */
  function ReplaceFirst(s: string, pat: string, rep: string): (r: string)
  {
    var p := IndexOf(s, pat, 0);
    if p < 0 then s
    else s[..p] + Expand(rep, pat, s[..p], s[p + |pat|..]) + s[p + |pat|..]
  }

  /** `s.replace(new RegExp(pat, 'g'), rep)` where `pat` has no regular
      expression metacharacters: every occurrence, scanned left to right
      without overlap, is replaced by the expansion of `rep`. */
  function ReplaceAll(s: string, pat: string, rep: string): string
    requires |pat| > 0
  {
    ReplaceFrom(s, pat, rep, 0)
  }

  /** The part of `ReplaceAll(s, pat, rep)` produced from index `i` on. */
  function ReplaceFrom(s: string, pat: string, rep: string, i: nat): string
    requires |pat| > 0
    decreases |s| - i
  {
    if i >= |s| then ""
    else if OccursAt(s, pat, i) then
      Expand(rep, pat, s[..i], s[i + |pat|..]) + ReplaceFrom(s, pat, rep, i + |pat|)
    else [s[i]] + ReplaceFrom(s, pat, rep, i + 1)
  }

  /** Literal replace-all: the reference meaning of a global replace whose
      replacement text has no `$` in it. */
  function Substitute(t: string, pat: string, rep: string): string
    requires |pat| > 0
  {
    if |t| == 0 then ""
    else if |pat| <= |t| && t[..|pat|] == pat then rep + Substitute(t[|pat|..], pat, rep)
    else [t[0]] + Substitute(t[1..], pat, rep)
  }

  /** Shifting: searching `a + t` from inside `t` finds what searching `t` finds. */
  lemma {:induction false} IndexOfShift(a: string, t: string, pat: string, from: nat)
    requires |pat| > 0
    ensures IndexOf(a + t, pat, |a| + from) ==
      (if IndexOf(t, pat, from) < 0 then -1 else |a| + IndexOf(t, pat, from))
    decreases |t| - from
  {
    if from + |pat| <= |t| {
      assert (a + t)[|a| + from..|a| + from + |pat|] == t[from..from + |pat|];
      OccursAtSlice(a + t, pat, |a| + from);
      OccursAtSlice(t, pat, from);
      if !OccursAt(t, pat, from) {
        IndexOfShift(a, t, pat, from + 1);
      }
    }
  }

  /** With no `$` in the replacement text, the global replace is the literal
      substitution. */
  lemma ReplaceAllLiteral(s: string, pat: string, rep: string)
    requires |pat| > 0 && '$' !in rep
    ensures ReplaceAll(s, pat, rep) == Substitute(s, pat, rep)
  {
    ReplaceFromLiteral(s, pat, rep, 0);
  }

  lemma {:induction false} ReplaceFromLiteral(s: string, pat: string, rep: string, i: nat)
    requires |pat| > 0 && '$' !in rep && i <= |s|
    ensures ReplaceFrom(s, pat, rep, i) == Substitute(s[i..], pat, rep)
    decreases |s| - i
  {
    if i < |s| {
      var t := s[i..];
      OccursAtSlice(s, pat, i);
      if OccursAt(s, pat, i) {
        assert t[..|pat|] == pat;
        assert t[|pat|..] == s[i + |pat|..];
        calc {
          ReplaceFrom(s, pat, rep, i);
          Expand(rep, pat, s[..i], s[i + |pat|..]) + ReplaceFrom(s, pat, rep, i + |pat|);
          { ReplaceFromLiteral(s, pat, rep, i + |pat|); }
          rep + Substitute(s[i + |pat|..], pat, rep);
          Substitute(t, pat, rep);
        }
      } else {
        assert !(|pat| <= |t| && t[..|pat|] == pat);
        assert t[1..] == s[i + 1..];
        calc {
          ReplaceFrom(s, pat, rep, i);
          [s[i]] + ReplaceFrom(s, pat, rep, i + 1);
          { ReplaceFromLiteral(s, pat, rep, i + 1); }
          [t[0]] + Substitute(t[1..], pat, rep);
          Substitute(t, pat, rep);
        }
      }
    }
  }

  /** A global replace of a pattern that does not occur changes nothing,
      whatever the replacement text. */
  lemma ReplaceAllAbsent(s: string, pat: string, rep: string)
    requires |pat| > 0 && !Contains(s, pat)
    ensures ReplaceAll(s, pat, rep) == s
  {
    ReplaceFromAbsent(s, pat, rep, 0);
  }

  lemma {:induction false} ReplaceFromAbsent(s: string, pat: string, rep: string, i: nat)
    requires |pat| > 0 && !Contains(s, pat) && i <= |s|
    ensures ReplaceFrom(s, pat, rep, i) == s[i..]
    decreases |s| - i
  {
    if i < |s| {
      assert !OccursAt(s, pat, i);
      ReplaceFromAbsent(s, pat, rep, i + 1);
    }
  }

  /** `replace` with a string pattern substitutes the first occurrence: when
      nothing matches before the copy of `pat` that follows `a`, that copy is
      the one replaced, literally when `rep` holds no `$`. */
  lemma ReplaceFirstAt(a: string, pat: string, b: string, rep: string)
    requires |pat| > 0 && '$' !in rep
    requires forall i :: 0 <= i < |a| ==> !OccursAt(a + pat + b, pat, i)
    ensures ReplaceFirst(a + pat + b, pat, rep) == a + rep + b
  {
    var s := a + pat + b;
    assert OccursAt(s, pat, |a|) by {
      assert s[|a|..|a| + |pat|] == pat;
      OccursAtSlice(s, pat, |a|);
    }
    IndexOfFirst(s, pat, 0);
    var p := IndexOf(s, pat, 0);
    assert p == |a|;
    assert s[..p] == a;
    assert s[p + |pat|..] == b;
  }
}
