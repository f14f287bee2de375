/** What the locate pass does to a view, stated without reference to the
    loop: the token goes in after a set of `>` characters (`Tags`) that is
    characterised exactly, nothing else changes, and erasing the tokens again
    gives back the view. */
module MarkFacts {
  import opened JsString
  import opened Markers
  import opened Containment

  /** The positions (offset by `off`) of the `>` characters after which
      `Mark(s, attr, id)` inserts `id`. */
  function Tags(s: string, attr: string, off: nat): (g: set<nat>)
    requires |attr| > 0
    decreases |s|, 1
  {
    var p := IndexOf(s, attr, 0);
    if p < 0 then {} else TagsAt(s, attr, off, p)
  }

  /** `Tags` when the first marker of `s` is at `p`. */
  function TagsAt(s: string, attr: string, off: nat, p: nat): (g: set<nat>)
    requires |attr| > 0 && p <= |s|
    decreases |s|, 0
  {
    var e := IndexOfChar(s, '>', p);
    if e < 0 then {}
    else if e + 1 == |s| then {off + e}
    else {off + e} + Tags(s[e + 2..], attr, off + e + 2)
  }

  /** `s` (whose first character sits at position `off`) with `w` inserted
      right after the character at every position in `g`. */
  function Splice(s: string, g: set<nat>, off: nat, w: string): string
    decreases |s|
  {
    if |s| == 0 then ""
    else [s[0]] + (if off in g then w else "") + Splice(s[1..], g, off + 1, w)
  }

  /** Every tag is a `>` of `s`. */
  lemma {:induction false} TagsRange(s: string, attr: string, off: nat)
    requires |attr| > 0
    ensures forall x :: x in Tags(s, attr, off) ==> off <= x < off + |s| && s[x - off] == '>'
    decreases |s|
  {
    var p := IndexOf(s, attr, 0);
    if p >= 0 {
      assert Tags(s, attr, off) == TagsAt(s, attr, off, p);
      var e := IndexOfChar(s, '>', p);
      if e >= 0 && e + 1 < |s| {
        TagsRange(s[e + 2..], attr, off + e + 2);
      }
    }
  }

  /** Splicing distributes over concatenation. */
  lemma {:induction false} SpliceAppend(a: string, b: string, g: set<nat>, off: nat, w: string)
    ensures Splice(a + b, g, off, w) == Splice(a, g, off, w) + Splice(b, g, off + |a|, w)
    decreases |a|
  {
    if |a| == 0 {
      assert a + b == b;
    } else {
      assert (a + b)[1..] == a[1..] + b;
      SpliceAppend(a[1..], b, g, off + 1, w);
    }
  }

  /** Splicing at no position of `s` leaves it as it is. */
  lemma {:induction false} SpliceNone(s: string, g: set<nat>, off: nat, w: string)
    requires forall x :: x in g ==> x < off || off + |s| <= x
    ensures Splice(s, g, off, w) == s
    decreases |s|
  {
    if |s| > 0 {
      SpliceNone(s[1..], g, off + 1, w);
    }
  }

  /** Splicing only looks at the positions inside `s`. */
  lemma {:induction false} SpliceAgree(s: string, g: set<nat>, h: set<nat>, off: nat, w: string)
    requires forall x :: off <= x < off + |s| ==> (x in g <==> x in h)
    ensures Splice(s, g, off, w) == Splice(s, h, off, w)
    decreases |s|
  {
    if |s| > 0 {
      SpliceAgree(s[1..], g, h, off + 1, w);
    }
  }

  /** The locate pass inserts `id` after exactly the tagged `>` characters
      and changes nothing else. */
  lemma {:induction false} MarkIsSplice(s: string, attr: string, id: string, off: nat)
    requires |attr| > 0
    ensures Mark(s, attr, id) == Splice(s, Tags(s, attr, off), off, id)
    decreases |s|
  {
    var p := IndexOf(s, attr, 0);
    if p < 0 {
      SpliceNone(s, {}, off, id);
    } else {
      assert Tags(s, attr, off) == TagsAt(s, attr, off, p);
      assert Mark(s, attr, id) == MarkAt(s, attr, id, p);
      var e := IndexOfChar(s, '>', p);
      if e < 0 {
        SpliceNone(s, {}, off, id);
      } else if e + 1 == |s| {
        SpliceLastTag(s, attr, id, off, p, e);
      } else {
        MarkIsSplice(s[e + 2..], attr, id, off + e + 2);
        SpliceRound(s, attr, id, off, p, e);
      }
    }
  }

  /** `MarkIsSplice` when the first tag is the last character. */
  lemma SpliceLastTag(s: string, attr: string, id: string, off: nat, p: nat, e: nat)
    requires |attr| > 0 && p == IndexOf(s, attr, 0) && e == IndexOfChar(s, '>', p) && e + 1 == |s|
    ensures Mark(s, attr, id) == Splice(s, Tags(s, attr, off), off, id)
  {
    MarkUnfold(s, attr, id, p, e);
    assert Tags(s, attr, off) == TagsAt(s, attr, off, p);
    var g := Tags(s, attr, off);
    SpliceTagged(s, g, off, id, e);
    SpliceNone([], g, off + e + 1, id);
    assert s[e + 1..] == [];
    assert s[..e + 1] == s;
  }

  /** `MarkIsSplice` for one round, given it for the rest after the round. */
  lemma SpliceRound(s: string, attr: string, id: string, off: nat, p: nat, e: nat)
    requires |attr| > 0 && p == IndexOf(s, attr, 0) && e == IndexOfChar(s, '>', p) && e + 1 < |s|
    requires Mark(s[e + 2..], attr, id) == Splice(s[e + 2..], Tags(s[e + 2..], attr, off + e + 2), off + e + 2, id)
    ensures Mark(s, attr, id) == Splice(s, Tags(s, attr, off), off, id)
  {
    MarkUnfold(s, attr, id, p, e);
    assert Tags(s, attr, off) == TagsAt(s, attr, off, p);
    TagsRange(s[e + 2..], attr, off + e + 2);
    SpliceStep(s, Tags(s, attr, off), Tags(s[e + 2..], attr, off + e + 2), off, id, e);
  }

  /** Splicing `s` where `e` is the first position in `g` and the next one
      is not in `g`. */
  lemma SpliceStep(s: string, g: set<nat>, h: set<nat>, off: nat, w: string, e: nat)
    requires e + 1 < |s| && off + e in g && off + e + 1 !in g
    requires forall x :: x in g ==> x < off || off + e <= x
    requires forall x :: off + e + 2 <= x < off + |s| ==> (x in g <==> x in h)
    ensures Splice(s, g, off, w) == s[..e + 1] + w + [s[e + 1]] + Splice(s[e + 2..], h, off + e + 2, w)
  {
    var rest := s[e + 2..];
    SpliceTagged(s, g, off, w, e);
    assert s[e + 1..] == [s[e + 1]] + rest;
    SpliceAppend([s[e + 1]], rest, g, off + e + 1, w);
    SpliceAgree(rest, g, h, off + e + 2, w);
  }

  /** Splicing `s` where `e` is the first position in `g`: `s` up to `e`,
      then `w`, then the rest spliced. */
  lemma SpliceTagged(s: string, g: set<nat>, off: nat, w: string, e: nat)
    requires e < |s| && off + e in g
    requires forall x :: x in g ==> x < off || off + e <= x
    ensures Splice(s, g, off, w) == s[..e + 1] + w + Splice(s[e + 1..], g, off + e + 1, w)
  {
    assert s == s[..e] + s[e..];
    SpliceAppend(s[..e], s[e..], g, off, w);
    SpliceNone(s[..e], g, off, w);
    assert s[e..][1..] == s[e + 1..];
    assert s[..e + 1] == s[..e] + [s[e]];
  }

  /** Every tag is the first `>` at or after some marker. */
  lemma {:induction false} TagsSound(s: string, attr: string, off: nat, x: nat)
    requires |attr| > 0 && x in Tags(s, attr, off)
    ensures exists p: nat :: off + p <= x && OccursAt(s, attr, p) && IndexOfChar(s, '>', p) == x - off
    decreases |s|
  {
    var p := IndexOf(s, attr, 0);
    assert Tags(s, attr, off) == TagsAt(s, attr, off, p);
    FoundMarker(s, attr);
    var e := IndexOfChar(s, '>', p);
    if x != off + e {
      var rest := s[e + 2..];
      TagsSound(rest, attr, off + e + 2, x);
      var q: nat :| off + e + 2 + q <= x && OccursAt(rest, attr, q) && IndexOfChar(rest, '>', q) == x - off - e - 2;
      PrefixShift(s, attr, e + 2, q);
    }
  }

  /** The marker `IndexOf` finds is there. */
  lemma FoundMarker(s: string, attr: string)
    requires |attr| > 0 && IndexOf(s, attr, 0) >= 0
    ensures OccursAt(s, attr, IndexOf(s, attr, 0))
  {
    IndexOfFirst(s, attr, 0);
  }

  /** A marker of `s[k..]` is one of `s`, with the same `>` after it. */
  lemma PrefixShift(s: string, attr: string, k: nat, q: nat)
    requires k <= |s| && OccursAt(s[k..], attr, q)
    ensures OccursAt(s, attr, k + q)
    ensures IndexOfChar(s, '>', k + q) ==
      (if IndexOfChar(s[k..], '>', q) < 0 then -1 else k + IndexOfChar(s[k..], '>', q))
  {
    assert s == s[..k] + s[k..];
    OccursAtShift(s[..k], s[k..], attr, q);
    IndexOfCharShift(s[..k], s[k..], '>', q);
  }

  /** Every marker with a `>` after it has its first such `>` tagged, unless
      the marker starts right after a tagged `>`: the loop passes over the
      character behind each token it inserts. */
  lemma {:induction false} TagsComplete(s: string, attr: string, off: nat, p: nat)
    requires |attr| > 0 && OccursAt(s, attr, p) && IndexOfChar(s, '>', p) >= 0
    requires p == 0 || off + p - 1 !in Tags(s, attr, off)
    ensures off + IndexOfChar(s, '>', p) in Tags(s, attr, off)
    decreases |s|
  {
    var p0 := IndexOf(s, attr, 0);
    FirstMarker(s, attr, p);
    assert Tags(s, attr, off) == TagsAt(s, attr, off, p0);
    var e0 := IndexOfChar(s, '>', p0);
    if e0 < 0 {
      NotFoundLater(s, '>', p0, p);
    } else if p <= e0 {
      IndexOfCharFrom(s, '>', p0, p);
    } else {
      var rest := Tags(s[e0 + 2..], attr, off + e0 + 2);
      assert Tags(s, attr, off) == {off + e0} + rest;
      assert p >= e0 + 2;
      SuffixFacts(s, attr, e0 + 2, p);
      TagsComplete(s[e0 + 2..], attr, off + e0 + 2, p - e0 - 2);
    }
  }

  /** When some marker occurs at `p`, the first one is at or before it. */
  lemma FirstMarker(s: string, attr: string, p: nat)
    requires |attr| > 0 && OccursAt(s, attr, p)
    ensures 0 <= IndexOf(s, attr, 0) <= p
  {
    IndexOfFirst(s, attr, 0);
  }

  /** A marker at or after `k` is one of `s[k..]`, with its `>` shifted. */
  lemma SuffixFacts(s: string, attr: string, k: nat, p: nat)
    requires k <= p && OccursAt(s, attr, p)
    ensures OccursAt(s[k..], attr, p - k)
    ensures IndexOfChar(s[k..], '>', p - k) ==
      (if IndexOfChar(s, '>', p) < 0 then -1 else IndexOfChar(s, '>', p) - k)
  {
    assert s == s[..k] + s[k..];
    OccursAtShift(s[..k], s[k..], attr, p - k);
    IndexOfCharShift(s[..k], s[k..], '>', p - k);
  }

  /** Splicing never shortens. */
  lemma {:induction false} SpliceLonger(s: string, g: set<nat>, off: nat, w: string)
    ensures |Splice(s, g, off, w)| >= |s|
    decreases |s|
  {
    if |s| > 0 {
      SpliceLonger(s[1..], g, off + 1, w);
    }
  }

  /** Splicing the empty string changes nothing. */
  lemma {:induction false} SpliceEmpty(s: string, g: set<nat>, off: nat)
    ensures Splice(s, g, off, "") == s
    decreases |s|
  {
    if |s| > 0 {
      SpliceEmpty(s[1..], g, off + 1);
    }
  }

  /** The locate pass leaves a view exactly as it is if and only if the token
      is empty or no marker in the view has a `>` after it. */
  lemma MarkUnchanged(s: string, attr: string, id: string)
    requires |attr| > 0
    ensures Mark(s, attr, id) == s <==>
      (|id| == 0 || forall p :: OccursAt(s, attr, p) ==> IndexOfChar(s, '>', p) < 0)
  {
    var p0 := IndexOf(s, attr, 0);
    IndexOfFirst(s, attr, 0);
    if |id| == 0 {
      MarkIsSplice(s, attr, id, 0);
      SpliceEmpty(s, Tags(s, attr, 0), 0);
    } else if p0 >= 0 && IndexOfChar(s, '>', p0) >= 0 {
      var e := IndexOfChar(s, '>', p0);
      MarkUnfold(s, attr, id, p0, e);
      if e + 1 < |s| {
        MarkIsSplice(s[e + 2..], attr, id, 0);
        SpliceLonger(s[e + 2..], Tags(s[e + 2..], attr, 0), 0, id);
      }
      assert |Mark(s, attr, id)| > |s|;
    } else {
      assert Mark(s, attr, id) == s by {
        if p0 >= 0 {
          assert Mark(s, attr, id) == MarkAt(s, attr, id, p0);
        }
      }
      forall p | OccursAt(s, attr, p)
        ensures IndexOfChar(s, '>', p) < 0
      {
        NotFoundLater(s, '>', p0, p);
      }
    }
  }

  /** A pattern without `>` that starts a string cannot reach past a `>`. */
  lemma GtBlocksMatch(x: string, y: string, pat: string)
    requires '>' !in pat && |x| > 0 && x[|x| - 1] == '>'
    requires |pat| <= |x + y| && (x + y)[..|pat|] == pat
    ensures |pat| < |x|
  {
    assert (x + y)[|x| - 1] == '>';
  }

  /** A global literal replace of a pattern without `>` splits at a `>`: no
      occurrence can straddle it. */
  lemma {:induction false} SubstituteSplit(x: string, y: string, pat: string, rep: string)
    requires |pat| > 0 && '>' !in pat && |x| > 0 && x[|x| - 1] == '>'
    ensures Substitute(x + y, pat, rep) == Substitute(x, pat, rep) + Substitute(y, pat, rep)
    decreases |x|
  {
    var t := x + y;
    if |pat| <= |t| && t[..|pat|] == pat {
      GtBlocksMatch(x, y, pat);
      assert x[..|pat|] == pat;
      assert t[|pat|..] == x[|pat|..] + y;
      SubstituteSplit(x[|pat|..], y, pat, rep);
    } else {
      assert !(|pat| <= |x| && x[..|pat|] == pat) by {
        if |pat| <= |x| {
          assert x[..|pat|] == t[..|pat|];
        }
      }
      assert t[1..] == x[1..] + y;
      if |x| > 1 {
        SubstituteSplit(x[1..], y, pat, rep);
      }
    }
  }

  /** A replace starting at an occurrence replaces it. */
  lemma SubstituteAtToken(pat: string, y: string, rep: string)
    requires |pat| > 0
    ensures Substitute(pat + y, pat, rep) == rep + Substitute(y, pat, rep)
  {
    assert (pat + y)[..|pat|] == pat;
    assert (pat + y)[|pat|..] == y;
  }

  /** Erasing every token `w` after the locate pass gives what erasing it
      before gives: the pass adds nothing but tokens. */
  lemma {:induction false} EraseMark(u: string, s: string, attr: string, w: string)
    requires |attr| > 0 && |w| > 0 && '>' !in w
    ensures Substitute(u + Mark(s, attr, w), w, "") == Substitute(u + s, w, "")
    decreases |s|
  {
    var p := IndexOf(s, attr, 0);
    if p >= 0 {
      assert Mark(s, attr, w) == MarkAt(s, attr, w, p);
      var e := IndexOfChar(s, '>', p);
      if e >= 0 {
        MarkUnfold(s, attr, w, p, e);
        var x := u + s[..e + 1];
        assert x[|x| - 1] == s[e];
        if e + 1 == |s| {
          assert u + Mark(s, attr, w) == x + (w + "");
          assert u + s == x + "";
          EraseRound(x, w, "", "");
        } else {
          var c := [s[e + 1]];
          var rest := s[e + 2..];
          assert u + Mark(s, attr, w) == x + (w + (c + Mark(rest, attr, w)));
          assert u + s == x + (c + rest);
          EraseMark(c, rest, attr, w);
          EraseRound(x, w, c + Mark(rest, attr, w), c + rest);
        }
      }
    }
  }

  /** Erasing a token that follows a `>` and then what comes after it. */
  lemma EraseRound(x: string, w: string, cm: string, cr: string)
    requires |w| > 0 && '>' !in w && |x| > 0 && x[|x| - 1] == '>'
    requires Substitute(cm, w, "") == Substitute(cr, w, "")
    ensures Substitute(x + (w + cm), w, "") == Substitute(x + cr, w, "")
  {
    SubstituteSplit(x, w + cm, w, "");
    SubstituteAtToken(w, cm, "");
    SubstituteSplit(x, cr, w, "");
  }

  /** A replace-all of a pattern that does not occur leaves the text as it
      is. */
  lemma {:induction false} SubstituteAbsent(x: string, pat: string, rep: string)
    requires |pat| > 0 && !Contains(x, pat)
    ensures Substitute(x, pat, rep) == x
    decreases |x|
  {
    if |x| > 0 {
      var y := x[1..];
      assert x == [x[0]] + y;
      NotContainsSplit(x, [x[0]], y, pat);
      SubstituteNoStart(x[0], y, pat, rep);
      SubstituteAbsent(y, pat, rep);
    }
  }

  /** A replace-all steps over a first character at which the pattern does
      not occur. */
  lemma SubstituteNoStart(c: char, y: string, pat: string, rep: string)
    requires |pat| > 0 && !OccursAt([c] + y, pat, 0)
    ensures Substitute([c] + y, pat, rep) == [c] + Substitute(y, pat, rep)
  {
    OccursAtSlice([c] + y, pat, 0);
    assert ([c] + y)[1..] == y;
  }

  /** Neither part of a text without the pattern holds the pattern. */
  lemma NotContainsSplit(s: string, a: string, b: string, w: string)
    requires s == a + b && !Contains(s, w)
    ensures !Contains(a, w) && !Contains(b, w)
  {
    if Contains(a, w) {
      ContainsPrefix(a, b, w);
    }
    if Contains(b, w) {
      ContainsSuffix(a, b, w);
    }
  }

  /** A prefix of the marked view without `>` is a prefix of the view: the
      token only goes in after a `>`. */
  lemma MarkPrefixBack(s: string, attr: string, id: string, k: nat)
    requires |attr| > 0 && k <= |Mark(s, attr, id)| && '>' !in Mark(s, attr, id)[..k]
    ensures k <= |s| && Mark(s, attr, id)[..k] == s[..k]
  {
    var m := Mark(s, attr, id);
    var p := IndexOf(s, attr, 0);
    if p >= 0 {
      assert m == MarkAt(s, attr, id, p);
      var e := IndexOfChar(s, '>', p);
      if e >= 0 {
        MarkUnfold(s, attr, id, p, e);
        if e + 1 == |s| {
          PrefixOfAppend(s, id, e + 1);
        } else {
          PrefixOfAppend(s[..e + 1], id + [s[e + 1]] + Mark(s[e + 2..], attr, id), e + 1);
        }
        PrefixUpToGt(m, s, e, k);
      }
    }
  }

  lemma PrefixOfAppend(a: string, b: string, n: nat)
    requires n <= |a|
    ensures (a + b)[..n] == a[..n]
  {
  }

  /** Two texts that agree up to a `>` agree on any prefix without `>`. */
  lemma PrefixUpToGt(m: string, s: string, e: nat, k: nat)
    requires e < |s| && e < |m| && m[..e + 1] == s[..e + 1] && s[e] == '>'
    requires k <= |m| && '>' !in m[..k]
    ensures k <= |s| && m[..k] == s[..k]
  {
    assert m[e] == m[..e + 1][e];
    GtNotInPrefix(m, k, e);
    assert m[..k] == m[..e + 1][..k];
    assert s[..k] == s[..e + 1][..k];
  }

  /** An occurrence of a pattern without `>` at the start of
      `[c] + Mark(rest, ..)` is one at the start of `[c] + rest`. */
  lemma OccursTransfer(c: char, rest: string, attr: string, id: string, w: string)
    requires |attr| > 0 && |w| > 0 && '>' !in w && OccursAt([c] + Mark(rest, attr, id), w, 0)
    ensures OccursAt([c] + rest, w, 0)
  {
    var m := Mark(rest, attr, id);
    var t := [c] + m;
    OccursAtSlice(t, w, 0);
    var k := |w| - 1;
    assert m[..k] == t[1..|w|];
    forall i | 0 <= i < k
      ensures m[..k][i] != '>'
    {
      assert m[..k][i] == w[i + 1];
    }
    MarkPrefixBack(rest, attr, id, k);
    assert ([c] + rest)[..|w|] == [c] + rest[..k];
    OccursAtSlice([c] + rest, w, 0);
  }

  /** The locate pass starts no new occurrence of a pattern without `>` at
      the character it passes over. */
  lemma MarkNoNewStart(c: char, rest: string, attr: string, id: string, w: string)
    requires |attr| > 0 && |w| > 0 && '>' !in w && !OccursAt([c] + rest, w, 0)
    ensures !OccursAt([c] + Mark(rest, attr, id), w, 0)
  {
    if OccursAt([c] + Mark(rest, attr, id), w, 0) {
      OccursTransfer(c, rest, attr, id, w);
    }
  }

  /** Filling in the tokens: a replace-all of token `w` by the text `v`,
      after the locate pass put `w` into a view that did not hold `w`,
      gives the view with `v` where the pass put `w`. */
  lemma {:induction false} FillMark(s: string, attr: string, w: string, v: string)
    requires |attr| > 0 && |w| > 0 && '>' !in w && !Contains(s, w)
    ensures Substitute(Mark(s, attr, w), w, v) == Mark(s, attr, v)
    decreases |s|
  {
    var p := IndexOf(s, attr, 0);
    if p < 0 {
      SubstituteAbsent(s, w, v);
    } else {
      assert Mark(s, attr, w) == MarkAt(s, attr, w, p);
      assert Mark(s, attr, v) == MarkAt(s, attr, v, p);
      var e := IndexOfChar(s, '>', p);
      if e < 0 {
        SubstituteAbsent(s, w, v);
      } else {
        MarkUnfold(s, attr, w, p, e);
        MarkUnfold(s, attr, v, p, e);
        var x := s[..e + 1];
        assert s == x + s[e + 1..];
        NotContainsSplit(s, x, s[e + 1..], w);
        if e + 1 == |s| {
          assert s == x;
          FillLast(x, w, v);
        } else {
          var c := s[e + 1];
          var rest := s[e + 2..];
          assert s[e + 1..] == [c] + rest;
          NotContainsSplit([c] + rest, [c], rest, w);
          assert !OccursAt([c] + rest, w, 0);
          MarkNoNewStart(c, rest, attr, w, w);
          FillMark(rest, attr, w, v);
          FillRound(x, c, w, v, Mark(rest, attr, w), Mark(rest, attr, v));
        }
      }
    }
  }

  /** The last token, right at the end of the view. */
  lemma FillLast(x: string, w: string, v: string)
    requires |w| > 0 && '>' !in w && |x| > 0 && x[|x| - 1] == '>' && !Contains(x, w)
    ensures Substitute(x + w, w, v) == x + v
  {
    assert x + w == x + (w + "");
    SubstituteSplit(x, w + "", w, v);
    SubstituteAbsent(x, w, v);
    SubstituteAtToken(w, "", v);
  }

  /** One token followed by the character passed over and the rest. */
  lemma FillRound(x: string, c: char, w: string, v: string, mw: string, mv: string)
    requires |w| > 0 && '>' !in w && |x| > 0 && x[|x| - 1] == '>' && !Contains(x, w)
    requires !OccursAt([c] + mw, w, 0) && Substitute(mw, w, v) == mv
    ensures Substitute(x + w + [c] + mw, w, v) == x + v + [c] + mv
  {
    var y := [c] + mw;
    assert x + w + [c] + mw == x + (w + y);
    SubstituteAfterGt(x, w + y, w, v);
    SubstituteAtToken(w, y, v);
    SubstituteNoStart(c, mw, w, v);
    assert x + (v + ([c] + mv)) == x + v + [c] + mv;
  }

  /** Text up to a `>` that does not hold the pattern is kept as it is. */
  lemma SubstituteAfterGt(x: string, y: string, w: string, v: string)
    requires |w| > 0 && '>' !in w && |x| > 0 && x[|x| - 1] == '>' && !Contains(x, w)
    ensures Substitute(x + y, w, v) == x + Substitute(y, w, v)
  {
    SubstituteSplit(x, y, w, v);
    SubstituteAbsent(x, w, v);
  }

  /** Erasing a child's token after its three locate passes gives back the
      view, provided the view did not already hold the token and the name
      has no `>` in it. */
  lemma EraseChild(view: string, name: string)
    requires '>' !in name && !Contains(view, Token(name))
    ensures ReplaceAll(MarkChild(view, name), Token(name), "") == view
  {
    var w := Token(name);
    var sp := Spellings(name);
    assert '>' !in w by {
      assert forall i :: 4 <= i < |w| - 1 ==> w[i] == name[i - 4];
    }
    var m1 := Mark(view, sp[0], w);
    var m2 := Mark(m1, sp[1], w);
    var m3 := Mark(m2, sp[2], w);
    assert m3 == MarkChild(view, name);
    EraseMark("", m2, sp[2], w);
    EraseMark("", m1, sp[1], w);
    EraseMark("", view, sp[0], w);
    assert "" + m3 == m3 && "" + m2 == m2 && "" + m1 == m1 && "" + view == view;
    ReplaceAllLiteral(m3, w, "");
    ReplaceAllLiteral(view, w, "");
    ReplaceAllAbsent(view, w, "");
  }

  /** The search for the next marker starts one character past the inserted
      token, so a marker that begins right after a `>` that received a token
      is passed over, although a `>` follows it too. */
  lemma MarkSkipsAdjacent(attr: string, id: string)
    requires |attr| > 0 && '>' !in attr
    ensures OccursAt(attr + ">" + attr + ">", attr, |attr| + 1)
    ensures IndexOfChar(attr + ">" + attr + ">", '>', |attr| + 1) == 2 * |attr| + 1
    ensures Mark(attr + ">" + attr + ">", attr, id) == attr + ">" + id + attr + ">"
  {
    SecondMarker(attr);
    MarkOnce(attr, id);
  }

  /** In `attr>attr>` a marker starts at the second `attr`, with a `>` after
      it. */
  lemma SecondMarker(attr: string)
    requires |attr| > 0 && '>' !in attr
    ensures OccursAt(attr + ">" + attr + ">", attr, |attr| + 1)
    ensures IndexOfChar(attr + ">" + attr + ">", '>', |attr| + 1) == 2 * |attr| + 1
  {
    var h := attr + ">";
    assert h + h == attr + ">" + attr + ">";
    TagAfterMarker(h, attr);
    OccursAtShift(h, h, attr, 0);
    IndexOfCharShift(h, h, '>', 0);
  }

  /** The locate pass tags only the first `>` of `attr>attr>`. */
  lemma MarkOnce(attr: string, id: string)
    requires |attr| > 0 && '>' !in attr
    ensures Mark(attr + ">" + attr + ">", attr, id) == attr + ">" + id + attr + ">"
  {
    var h := attr + ">";
    var s := h + h;
    assert s == attr + ">" + attr + ">";
    TagAfterMarker(h, attr);
    FirstMarkerAt(s, h, attr);
    assert s[..|attr|] == attr;
    CharAbsentPrefix(s, attr, '>');
    var u := s[|attr| + 2..];
    NoMarkerInTail(u, attr);
    MarkUnfold(s, attr, id, 0, |attr|);
    assert Mark(u, attr, id) == u;
    assert s[..|attr| + 1] == h;
  }

  /** In `attr + ">"`, the marker is at 0 and its `>` right after it. */
  lemma TagAfterMarker(h: string, attr: string)
    requires |attr| > 0 && '>' !in attr && h == attr + ">"
    ensures OccursAt(h, attr, 0) && IndexOfChar(h, '>', 0) == |attr|
  {
    assert h[..|attr|] == attr;
    OccursAtSlice(h, attr, 0);
    CharAbsentPrefix(h, attr, '>');
  }

  /** A string that starts with a marker has its first marker at 0. */
  lemma FirstMarkerAt(s: string, h: string, attr: string)
    requires |attr| > 0 && OccursAt(h, attr, 0) && |h| <= |s| && s[..|h|] == h
    ensures IndexOf(s, attr, 0) == 0
  {
    OccursAtSlice(h, attr, 0);
    assert s[..|attr|] == h[..|attr|];
    OccursAtSlice(s, attr, 0);
  }

  /** A string as long as `attr` that ends in `>` holds no marker without `>`. */
  lemma NoMarkerInTail(u: string, attr: string)
    requires |attr| > 0 && '>' !in attr && |u| == |attr| && u[|u| - 1] == '>'
    ensures IndexOf(u, attr, 0) == -1
  {
    OccursAtSlice(u, attr, 0);
    assert attr[|attr| - 1] in attr;
    assert u[..|attr|] != attr by {
      assert u[..|attr|][|attr| - 1] == '>';
    }
  }

  /** A search for a character that `a` lacks finds it right after `a`. */
  lemma {:induction false} CharAbsentPrefix(s: string, a: string, c: char)
    requires c !in a && |a| < |s| && s[..|a|] == a && s[|a|] == c
    ensures IndexOfChar(s, c, 0) == |a|
  {
    IndexOfCharFirst(s, c, 0);
    assert forall i :: 0 <= i < |a| ==> s[i] == a[i];
  }
}
