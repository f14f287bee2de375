/** Which texts survive the two passes of `reduce`: the locate pass keeps
    every piece of a view that has no `>` in it and adds the child's token,
    and the fill pass puts the child's view wherever a token was. */
module Containment {
  import opened JsString
  import opened Markers

  /** `w` occurring in `a` occurs in `a + b`. */
  lemma ContainsPrefix(a: string, b: string, w: string)
    requires Contains(a, w)
    ensures Contains(a + b, w)
  {
    var i :| 0 <= i <= |a| && OccursAt(a, w, i);
    OccursAtSlice(a, w, i);
    assert (a + b)[i..i + |w|] == a[i..i + |w|];
    OccursAtSlice(a + b, w, i);
  }

  /** `w` occurring in `b` occurs in `a + b`. */
  lemma ContainsSuffix(a: string, b: string, w: string)
    requires Contains(b, w)
    ensures Contains(a + b, w)
  {
    var i :| 0 <= i <= |b| && OccursAt(b, w, i);
    OccursAtShift(a, b, w, i);
  }

  /** Every string occurs in itself. */
  lemma ContainsSelf(w: string)
    ensures Contains(w, w)
  {
    OccursAtSlice(w, w, 0);
  }

  /** Occurring in is transitive. */
  lemma ContainsTrans(a: string, b: string, c: string)
    requires Contains(a, b) && Contains(b, c)
    ensures Contains(a, c)
  {
    var i :| 0 <= i <= |a| && OccursAt(a, b, i);
    var j :| 0 <= j <= |b| && OccursAt(b, c, j);
    OccursAtSlice(a, b, i);
    OccursAtSlice(b, c, j);
    forall k | 0 <= k < |c|
      ensures a[i + j + k] == c[k]
    {
      assert a[i..i + |b|][j + k] == a[i + j + k];
      assert b[j..j + |c|][k] == b[j + k];
    }
    assert a[i + j..i + j + |c|] == c;
    OccursAtSlice(a, c, i + j);
  }

  /** The locate pass leaves a view's text alone up to its first `>`. */
  lemma MarkPrefix(s: string, attr: string, id: string, k: nat)
    requires |attr| > 0 && k <= |s| && '>' !in s[..k]
    ensures k <= |Mark(s, attr, id)| && Mark(s, attr, id)[..k] == s[..k]
  {
    var p := IndexOf(s, attr, 0);
    if p >= 0 {
      var e := IndexOfChar(s, '>', p);
      if e >= 0 {
        MarkUnfold(s, attr, id, p, e);
        GtNotInPrefix(s, k, e);
      } else {
        assert Mark(s, attr, id) == MarkAt(s, attr, id, p);
      }
    }
  }

  /** The locate pass keeps every occurrence of a text without `>`: the
      token only ever goes in right after a `>`. */
  lemma {:induction false} MarkKeeps(s: string, attr: string, id: string, w: string)
    requires |attr| > 0 && '>' !in w && Contains(s, w)
    ensures Contains(Mark(s, attr, id), w)
    decreases |s|
  {
    var p := IndexOf(s, attr, 0);
    if p < 0 {
      return;
    }
    assert Mark(s, attr, id) == MarkAt(s, attr, id, p);
    var e := IndexOfChar(s, '>', p);
    if e < 0 {
      return;
    }
    MarkUnfold(s, attr, id, p, e);
    var x := s[..e + 1];
    if e + 1 == |s| {
      assert s == x;
      ContainsPrefix(s, id, w);
      return;
    }
    var c := s[e + 1];
    var rest := s[e + 2..];
    assert Mark(s, attr, id) == (x + id) + ([c] + Mark(rest, attr, id));
    var q :| 0 <= q <= |s| && OccursAt(s, w, q);
    OccursAtSlice(s, w, q);
    GtNotInside(s, w, q, e);
    if q + |w| <= e + 1 {
      assert x[q..q + |w|] == s[q..q + |w|];
      OccursAtSlice(x, w, q);
      ContainsPrefix(x, id, w);
      ContainsPrefix(x + id, [c] + Mark(rest, attr, id), w);
    } else if q == e + 1 {
      KeptAtSkipped(s, attr, id, w, e);
      ContainsSuffix(x + id, [c] + Mark(rest, attr, id), w);
    } else {
      assert rest[q - e - 2..q - e - 2 + |w|] == s[q..q + |w|];
      OccursAtSlice(rest, w, q - e - 2);
      MarkKeeps(rest, attr, id, w);
      ContainsSuffix(x + id + [c], Mark(rest, attr, id), w);
      assert x + id + [c] + Mark(rest, attr, id) == (x + id) + ([c] + Mark(rest, attr, id));
    }
  }

  /** A `>` lies at or beyond any prefix free of `>`. */
  lemma GtNotInPrefix(s: string, k: nat, e: nat)
    requires k <= |s| && '>' !in s[..k] && e < |s| && s[e] == '>'
    ensures k <= e
  {
    forall i | 0 <= i < k
      ensures s[i] != '>'
    {
      assert s[..k][i] == s[i];
    }
  }

  /** An occurrence of a text without `>` does not straddle a `>`. */
  lemma GtNotInside(s: string, w: string, q: nat, e: nat)
    requires '>' !in w && q + |w| <= |s| && s[q..q + |w|] == w && e < |s| && s[e] == '>'
    ensures e < q || q + |w| <= e
  {
    forall j | q <= j < q + |w|
      ensures s[j] != '>'
    {
      assert s[q..q + |w|][j - q] == s[j];
    }
  }

  /** An occurrence that starts at the character passed over after a token
      is kept: the rest of it lies before the next `>`. */
  lemma KeptAtSkipped(s: string, attr: string, id: string, w: string, e: nat)
    requires |attr| > 0 && '>' !in w && e + 2 <= |s| && OccursAt(s, w, e + 1)
    ensures Contains([s[e + 1]] + Mark(s[e + 2..], attr, id), w)
  {
    var rest := s[e + 2..];
    OccursAtSlice(s, w, e + 1);
    if |w| > 0 {
      var k := |w| - 1;
      assert rest[..k] == w[1..];
      assert '>' !in rest[..k] by {
        assert forall i :: 0 <= i < k ==> rest[..k][i] == w[i + 1];
      }
      MarkPrefix(rest, attr, id, k);
      var t := [s[e + 1]] + Mark(rest, attr, id);
      assert t[..|w|] == [s[e + 1]] + Mark(rest, attr, id)[..k];
      assert t[..|w|] == w;
      OccursAtSlice(t, w, 0);
    } else {
      OccursAtSlice([s[e + 1]] + Mark(rest, attr, id), w, 0);
    }
  }

  /** When the first marker has a `>` after it, the locate pass puts the
      token into the view. */
  lemma MarkInserts(s: string, attr: string, id: string)
    requires |attr| > 0 && IndexOf(s, attr, 0) >= 0 && IndexOfChar(s, '>', IndexOf(s, attr, 0)) >= 0
    ensures Contains(Mark(s, attr, id), id)
  {
    var p := IndexOf(s, attr, 0);
    var e := IndexOfChar(s, '>', p);
    MarkUnfold(s, attr, id, p, e);
    var x := s[..e + 1];
    ContainsSelf(id);
    ContainsSuffix(x, id, id);
    if e + 1 == |s| {
      assert Mark(s, attr, id) == x + id;
    } else {
      var tail := [s[e + 1]] + Mark(s[e + 2..], attr, id);
      assert Mark(s, attr, id) == (x + id) + tail;
      ContainsPrefix(x + id, tail, id);
    }
  }

  /** With no marker in the view, the locate pass changes nothing. */
  lemma MarkAbsent(s: string, attr: string, id: string)
    requires |attr| > 0 && IndexOf(s, attr, 0) < 0
    ensures Mark(s, attr, id) == s
  {
  }

  /** The locate pass brings in no character that neither the view nor the
      token holds. */
  lemma {:induction false} MarkChars(s: string, attr: string, id: string, ch: char)
    requires |attr| > 0 && ch !in s && ch !in id
    ensures ch !in Mark(s, attr, id)
    decreases |s|
  {
    var p := IndexOf(s, attr, 0);
    if p >= 0 {
      assert Mark(s, attr, id) == MarkAt(s, attr, id, p);
      var e := IndexOfChar(s, '>', p);
      if e >= 0 {
        MarkUnfold(s, attr, id, p, e);
        if e + 1 < |s| {
          var rest := s[e + 2..];
          assert ch !in rest by {
            assert forall i :: 0 <= i < |rest| ==> rest[i] == s[e + 2 + i];
          }
          MarkChars(rest, attr, id, ch);
          assert ch !in s[..e + 1] by {
            assert forall i :: 0 <= i < e + 1 ==> s[..e + 1][i] == s[i];
          }
        }
      }
    }
  }

  /** A literal replace-all shows the replacement wherever the pattern
      occurred. */
  lemma {:induction false} SubstituteShows(x: string, w: string, v: string)
    requires |w| > 0 && Contains(x, w)
    ensures Contains(Substitute(x, w, v), v)
    decreases |x|
  {
    var q :| 0 <= q <= |x| && OccursAt(x, w, q);
    if |w| <= |x| && x[..|w|] == w {
      ContainsSelf(v);
      ContainsPrefix(v, Substitute(x[|w|..], w, v), v);
    } else {
      OccursAtSlice(x, w, 0);
      OccursAtSlice(x, w, q);
      assert q > 0;
      assert x[1..][q - 1..q - 1 + |w|] == x[q..q + |w|];
      OccursAtSlice(x[1..], w, q - 1);
      SubstituteShows(x[1..], w, v);
      ContainsSuffix([x[0]], Substitute(x[1..], w, v), v);
    }
  }

  /** A literal replace-all brings in no character that neither the text nor
      the replacement holds. */
  lemma {:induction false} SubstituteChars(x: string, w: string, v: string, ch: char)
    requires |w| > 0 && ch !in x && ch !in v
    ensures ch !in Substitute(x, w, v)
    decreases |x|
  {
    if |x| > 0 {
      if |w| <= |x| && x[..|w|] == w {
        assert ch !in x[|w|..] by {
          assert forall i :: 0 <= i < |x| - |w| ==> x[|w|..][i] == x[|w| + i];
        }
        SubstituteChars(x[|w|..], w, v, ch);
      } else {
        assert ch !in x[1..] by {
          assert forall i :: 0 <= i < |x| - 1 ==> x[1..][i] == x[1 + i];
        }
        SubstituteChars(x[1..], w, v, ch);
      }
    }
  }

  /** A character that is not in the name and is none of `{`, `i`, `d`,
      `-`, `}` is not in the name's token. */
  lemma TokenLacks(name: string, ch: char)
    requires ch !in name && ch !in "{id-}"
    ensures ch !in Token(name)
  {
    var w := Token(name);
    forall i | 0 <= i < |w|
      ensures w[i] != ch
    {
      if 4 <= i < |w| - 1 {
        assert w[i] == name[i - 4];
      }
    }
  }

  /** The first marker of `attr` in `s` has a `>` after it. */
  predicate FoundWithTag(s: string, attr: string)
    requires |attr| > 0
  {
    IndexOf(s, attr, 0) >= 0 && IndexOfChar(s, '>', IndexOf(s, attr, 0)) >= 0
  }

  /** The first of the three spellings that occurs in `s` has a `>` after
      its first occurrence. */
  predicate Locatable(s: string, name: string) {
    var sp := Spellings(name);
    || FoundWithTag(s, sp[0])
    || (IndexOf(s, sp[0], 0) < 0 && FoundWithTag(s, sp[1]))
    || (IndexOf(s, sp[0], 0) < 0 && IndexOf(s, sp[1], 0) < 0 && FoundWithTag(s, sp[2]))
  }

  /** The three locate passes for a child put its token into a view in which
      the child is locatable. */
  lemma ChildTokenPresent(s: string, name: string)
    requires '>' !in name && Locatable(s, name)
    ensures Contains(MarkChild(s, name), Token(name))
  {
    var sp := Spellings(name);
    var w := Token(name);
    TokenLacks(name, '>');
    var m1 := Mark(s, sp[0], w);
    var m2 := Mark(m1, sp[1], w);
    if FoundWithTag(s, sp[0]) {
      MarkInserts(s, sp[0], w);
      MarkKeeps(m1, sp[1], w, w);
      MarkKeeps(m2, sp[2], w, w);
    } else if FoundWithTag(s, sp[1]) {
      MarkAbsent(s, sp[0], w);
      MarkInserts(m1, sp[1], w);
      MarkKeeps(m2, sp[2], w, w);
    } else {
      MarkAbsent(s, sp[0], w);
      MarkAbsent(m1, sp[1], w);
      MarkInserts(m2, sp[2], w);
    }
  }
}
