/** The locate pass of the reducer for one parent view, one child and one
    spelling of the marker attribute: every marker that has a `>` after it
    gets the child's token inserted right after the first such `>`. */
module Markers {
  import opened JsString

  /** The three spellings under which a parent's markup may name child
      `name`: single-quoted, double-quoted and unquoted. The unquoted one is
      matched as a prefix, so `data-pagelet=ca` also names child `c`. */
  function Spellings(name: string): (r: seq<string>)
    ensures |r| == 3
    ensures forall i :: 0 <= i < 3 ==> |r[i]| >= 13 + |name| && r[i][..13] == "data-pagelet="
  {
    ["data-pagelet='" + name + "'", "data-pagelet=\"" + name + "\"", "data-pagelet=" + name]
  }

  /** The opaque token that stands for child `name` between the two passes. */
  function Token(name: string): (r: string)
    ensures |r| == |name| + 5 && r[0] == '{' && r[|r| - 1] == '}'
  {
    "{id-" + name + "}"
  }

  /** What the locate loop makes of `s`: find the first marker; if no `>`
      follows it, nothing changes (and none follows any later marker either);
      otherwise `id` goes right after that `>`, the character after the
      insertion is passed over, and the search carries on behind it. */
  function Mark(s: string, attr: string, id: string): (r: string)
    requires |attr| > 0
    decreases |s|, 1
  {
    var p := IndexOf(s, attr, 0);
    if p < 0 then s else MarkAt(s, attr, id, p)
  }

  /** What `Mark` makes of `s` when its first marker is at `p`. */
  function MarkAt(s: string, attr: string, id: string, p: nat): (r: string)
    requires |attr| > 0 && p <= |s|
    decreases |s|, 0
  {
    var e := IndexOfChar(s, '>', p);
    if e < 0 then s
    else if e + 1 == |s| then s + id
    else s[..e + 1] + id + [s[e + 1]] + Mark(s[e + 2..], attr, id)
  }

  /** The locate loop for one spelling `attr`, searching and rewriting the
      parent's view in place. */
  method Locate(view: string, attr: string, id: string) returns (r: string)
    requires |attr| > 0
    ensures r == Mark(view, attr, id)
  {
    r := view;
    var index := IndexOf(r, attr, 0);
    LoopMarks(view, attr, id);
    while index != -1
      invariant -1 <= index <= |r| && Loop(r, attr, id, index) == Mark(view, attr, id)
      decreases if index < 0 then 0 else |r| - index + 1
    {
      var end := IndexOfChar(r, '>', index);
      if end != -1 {
        end := end + 1;
        r := InsertAt(r, end, id);
        index := end + |id|;
      }
      index := IndexOf(r, attr, index + 1);
    }
  }

  /** The locate step for child `name`: the loop run once for each spelling
      of its `data-pagelet` attribute, in the order the source lists them,
      each pass working on the view the previous one left. */
  method LocateChild(view: string, name: string) returns (r: string)
    ensures r == MarkChild(view, name)
  {
    var spellings := Spellings(name);
    r := view;
    r := Locate(r, spellings[0], Token(name));
    r := Locate(r, spellings[1], Token(name));
    r := Locate(r, spellings[2], Token(name));
  }

  /** What `LocateChild` makes of `view`. */
  function MarkChild(view: string, name: string): string
  {
    var spellings := Spellings(name);
    Mark(Mark(Mark(view, spellings[0], Token(name)), spellings[1], Token(name)), spellings[2], Token(name))
  }

  /** `r` with `id` inserted before index `at`. It is defined in two layers,
      `Insert` and `InsertStep`, so that the solver unfolds one character at a
      time and only where a proof asks for it. */
  ghost function Insert(r: string, at: nat, id: string): (r': string)
    requires at <= |r|
    ensures |r'| == |r| + |id|
    decreases at, 1
  {
    InsertStep(r, at, id)
  }

  ghost function InsertStep(r: string, at: nat, id: string): (r': string)
    requires at <= |r|
    ensures |r'| == |r| + |id|
    decreases at, 0
  {
    if at == 0 then id + r else [r[0]] + Insert(r[1..], at - 1, id)
  }

  /** `r.slice(0, at) + id + r.slice(at)`. */
  method InsertAt(r: string, at: nat, id: string) returns (r': string)
    requires at <= |r|
    ensures r' == Insert(r, at, id)
  {
    InsertIs(r, at, id);
    r' := r[..at] + id + r[at..];
  }

  lemma {:induction false} InsertIs(r: string, at: nat, id: string)
    requires at <= |r|
    ensures Insert(r, at, id) == r[..at] + id + r[at..]
    decreases at
  {
    assert Insert(r, at, id) == InsertStep(r, at, id);
    if at > 0 {
      InsertIs(r[1..], at - 1, id);
      assert r[1..][..at - 1] == r[1..at];
      assert r[1..][at - 1..] == r[at..];
      assert [r[0]] + (r[1..at] + id + r[at..]) == r[..at] + id + r[at..];
    }
  }

  /** What the rounds of the locate loop still to come make of view `r`
      when the marker under consideration is at `index` (-1: none left). */
  ghost function Loop(r: string, attr: string, id: string, index: int): string
    requires |attr| > 0 && -1 <= index <= |r|
    decreases if index < 0 then 0 else |r| - index + 1, 1
  {
    if index < 0 then r else LoopAt(r, attr, id, index)
  }

  /** One round at the marker at `index`, then the rounds after it. */
  ghost function LoopAt(r: string, attr: string, id: string, index: nat): string
    requires |attr| > 0 && index <= |r|
    decreases |r| - index + 1, 0
  {
    var end := IndexOfChar(r, '>', index);
    if end < 0 then Loop(r, attr, id, IndexOf(r, attr, index + 1))
    else
      var r' := Insert(r, end + 1, id);
      Loop(r', attr, id, IndexOf(r', attr, end + 1 + |id| + 1))
  }

  /** The loop, started on the whole view, computes `Mark`. */
  lemma LoopMarks(view: string, attr: string, id: string)
    requires |attr| > 0
    ensures Loop(view, attr, id, IndexOf(view, attr, 0)) == Mark(view, attr, id)
  {
    LoopFrom([], view, attr, id);
    assert [] + view == view;
  }

  /** Rounds that start behind a finished part `done` rewrite the untouched
      rest `t` as `Mark` does. */
  lemma {:induction false} LoopFrom(done: string, t: string, attr: string, id: string)
    requires |attr| > 0
    ensures Loop(done + t, attr, id, IndexOf(done + t, attr, |done|)) == done + Mark(t, attr, id)
    decreases |t|
  {
    var p := IndexOf(t, attr, 0);
    if p < 0 {
      LoopNoMarker(done, t, attr, id);
    } else if IndexOfChar(t, '>', p) < 0 {
      LoopUnterminated(done, t, attr, id, p);
    } else {
      var e := IndexOfChar(t, '>', p);
      var d', t' := Split(done, t, attr, id, p, e);
      LoopRound(done, t, attr, id, p, e, done + d' + t');
      FromAfterEnd(done + d' + t', attr, |done| + e + 1 + |id| + 1, |done + d'|);
      LoopFrom(done + d', t', attr, id);
      Assoc(done, d', Mark(t', attr, id));
    }
  }

  lemma LoopNoMarker(done: string, t: string, attr: string, id: string)
    requires |attr| > 0 && IndexOf(t, attr, 0) < 0
    ensures Loop(done + t, attr, id, IndexOf(done + t, attr, |done|)) == done + Mark(t, attr, id)
  {
    IndexOfShift(done, t, attr, 0);
  }

  lemma LoopUnterminated(done: string, t: string, attr: string, id: string, p: nat)
    requires |attr| > 0 && p == IndexOf(t, attr, 0) && IndexOfChar(t, '>', p) < 0
    ensures Loop(done + t, attr, id, IndexOf(done + t, attr, |done|)) == done + Mark(t, attr, id)
  {
    IndexOfShift(done, t, attr, 0);
    IndexOfCharShift(done, t, '>', p);
    LoopStuck(done + t, attr, id, |done| + p);
    StepUnterminated(t, attr, id, p);
  }

  /** One round that finds the `>` at `e` after the marker at `p` of the
      untouched rest `t`: the loop goes on behind a longer finished part. */
  lemma LoopRound(done: string, t: string, attr: string, id: string, p: nat, e: nat, r': string)
    requires |attr| > 0 && p == IndexOf(t, attr, 0) && e == IndexOfChar(t, '>', p)
    requires r' == Insert(done + t, |done| + e + 1, id)
    ensures Loop(done + t, attr, id, IndexOf(done + t, attr, |done|))
         == Loop(r', attr, id, IndexOf(r', attr, |done| + e + 1 + |id| + 1))
  {
    IndexOfShift(done, t, attr, 0);
    IndexOfCharShift(done, t, '>', p);
    LoopUnfoldFound(done + t, attr, id, |done| + p, |done| + e, r');
  }

  /** The text and the marked text after one round that finds the `>` at
      `e` after the marker at `p` of the untouched rest `t`. */
  lemma Split(done: string, t: string, attr: string, id: string, p: nat, e: nat)
    returns (d': string, t': string)
    requires |attr| > 0 && p == IndexOf(t, attr, 0) && e == IndexOfChar(t, '>', p)
    ensures e < |t| && |t'| < |t|
    ensures Mark(t, attr, id) == d' + Mark(t', attr, id)
    ensures Insert(done + t, |done| + e + 1, id) == done + d' + t'
    ensures |d'| == e + 1 + |id| + 1 || (t' == [] && |d'| == e + 1 + |id|)
  {
    AdvanceMark(t, attr, id, p, e);
    AdvanceText(t, e, id, done);
    d', t' := Advance(t, e, id).0, Advance(t, e, id).1;
  }

  /** One round of the loop at a marker whose `>` is at `end`. */
  lemma LoopUnfoldFound(r: string, attr: string, id: string, index: nat, end: nat, r': string)
    requires |attr| > 0 && index <= |r| && end == IndexOfChar(r, '>', index) && end >= 0
    requires r' == Insert(r, end + 1, id)
    ensures end + 1 + |id| + 1 >= 0
    ensures Loop(r, attr, id, index) == Loop(r', attr, id, IndexOf(r', attr, end + 1 + |id| + 1))
  {
    assert Loop(r, attr, id, index) == LoopAt(r, attr, id, index);
  }

  /** Once a marker has no `>` after it, no later round changes anything. */
  lemma {:induction false} LoopStuck(r: string, attr: string, id: string, index: nat)
    requires |attr| > 0 && index <= |r| && IndexOfChar(r, '>', index) == -1
    ensures Loop(r, attr, id, index) == r
    decreases |r| - index
  {
    var next := IndexOf(r, attr, index + 1);
    assert Loop(r, attr, id, index) == LoopAt(r, attr, id, index);
    if next >= 0 {
      NotFoundLater(r, '>', index, next);
      LoopStuck(r, attr, id, next);
    } else {
      assert Loop(r, attr, id, next) == r;
    }
  }

  /** The finished part and the untouched rest after one round that finds
      the `>` at `e` of the untouched rest `t`. */
  function Advance(t: string, e: nat, id: string): (string, string)
    requires e < |t|
  {
    if e + 1 == |t| then (t + id, []) else (t[..e + 1] + id + [t[e + 1]], t[e + 2..])
  }

  /** The rewritten view again splits into finished part and rest. */
  lemma AdvanceText(t: string, e: nat, id: string, done: string)
    requires e < |t|
    ensures |Advance(t, e, id).1| < |t|
    ensures Insert(done + t, |done| + e + 1, id) == done + Advance(t, e, id).0 + Advance(t, e, id).1
    ensures |Advance(t, e, id).0| == e + 1 + |id| + 1 || (Advance(t, e, id).1 == [] && |Advance(t, e, id).0| == e + 1 + |id|)
  {
    InsertIs(done + t, |done| + e + 1, id);
    SplitAt(done, t, e + 1);
    if e + 1 < |t| {
      assert t[e + 1..] == [t[e + 1]] + t[e + 2..];
    }
  }

  /** The rewritten part is what `Mark` makes of the rest's first marker. */
  lemma AdvanceMark(t: string, attr: string, id: string, p: nat, e: nat)
    requires |attr| > 0
    requires p == IndexOf(t, attr, 0) && e == IndexOfChar(t, '>', p)
    ensures e < |t|
    ensures Mark(t, attr, id) == Advance(t, e, id).0 + Mark(Advance(t, e, id).1, attr, id)
  {
    MarkUnfold(t, attr, id, p, e);
    if e + 1 == |t| {
      assert Mark([], attr, id) == [];
    }
  }

  lemma SplitAt(a: string, t: string, n: nat)
    requires n <= |t|
    ensures (a + t)[..|a| + n] == a + t[..n] && (a + t)[|a| + n..] == t[n..]
  {
  }

  lemma Assoc(a: string, b: string, c: string)
    ensures a + (b + c) == (a + b) + c
  {
  }

  /** A round whose marker (at `p` in the untouched rest `t`) has no `>`
      after it leaves the rest alone. */
  lemma StepUnterminated(t: string, attr: string, id: string, p: nat)
    requires |attr| > 0
    requires p == IndexOf(t, attr, 0) && IndexOfChar(t, '>', p) == -1
    ensures Mark(t, attr, id) == t
  {
  }

  /** One unfolding of `Mark` at a marker whose `>` is known. */
  lemma MarkUnfold(t: string, attr: string, id: string, p: int, e: int)
    requires |attr| > 0 && p == IndexOf(t, attr, 0) && p >= 0 && e == IndexOfChar(t, '>', p) && e >= 0
    ensures e < |t|
    ensures e + 1 == |t| ==> Mark(t, attr, id) == t + id
    ensures e + 1 < |t| ==> Mark(t, attr, id) == t[..e + 1] + id + [t[e + 1]] + Mark(t[e + 2..], attr, id)
  {
    assert Mark(t, attr, id) == MarkAt(t, attr, id, p);
  }

  /** A search that fails from `a` fails from any later start as well. */
  lemma NotFoundLater(r: string, c: char, a: nat, b: nat)
    requires a <= b && IndexOfChar(r, c, a) == -1
    ensures IndexOfChar(r, c, b) == -1
  {
    IndexOfCharFirst(r, c, a);
  }

  /** Searching from past the end finds nothing, like searching from the end. */
  lemma FromAfterEnd(r: string, attr: string, a: nat, b: nat)
    requires |attr| > 0 && (a == b || (a == b + 1 && b == |r|))
    ensures IndexOf(r, attr, a) == IndexOf(r, attr, b)
  {
  }
}
