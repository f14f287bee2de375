/** A worked example of `reduce`: a page whose view holds one
    double-quoted marker for child `c`, and the child's view `CHILD`. */
module Example {
  import opened JsString
  import opened Markers
  import opened MarkFacts
  import opened Containment
  import opened PageletTree

  /** Pieces of the page view `<h1>T<div data-pagelet="c"></div></h1>`. */
  const Before: string := "<h1>T<div "
  const After: string := "/div></h1>"

  function PageView(): string {
    Before + Spellings("c")[1] + ">" + "<" + After
  }

  /** The page with `c` as its only child. */
  function PageTree(): Node {
    Node("page", "", PageView(), [Node("c", "page", "CHILD", [])])
  }

  /** The page view with `id` right after the `>` that closes the tag
      holding the marker. */
  function Marked(id: string): string {
    Before + Spellings("c")[1] + ">" + id + "<" + After
  }

  /** The child's view lands right after the `>` that closes the tag holding
      its marker. */
  lemma PageExample()
    ensures Reduced(PageTree()).view == "<h1>T<div data-pagelet=\"c\">" + "CHILD" + "</div></h1>"
  {
    var child := Node("c", "page", "CHILD", []);
    OnlyChild(PageTree());
    ReducedLeaf(child);
    LocatePage();
    FillPage();
    MarkedChild();
  }

  lemma MarkedChild()
    ensures Marked("CHILD") == "<h1>T<div data-pagelet=\"c\">" + "CHILD" + "</div></h1>"
  {
    assert Spellings("c")[1] == "data-pagelet=\"" + "c" + "\"";
  }

  /** The three locate passes over the page view: only the double-quoted
      spelling occurs, and the token goes in after its tag. */
  lemma LocatePage()
    ensures MarkChild(PageView(), "c") == Marked(Token("c"))
  {
    var sp := Spellings("c");
    var w := Token("c");
    var view := PageView();
    // The single-quoted spelling does not occur: the view has no `'`.
    assert sp[0] == "data-pagelet='" + "c" + "'";
    assert '\'' !in view;
    NoCharNoMatch(view, sp[0], 13);
    MarkAbsent(view, sp[0], w);
    // The double-quoted one gets the token after its `>`.
    LocateOnce(w);
    // The unquoted one does not occur: its `=` is followed by `"`.
    UnquotedAbsent(w);
    MarkAbsent(Marked(w), sp[2], w);
  }

  /** Filling the token with the child's view. */
  lemma FillPage()
    ensures ReplaceAll(Marked(Token("c")), Token("c"), "CHILD") == Marked("CHILD")
  {
    var w := Token("c");
    PageFacts();
    LocateOnce(w);
    LocateOnce("CHILD");
    ReplaceAllLiteral(Marked(w), w, "CHILD");
    NoHeadNoContains(PageView(), w);
    FillMark(PageView(), Spellings("c")[1], w, "CHILD");
  }

  lemma PageFacts()
    ensures '{' !in PageView() && Token("c")[0] == '{' && '>' !in Token("c") && '$' !in "CHILD"
  {
    assert Spellings("c")[1] == "data-pagelet=\"" + "c" + "\"";
  }

  /** A text lacking the first character of `w` does not hold `w`. */
  lemma NoHeadNoContains(s: string, w: string)
    requires |w| > 0 && w[0] !in s
    ensures !Contains(s, w)
  {
    NoCharNoMatch(s, w, 0);
    IndexOfFirst(s, w, 0);
  }

  /** The double-quoted pass puts `id` right after the `>` of the tag. */
  lemma LocateOnce(id: string)
    ensures Mark(PageView(), Spellings("c")[1], id) == Marked(id)
  {
    var sp := Spellings("c")[1];
    var view := PageView();
    assert sp == "data-pagelet=\"" + "c" + "\"";
    assert view == Before + sp + (">" + "<" + After);
    assert sp[1] !in Before + sp[..1];
    FirstMatchAt(Before, sp, ">" + "<" + After, 1);
    assert '>' !in sp;
    CharAfter(Before, sp, ">" + "<" + After, '>');
    var e := |Before| + |sp|;
    MarkUnfold(view, sp, id, |Before|, e);
    assert view[..e + 1] == Before + sp + ">";
    assert view[e + 1] == '<';
    assert view[e + 2..] == After;
    assert sp[13] !in After;
    NoCharNoMatch(After, sp, 13);
    MarkAbsent(After, sp, id);
  }

  /** After the double-quoted pass, the unquoted spelling does not occur. */
  lemma UnquotedAbsent(w: string)
    requires w == Token("c")
    ensures IndexOf(Marked(w), Spellings("c")[2], 0) < 0
  {
    var sp := Spellings("c");
    var s := Marked(w);
    var x := Before + "data-pagelet";
    var y := "\"c\">" + w + "<" + After;
    assert s == x + ['='] + y;
    assert sp[2] == "data-pagelet=" + "c";
    assert '=' !in x && '=' !in y;
    NoMatchUniqueChar(x, '=', y, sp[2], 12);
  }

  /** Where `pat` occurs, its `k`-th character is in place. */
  lemma OccursAtChar(s: string, pat: string, i: nat, k: nat)
    requires OccursAt(s, pat, i) && k < |pat|
    ensures s[i + k] == pat[k]
  {
    OccursAtSlice(s, pat, i);
    assert s[i..i + |pat|][k] == s[i + k];
  }

  /** A pattern with a character that `s` lacks does not occur in `s`. */
  lemma NoCharNoMatch(s: string, pat: string, k: nat)
    requires |pat| > 0 && k < |pat| && pat[k] !in s
    ensures IndexOf(s, pat, 0) < 0
  {
    IndexOfFirst(s, pat, 0);
    forall i | OccursAt(s, pat, i)
      ensures s[i + k] == pat[k]
    {
      OccursAtChar(s, pat, i, k);
    }
  }

  /** `pat` right after `a` is the first occurrence when the `k`-th
      character of `pat` is missing from every place an earlier occurrence
      would put it. */
  lemma FirstMatchAt(a: string, pat: string, b: string, k: nat)
    requires k < |pat| && pat[k] !in a + pat[..k]
    ensures IndexOf(a + pat + b, pat, 0) == |a|
  {
    var s := a + pat + b;
    assert s[|a|..|a| + |pat|] == pat;
    OccursAtSlice(s, pat, |a|);
    forall i | 0 <= i < |a|
      ensures !OccursAt(s, pat, i)
    {
      assert s[i + k] == (a + pat[..k])[i + k];
      Mismatch(s, pat, i, k);
    }
    IndexOfFirst(s, pat, 0);
  }

  /** The first `c` at or after the start of `m`, when `m` lacks `c` and `b`
      starts with it, is the one right after `m`. */
  lemma {:induction false} CharAfter(a: string, m: string, b: string, c: char)
    requires c !in m && |b| > 0 && b[0] == c
    ensures IndexOfChar(a + m + b, c, |a|) == |a| + |m|
    decreases |m|
  {
    var s := a + m + b;
    if |m| == 0 {
      assert s == a + b;
      assert s[|a|] == b[0];
    } else {
      var a' := a + [m[0]];
      assert s == a' + m[1..] + b;
      assert s[|a|] == m[0];
      assert m[0] in m;
      CharAfter(a', m[1..], b, c);
    }
  }

  /** A mismatch at any place of the window rules out an occurrence. */
  lemma Mismatch(s: string, pat: string, i: nat, k: nat)
    requires k < |pat| && i + k < |s| && s[i + k] != pat[k]
    ensures !OccursAt(s, pat, i)
  {
    if i + |pat| <= |s| {
      OccursAtSlice(s, pat, i);
      assert s[i..i + |pat|][k] == s[i + k];
    }
  }

  /** A pattern whose `k`-th character `ch` occurs once in `s`, followed by
      something other than the pattern's next character, does not occur. */
  lemma NoMatchUniqueChar(x: string, ch: char, y: string, pat: string, k: nat)
    requires k + 1 < |pat| && pat[k] == ch && ch !in x && ch !in y && |y| > 0 && y[0] != pat[k + 1]
    ensures IndexOf(x + [ch] + y, pat, 0) < 0
  {
    var s := x + [ch] + y;
    forall j | 0 <= j < |s| && j != |x|
      ensures s[j] != ch
    {
      if j < |x| {
        assert s[j] == x[j];
      } else {
        assert s[j] == y[j - |x| - 1];
      }
    }
    assert s[|x| + 1] == y[0];
    forall i | 0 <= i
      ensures !OccursAt(s, pat, i)
    {
      if i + |pat| <= |s| {
        if i + k != |x| {
          Mismatch(s, pat, i, k);
        } else {
          Mismatch(s, pat, i, k + 1);
        }
      }
    }
    IndexOfFirst(s, pat, 0);
  }
}
