/** The tree `reduce` works on (the fragments of the queue arranged by name
    and parent) and its two walks: the pre-order locate pass, which marks in
    each parent's view where each child goes, and the post-order fill pass,
    which puts each child's finished view there. */
module PageletTree {
  import opened JsString
  import opened Markers
  import opened Containment

  /** A node of the fragment tree: the fragment's name, the name of the
      parent it was queued for, its view, and its children in order. */
  datatype Node = Node(name: string, parent: string, view: string, children: seq<Node>)

  /** The pre-order walk for one parent: each child, in order, whose
      `parent` is the parent's name gets located in the parent's view. */
  function LocateKids(view: string, name: string, kids: seq<Node>): string
  {
    if |kids| == 0 then view
    else
      var v := LocateKids(view, name, kids[..|kids| - 1]);
      var c := kids[|kids| - 1];
      if c.parent == name then MarkChild(v, c.name) else v
  }

  /** The tree after the locate pass. */
  function Located(n: Node): Node
    decreases n, 1
  {
    Node(n.name, n.parent, LocateKids(n.view, n.name, n.children), LocatedAll(n.children))
  }

  function LocatedAll(kids: seq<Node>): (r: seq<Node>)
    ensures |r| == |kids|
    decreases kids, 0
  {
    if |kids| == 0 then [] else LocatedAll(kids[..|kids| - 1]) + [Located(kids[|kids| - 1])]
  }

  /** The post-order walk for one parent, once its children are finished:
      each child, in order, whose `parent` is the parent's name has every
      copy of its token in the parent's view replaced by its view. */
  function FillKids(view: string, name: string, kids: seq<Node>): string
  {
    if |kids| == 0 then view
    else
      var v := FillKids(view, name, kids[..|kids| - 1]);
      var c := kids[|kids| - 1];
      if c.parent == name then ReplaceAll(v, Token(c.name), c.view) else v
  }

  /** The tree after the fill pass. */
  function Filled(n: Node): Node
    decreases n, 1
  {
    var kids := FilledAll(n.children);
    Node(n.name, n.parent, FillKids(n.view, n.name, kids), kids)
  }

  function FilledAll(kids: seq<Node>): (r: seq<Node>)
    ensures |r| == |kids|
    decreases kids, 0
  {
    if |kids| == 0 then [] else FilledAll(kids[..|kids| - 1]) + [Filled(kids[|kids| - 1])]
  }

  /** The tree `reduce` leaves behind: located, then filled. */
  function Reduced(n: Node): Node {
    Filled(Located(n))
  }

  /** The pre-order locate walk, updating each parent's view child by child. */
  method LocateTree(n: Node) returns (m: Node)
    ensures m == Located(n)
    decreases n
  {
    var view := n.view;
    var kids: seq<Node> := [];
    for i := 0 to |n.children|
      invariant view == LocateKids(n.view, n.name, n.children[..i])
      invariant kids == LocatedAll(n.children[..i])
    {
      var c := n.children[i];
      assert n.children[..i + 1][..i] == n.children[..i];
      if c.parent == n.name {
        view := LocateChild(view, c.name);
      }
      var c' := LocateTree(c);
      kids := kids + [c'];
    }
    assert n.children[..|n.children|] == n.children;
    m := Node(n.name, n.parent, view, kids);
  }

  /** The post-order fill walk: each child is finished before its token in
      the parent's view is replaced. */
  method FillTree(n: Node) returns (m: Node)
    ensures m == Filled(n)
    decreases n
  {
    var kids: seq<Node> := [];
    for i := 0 to |n.children|
      invariant kids == FilledAll(n.children[..i])
    {
      assert n.children[..i + 1][..i] == n.children[..i];
      var c' := FillTree(n.children[i]);
      kids := kids + [c'];
    }
    assert n.children[..|n.children|] == n.children;
    var view := n.view;
    for i := 0 to |kids|
      invariant view == FillKids(n.view, n.name, kids[..i])
    {
      assert kids[..i + 1][..i] == kids[..i];
      var c := kids[i];
      if c.parent == n.name {
        view := ReplaceAll(view, Token(c.name), c.view);
      }
    }
    assert kids[..|kids|] == kids;
    m := Node(n.name, n.parent, view, kids);
  }

  /** The tree without its views: names, parents and the order of children. */
  function Skeleton(n: Node): Node
    decreases n, 1
  {
    Node(n.name, n.parent, "", SkeletonAll(n.children))
  }

  function SkeletonAll(kids: seq<Node>): (r: seq<Node>)
    ensures |r| == |kids|
    decreases kids, 0
  {
    if |kids| == 0 then [] else SkeletonAll(kids[..|kids| - 1]) + [Skeleton(kids[|kids| - 1])]
  }

  /** The locate pass changes views only: every node keeps its name, its
      parent and its children, in order. */
  lemma {:induction false} LocatedSkeleton(n: Node)
    ensures Skeleton(Located(n)) == Skeleton(n)
    decreases n, 1
  {
    LocatedAllSkeleton(n.children);
  }

  lemma {:induction false} LocatedAllSkeleton(kids: seq<Node>)
    ensures SkeletonAll(LocatedAll(kids)) == SkeletonAll(kids)
    decreases kids, 0
  {
    if |kids| > 0 {
      var init := kids[..|kids| - 1];
      LocatedAllSkeleton(init);
      LocatedSkeleton(kids[|kids| - 1]);
      assert LocatedAll(kids)[..|kids| - 1] == LocatedAll(init);
    }
  }

  /** The fill pass changes views only, likewise. */
  lemma {:induction false} FilledSkeleton(n: Node)
    ensures Skeleton(Filled(n)) == Skeleton(n)
    decreases n, 1
  {
    FilledAllSkeleton(n.children);
  }

  lemma {:induction false} FilledAllSkeleton(kids: seq<Node>)
    ensures SkeletonAll(FilledAll(kids)) == SkeletonAll(kids)
    decreases kids, 0
  {
    if |kids| > 0 {
      var init := kids[..|kids| - 1];
      FilledAllSkeleton(init);
      FilledSkeleton(kids[|kids| - 1]);
      assert FilledAll(kids)[..|kids| - 1] == FilledAll(init);
    }
  }

  /** Reducing keeps the shape of the tree, root name included. */
  lemma ReducedSkeleton(n: Node)
    ensures Skeleton(Reduced(n)) == Skeleton(n) && Reduced(n).name == n.name
  {
    LocatedSkeleton(n);
    FilledSkeleton(Located(n));
  }

  /** A root with one child whose `parent` names the root: the root's
      reduced view is its located view with the child's token filled by the
      child's reduced view. */
  lemma OnlyChild(root: Node)
    requires |root.children| == 1 && root.children[0].parent == root.name
    ensures Reduced(root).children == [Reduced(root.children[0])]
    ensures Reduced(root).view ==
      ReplaceAll(MarkChild(root.view, root.children[0].name), Token(root.children[0].name), Reduced(root.children[0]).view)
  {
    var c := root.children[0];
    assert root.children[..0] == [];
    assert LocateKids(root.view, root.name, root.children) == MarkChild(root.view, c.name);
    assert LocatedAll(root.children) == [Located(c)];
    var lc := Located(c);
    assert FilledAll([lc]) == [Filled(lc)] by {
      assert [lc][..0] == [];
    }
    var kids := [Filled(lc)];
    var v := MarkChild(root.view, c.name);
    assert Located(root) == Node(root.name, root.parent, v, [lc]);
    assert Filled(Located(root)) == Node(root.name, root.parent, FillKids(v, root.name, kids), kids);
    assert kids[..0] == [];
    assert kids[0].parent == root.name && kids[0].name == c.name;
    assert FillKids(v, root.name, kids) == ReplaceAll(v, Token(c.name), Filled(lc).view);
  }

  /** A node without children is its own reduction. */
  lemma ReducedLeaf(n: Node)
    requires |n.children| == 0
    ensures Reduced(n) == n
  {
  }

  /** Nesting, as in a root, a middle pagelet and a leaf, each the only child
      of the one before: the leaf's view ends up inside the middle one's
      reduced view, which ends up inside the root's, provided each parent's
      view holds a marker for its child with a `>` after it, the names have
      no `>` and nothing carries a `$` into a replacement. */
  lemma Nesting(root: Node)
    requires |root.children| == 1 && root.children[0].parent == root.name
    requires var mid := root.children[0];
      |mid.children| == 1 && mid.children[0].parent == mid.name && |mid.children[0].children| == 0
    requires var mid := root.children[0]; var leaf := mid.children[0];
      && '>' !in mid.name && '>' !in leaf.name
      && Locatable(root.view, mid.name) && Locatable(mid.view, leaf.name)
      && '$' !in mid.view && '$' !in leaf.view && '$' !in leaf.name
    ensures var mid := root.children[0]; var leaf := mid.children[0];
      && Contains(Reduced(mid).view, leaf.view)
      && Contains(Reduced(root).view, Reduced(mid).view)
      && Contains(Reduced(root).view, leaf.view)
  {
    var mid := root.children[0];
    var leaf := mid.children[0];
    OnlyChild(mid);
    OnlyChild(root);
    ReducedLeaf(leaf);
    var mm := MarkChild(mid.view, leaf.name);
    ChildTokenPresent(mid.view, leaf.name);
    ReplaceAllLiteral(mm, Token(leaf.name), leaf.view);
    SubstituteShows(mm, Token(leaf.name), leaf.view);
    var midView := Reduced(mid).view;
    assert '$' !in midView by {
      TokenLacks(leaf.name, '$');
      MarkChildChars(mid.view, leaf.name, '$');
      SubstituteChars(mm, Token(leaf.name), leaf.view, '$');
    }
    var rm := MarkChild(root.view, mid.name);
    ChildTokenPresent(root.view, mid.name);
    ReplaceAllLiteral(rm, Token(mid.name), midView);
    SubstituteShows(rm, Token(mid.name), midView);
    ContainsTrans(Reduced(root).view, midView, leaf.view);
  }

  /** The three locate passes bring in no character that neither the view
      nor the token holds. */
  lemma MarkChildChars(s: string, name: string, ch: char)
    requires ch !in s && ch !in Token(name)
    ensures ch !in MarkChild(s, name)
  {
    var sp := Spellings(name);
    var w := Token(name);
    MarkChars(s, sp[0], w, ch);
    MarkChars(Mark(s, sp[0], w), sp[1], w, ch);
    MarkChars(Mark(Mark(s, sp[0], w), sp[1], w), sp[2], w, ch);
  }
}
