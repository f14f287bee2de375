/** The values a pagelet queues and how `join` turns a queue into text:
    JavaScript truthiness, `typeof`, the `flatten` step and
    `Array.prototype.join`. */
module Fragments {

  /** A JavaScript value, as far as the pagelet looks at one. Numbers are
      integers here. */
  datatype Value =
    | Undefined
    | Null
    | Bool(b: bool)
    | Num(n: int)
    | Str(s: string)
    | Arr(items: seq<Value>)
    | Obj(fields: seq<(string, Value)>)

  /** JavaScript's ToBoolean: `undefined`, `null`, `false`, `0` and `''`
      are falsy, every other value is truthy. */
  predicate Truthy(v: Value) {
    match v
    case Undefined => false
    case Null => false
    case Bool(b) => b
    case Num(n) => n != 0
    case Str(s) => |s| > 0
    case Arr(_) => true
    case Obj(_) => true
  }

  /** The `typeof` operator. */
  function TypeOf(v: Value): string {
    match v
    case Undefined => "undefined"
    case Null => "object"
    case Bool(_) => "boolean"
    case Num(_) => "number"
    case Str(_) => "string"
    case Arr(_) => "object"
    case Obj(_) => "object"
  }

  /** `typeof` says "object" exactly for `null`, arrays and plain objects. */
  lemma TypeOfObject(v: Value)
    ensures TypeOf(v) == "object" <==> (v.Null? || v.Arr? || v.Obj?)
  {
  }

  /** One entry of the queue: the pagelet that queued it, its parent and the
      data it queued. */
  datatype Fragment = Fragment(parent: Value, name: Value, view: Value)

  /** The `flatten` step of `join`: the fragment's view, or `''` when its
      name or its view is falsy. */
  function Flat(f: Fragment): Value {
    if !Truthy(f.name) || !Truthy(f.view) then Str("") else f.view
  }

  /** `queue.map(flatten)`: one flattened value per fragment, in order. */
  function Flatten(q: seq<Fragment>): (r: seq<Value>)
    ensures |r| == |q|
    ensures forall i :: 0 <= i < |q| ==> r[i] == Flat(q[i])
  {
    if |q| == 0 then [] else Flatten(q[..|q| - 1]) + [Flat(q[|q| - 1])]
  }

  /** The text `Array.prototype.join` puts in for one element: nothing for
      `undefined` and `null`, the element's ToString otherwise. */
  function ElemText(v: Value): string
    decreases v, 1
  {
    match v
    case Undefined => ""
    case Null => ""
    case Bool(b) => if b then "true" else "false"
    case Num(n) => NumText(n)
    case Str(s) => s
    case Arr(items) => Join(items, ",")
    case Obj(_) => "[object Object]"
  }

  /** `vs.join(sep)`. */
  function Join(vs: seq<Value>, sep: string): string
    decreases vs, 0
  {
    if |vs| == 0 then ""
    else if |vs| == 1 then ElemText(vs[0])
    else ElemText(vs[0]) + sep + Join(vs[1..], sep)
  }

  /** The decimal text of an integer, with a leading `-` when negative. */
  function NumText(n: int): string {
    if n < 0 then "-" + Digits(-n) else Digits(n)
  }

  function Digits(n: nat): (r: string)
    ensures |r| > 0
  {
    if n < 10 then [Digit(n)] else Digits(n / 10) + [Digit(n % 10)]
  }

  function Digit(d: nat): char
    requires d < 10
  {
    "0123456789"[d]
  }

  /** Joining with `''` one more value appends that value's text. */
  lemma {:induction false} JoinEmptyAppend(vs: seq<Value>, v: Value)
    ensures Join(vs + [v], "") == Join(vs, "") + ElemText(v)
    decreases |vs|
  {
    if |vs| == 0 {
      assert vs + [v] == [v];
    } else if |vs| == 1 {
      assert (vs + [v])[1..] == [v];
    } else {
      assert (vs + [v])[1..] == vs[1..] + [v];
      JoinEmptyAppend(vs[1..], v);
    }
  }

  /** What a fragment contributes to the html page: its view's text, or
      nothing when its name or its view is falsy. */
  function Shown(f: Fragment): string {
    if Truthy(f.name) && Truthy(f.view) then ElemText(f.view) else ""
  }

  /** The html page made of a queue: each fragment's contribution, in queue
      order. */
  function Page(q: seq<Fragment>): string {
    if |q| == 0 then "" else Page(q[..|q| - 1]) + Shown(q[|q| - 1])
  }

  /** The html `join` of a queue is its page: flatten, then join with `''`,
      concatenates the fragments' contributions in order. */
  lemma {:induction false} JoinIsPage(q: seq<Fragment>)
    ensures Join(Flatten(q), "") == Page(q)
    decreases |q|
  {
    if |q| > 0 {
      var init := q[..|q| - 1];
      JoinIsPage(init);
      assert Flatten(q) == Flatten(init) + [Flat(q[|q| - 1])];
      JoinEmptyAppend(Flatten(init), Flat(q[|q| - 1]));
      assert ElemText(Flat(q[|q| - 1])) == Shown(q[|q| - 1]);
    }
  }

  /** Queueing one more fragment adds its contribution at the end of the
      page and changes nothing before it. */
  lemma PageAppend(q: seq<Fragment>, f: Fragment)
    ensures Page(q + [f]) == Page(q) + Shown(f)
  {
    assert (q + [f])[..|q|] == q;
  }

  /** A page of fragments whose views are all strings and whose names are all
      truthy is the concatenation of the views. */
  lemma {:induction false} PageOfStrings(q: seq<Fragment>)
    requires forall i :: 0 <= i < |q| ==> q[i].view.Str? && Truthy(q[i].name)
    ensures Page(q) == Concat(q)
    decreases |q|
  {
    if |q| > 0 {
      PageOfStrings(q[..|q| - 1]);
    }
  }

  /** The views of a queue of string views, back to back. */
  function Concat(q: seq<Fragment>): string
    requires forall i :: 0 <= i < |q| ==> q[i].view.Str?
  {
    if |q| == 0 then "" else Concat(q[..|q| - 1]) + q[|q| - 1].view.s
  }
}
