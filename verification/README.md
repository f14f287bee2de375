# bootstrap-pagelet, modelled in Dafny

The bootstrap pagelet is the head pagelet of a BigPipe page. It holds the
response-wide queue of rendered fragments. It switches the response from
`text/html` to `application/json` the first time an object is queued. In html
mode, `reduce` folds the queue into a single page: each child's view goes into
its parent's view, placed right after the tag that carries the child's
`data-pagelet` attribute. `join` turns the queue into what gets written. The
constructor also picks a fallback for browsers without JavaScript.

This project models that core:

- `jsstring.dfy` (`JsString`): the parts of JavaScript's `indexOf` and
  `replace` that the pagelet relies on. This includes the `$` patterns of a
  replacement string (GetSubstitution, section 22.1.3.19.1 of ECMA-262).
- `fragments.dfy` (`Fragments`): JavaScript values, truthiness, `typeof`,
  fragments, the `flatten` step and `Array.prototype.join`.
- `markers.dfy` (`Markers`): the locate loop of `reduce`. `Locate` is a
  `while` loop proved against the function `Mark`, and `LocateChild` runs it
  for the three attribute spellings.
- `markfacts.dfy` (`MarkFacts`): what `Mark` does, stated without the loop.
  - The token goes in after exactly a characterised set of `>` characters.
  - Nothing else changes.
  - Filling the tokens gives the view with the child's text in their place.
  - Erasing the tokens gives back the view.
  - The one marker the loop passes over is exhibited.
- `containment.dfy` (`Containment`): which texts survive the two passes.
- `tree.dfy` (`PageletTree`): the tree of fragments and the two walks of
  `reduce`. The pre-order locate walk and the post-order fill walk are methods
  proved against the functions `Located` and `Filled`.
- `fallback.dfy` (`Fallback`): the `noscript` / `script` fallback the
  constructor chooses.
- `bootstrap.dfy` (`Bootstrap`): the class `BootstrapPagelet`.
  - Its fields are the queue, the expected count, the content type, the
    header calls, the one-shot listener, the emitted errors, `child` and the
    fallback.
  - Its methods are `queue`, `contentTypeHeader`, the `once` wiring, `join`,
    `reduce`, the `child` setter and the constructor.
- `example.dfy` (`Example`): `reduce` worked through on one page with one
  child.

Behaviour of `index.js` that the model keeps:

- The switch to JSON is triggered by data whose `typeof` is `"object"`:
  objects, arrays and `null`. Strings, numbers, booleans and `undefined`
  leave the mode alone.
- In json mode `join` stringifies the first flattened fragment alone.
- Each `queue` call subtracts exactly one from `length`.
- When the headers are already sent, the content type is left as it was. The
  one-shot listener is still used up.

## Model

| member | source | states |
|---|---|---|
| Bootstrap.BootstrapPagelet.Queue | index.js:165-181 | One fewer pagelet expected. The fragment `{parent, name, view}` is appended to the queue. The switch to JSON is requested exactly when `typeof data` is "object" and the type is not yet JSON. The class invariant `Valid` holds: the header is set at most once, only by the listener, and agrees with `contentType`. `JsonOnly` holds too: the only header ever set is JSON. |
| Bootstrap.BootstrapPagelet.ContentTypeHeader | index.js:147-154 | With the headers unsent, the content type becomes the mapped media type and `setHeader` is called once with it. With the headers sent, nothing changes. It is entered only as the detached one-shot listener, before any header, and it keeps `Valid`. |
| Bootstrap.BootstrapPagelet.EmitContentType | index.js:341 | Emitting `contentType` runs the listener only if it is still attached, and detaches it. A second emit changes neither the type nor the headers. It keeps `Valid`. |
| Bootstrap.BootstrapPagelet.Join | index.js:190-207 | In html mode the result is the flattened queue joined with `''`, and the queue is emptied. In json mode the first flattened value (`undefined` if none) is stringified. On success the queue is emptied and the text returned. On a throw the error is emitted with `done`, nothing is returned and the queue is kept. `Valid` and `JsonOnly` hold afterwards exactly when they held before. |
| Bootstrap.BootstrapPagelet.Reduce | index.js:246-306 | Outside html mode the queue is untouched. In html mode the queue becomes the single fragment `{name, view}` of the root after the locate walk and then the fill walk. `Valid` and `JsonOnly` hold afterwards exactly when they held before. |
| Bootstrap.BootstrapPagelet.SetChild | index.js:96-99 | Only a string is stored in `child`. Any other value leaves it unchanged. `Valid` and `JsonOnly` hold afterwards exactly when they held before. |
| Bootstrap.BootstrapPagelet.constructor | index.js:333-353 | Empty queue. `length` is the option. `child` is the option, or `'root'` when the option is falsy, and is left unset when the option is a truthy non-string. The listener is attached. The fallback is `FallbackFor` of the mode, path and query. |
| Bootstrap.CollapsedPage | index.js:300-303 | For a root with a non-empty name, the html page written by `join` after `reduce` is exactly the root's reduced view. (A root without a name is flattened to `''`.) |
| Bootstrap.Collapsed | index.js:300-303 | The body is the definition: the fragment `{name, view}` of the root, with no parent. |
| Fragments.Flatten | index.js:192-195 | One value per fragment, in order: the view, or `''` when the name or the view is falsy. |
| Fragments.Flat | index.js:193-194 | The body is the definition: `''` when the name or the view is falsy, else the view. |
| Fragments.Join | index.js:200 | The body is the definition of `Array.prototype.join`: element texts separated by `sep`. `undefined` and `null` give nothing, and an array joins its items with `,`. |
| Fragments.ElemText | index.js:200 | The body is the definition of how `join` turns one element into text: `''` for `undefined` and `null`, `true`/`false`, the number's digits, the string itself, an array's items joined with `,`, and `[object Object]`. |
| Fragments.TypeOf | index.js:171 | The body is the definition of `typeof`, one case per kind of value. |
| Fragments.Truthy | index.js:193 | The body is the definition of ToBoolean: `undefined`, `null`, `false`, `0` and `''` are falsy. |
| Fragments.JoinIsPage | index.js:192-200 | Flatten and then join with `''` gives the fragments' contributions concatenated in queue order. |
| Fragments.JoinEmptyAppend | index.js:200 | Joining with `''` one more value appends that value's text. |
| Fragments.PageAppend | index.js:175-179 | Queueing one more fragment adds its contribution at the end of the page and changes nothing before it. |
| Fragments.PageOfStrings | index.js:190-200 | A queue of truthy names with string views joins to the views back to back. |
| Fragments.TypeOfObject | index.js:171 | `typeof` is "object" exactly for `null`, arrays and objects. |
| Markers.Spellings | index.js:251-255 | Three spellings, each starting with `data-pagelet=` followed by the name. |
| Markers.Token | index.js:257 | The token `{id-name}` is five characters longer than the name and is wrapped in braces. |
| Markers.Locate | index.js:256-275 | The while loop over one spelling computes `Mark`: after the first `>` following each marker it meets, the token goes in. The search resumes one character past the token. A marker with no `>` after it ends all change. |
| Markers.Mark | index.js:256-275 | The body is the definition of what the loop computes. Find the first marker. With no `>` after it, nothing changes. Otherwise the token goes right after that `>`, the next character is passed over, and `Mark` carries on behind it. |
| Markers.LocateChild | index.js:251-276 | The loop runs once per spelling, in the listed order, each run on the view the previous one left. The result is `MarkChild`. |
| Markers.MarkChild | index.js:251-276 | The body is the definition: the locate pass for the first spelling, then the second, then the third, each on the view the previous one left, with the child's token. |
| Markers.InsertAt | index.js:270 | `slice(0, end) + id + slice(end)` as a character-by-character insertion. |
| Markers.InsertIs | index.js:270 | Helper: that insertion equals the slice form. |
| Markers.LoopMarks | index.js:256-275 | The loop's rounds, started at the first marker, give `Mark`. |
| Markers.LoopFrom | index.js:265-275 | Rounds that start behind a finished prefix rewrite only the untouched rest, as `Mark` does. |
| Markers.LoopStuck | index.js:266-274 | Once a marker has no `>` after it, no later round changes the view. |
| Markers.LoopRound | index.js:266-274 | One round that finds a `>` inserts the token there and continues one character past it. |
| Markers.MarkUnfold | index.js:266-274 | Helper: the one-step unfolding of `Mark` at a found marker and `>`: the text up to the `>`, the token, the passed-over character, then `Mark` of the rest. |
| MarkFacts.MarkIsSplice | index.js:256-275 | The locate pass inserts the token after exactly the `>` positions in `Tags` and changes nothing else. |
| MarkFacts.TagsRange | index.js:266-270 | Every tag is the position of a `>` in the view. |
| MarkFacts.TagsSound | index.js:265-270 | Every tag is the first `>` at or after some marker. |
| MarkFacts.TagsComplete | index.js:265-274 | Every marker with a `>` after it has that `>` tagged, unless it starts on the character passed over after a token. |
| MarkFacts.MarkUnchanged | index.js:265-275 | The pass leaves a view as it is if and only if the token is empty or no marker has a `>` after it. |
| MarkFacts.MarkSkipsAdjacent | index.js:271-274 | For a non-empty spelling without `>`, in `attr>attr>` the second marker has a `>` after it and still gets no token, because the search restarts one character past the inserted token. |
| MarkFacts.FillMark | index.js:285-292 | Take a non-empty spelling, a non-empty token without `>`, and a parent view that does not already hold the token. After the locate pass, replacing every token literally by a view gives the locate pass with that view in place of the token. |
| MarkFacts.MarkPrefixBack | index.js:270 | A prefix of the marked view that holds no `>` is a prefix of the original view, because the token only goes in after a `>`. |
| MarkFacts.EraseChild | index.js:251-276 | For a child name without `>` and a view that does not already hold the child's token, replacing the token by `''` after the three passes gives back the view. |
| MarkFacts.SubstituteSplit | index.js:287-290 | A global replace of a pattern without `>` splits at a `>`: no occurrence straddles it. |
| MarkFacts.EraseMark | index.js:270 | The locate pass adds nothing but tokens. |
| MarkFacts.SpliceAppend | index.js:270 | Helper (generic fact about `Splice`): splicing distributes over concatenation. |
| MarkFacts.SpliceLonger | index.js:270 | Helper (generic fact about `Splice`): splicing never shortens a view. |
| MarkFacts.SpliceEmpty | index.js:270 | Helper (generic fact about `Splice`): splicing the empty token changes nothing. |
| Containment.MarkKeeps | index.js:266-271 | The locate pass keeps every occurrence of a text without `>`. |
| Containment.MarkPrefix | index.js:266-270 | The locate pass leaves the view alone up to its first `>`. |
| Containment.MarkInserts | index.js:265-271 | When the first marker has a `>` after it, the token ends up in the view. |
| Containment.MarkAbsent | index.js:256-265 | Helper: with no marker in the view, the pass changes nothing. |
| Containment.MarkChars | index.js:270 | The pass brings in no character that neither the view nor the token holds. |
| Containment.SubstituteShows | index.js:287-290 | When the token occurs in the text, the view appears somewhere in the result of replacing every token by the view. |
| Containment.SubstituteChars | index.js:287-290 | Replacing brings in no character that neither the text nor the replacement holds. |
| Containment.ChildTokenPresent | index.js:251-276 | A child whose name holds no `>` and whose first occurring spelling has a `>` after it gets its token into the parent's view. |
| Containment.ContainsTrans | index.js:285-292 | Helper (generic fact about strings): occurring in is transitive, which carries a grandchild's view up the tree. |
| PageletTree.LocateTree | index.js:250-277 | The pre-order walk locates each child whose `parent` names its parent, in child order, and recurses. The result is `Located`. |
| PageletTree.Located | index.js:250-277 | The body is the definition: each node's view gets the three passes for each child whose `parent` is its name, in child order, and every child is located in turn. |
| PageletTree.LocateKids | index.js:251-276 | The body is the definition of the locate step for one parent: for each child in order whose `parent` is the parent's name, the three passes with that child's name. |
| PageletTree.Filled | index.js:285-292 | The body is the definition: children are filled first, then each matching child's token in the view is replaced by that child's filled view, in child order. |
| PageletTree.FillKids | index.js:286-290 | The body is the definition of the fill step for one parent: for each child in order whose `parent` is the parent's name, every copy of its token in the view is replaced by its finished view. |
| PageletTree.Reduced | index.js:250-292 | The body is the definition: the fill walk after the locate walk. |
| PageletTree.FillTree | index.js:285-292 | The post-order walk finishes the children first, then replaces each child's token in the parent's view by the child's finished view. The result is `Filled`. |
| PageletTree.ReducedSkeleton | index.js:246-303 | Reducing changes views only: names, parents, the order of children and the root name stay. |
| PageletTree.LocatedSkeleton | index.js:250-277 | The locate walk keeps the tree's shape. |
| PageletTree.FilledSkeleton | index.js:285-292 | The fill walk keeps the tree's shape. |
| PageletTree.OnlyChild | index.js:250-292 | For a root with one matching child, the root's reduced view is its located view with the child's token replaced by the child's reduced view. |
| PageletTree.ReducedLeaf | index.js:285-292 | A node without children is its own reduction. |
| PageletTree.Nesting | index.js:279-292 | For root, middle and leaf, the leaf's view ends up in the middle's reduced view, which ends up in the root's. |
| PageletTree.MarkChildChars | index.js:251-276 | The three passes bring in no new character besides the token's. |
| Fallback.FallbackRefresh | index.js:347-353 | Outside `sync` mode, for a path holding neither `{` nor `$` and a query holding no `$`, the fallback is the `noscript` meta refresh to the path, then `?`, then the query. |
| Fallback.FallbackFor | index.js:347-353 | The body is the definition: the script when the mode is the string `sync`, else the template with its first `{path}` replaced by the path (or `http://localhost/`) and then its first `{query}` replaced by the query. |
| Fallback.PathText | index.js:349 | The body is the definition of `uri.pathname \|\| 'http://localhost/'`: the path's text when it is truthy, else `http://localhost/`. |
| Fallback.FallbackSync | index.js:347 | In `sync` mode the fallback is the script. |
| Fallback.FallbackDefaultPath | index.js:349 | A falsy path becomes `http://localhost/`. |
| JsString.IndexOf | index.js:256 | An empty pattern is found at the start, clamped to the length. Otherwise the result is -1 or an index where the pattern fits. |
| JsString.IndexOfChar | index.js:266 | The result is -1 or an index at or after `from` that holds the character. |
| JsString.ReplaceFirst | index.js:347-353 | The body is the definition of `replace` with a string pattern: only the first occurrence is replaced, by the expansion of the replacement string. |
| JsString.ReplaceAll | index.js:287-290 | The body is the definition of `replace` with a global pattern: occurrences are scanned left to right without overlap, and each is replaced by the expansion of the replacement string. |
| JsString.IndexOfFirst | index.js:256 | `indexOf` returns the first occurrence at or after `from`, and -1 means there is none. |
| JsString.IndexOfCharFirst | index.js:266 | The one-character search returns the first `>` at or after `from`. |
| JsString.IndexOfCharIsIndexOf | index.js:266 | The one-character search is `indexOf` with a one-character pattern. |
| JsString.ReplaceAllLiteral | index.js:287-290 | A global replace with no `$` in the replacement is the literal substitution. |
| JsString.ReplaceAllAbsent | index.js:287-290 | A global replace of a pattern that does not occur changes nothing. |
| JsString.ReplaceFirstAt | index.js:347-353 | `replace` with a string pattern substitutes the first occurrence only. |
| JsString.Expand | index.js:287-290 | A replacement string with no `$` is inserted as it is. |
| Example.PageExample | index.js:246-303 | `<h1>T<div data-pagelet="c"></div></h1>` with child `c` viewing `CHILD` reduces to `<h1>T<div data-pagelet="c">CHILD</div></h1>`. |

## Left out

- `render` and the `keys` list: the template engine and the framework are collaborators outside the core.
- `flush`: writing bytes to the response, `Buffer` and charset encoding, and the write-callback test are I/O.
- Building the tree (`new Sapling(queue, 'name', 'parent')`) and the walk order of `t.dfs`: `Reduce` takes the tree as an input. The tree is a `Node` value whose children are in walk order.
- The `parent` argument of the `t.dfs` callback: a parent is compared by name. An empty string stands for an absent name.
- In-place mutation of `parent.view` on Sapling nodes: the walks build new `Node` values, so aliasing between tree nodes is not modelled.
- `JSON.stringify`: taken as a function parameter of `Join` that returns a value or throws.
- `qs.stringify(this.merge({ no_pagelet_js: 1 }, query))`: the query text is a parameter of the constructor.
- `this._bigpipe._compiler.page(this).concat(...)`: dependency handling is outside the core.
- `debug` output: it only logs.
- The event emitter apart from the one-shot `contentType` listener: emitting `done` is recorded as an error appended to `errors`.
- The base `Pagelet` constructor and its `contentType` / `_contentType` accessor pair: the model has one field, `contentType`.
- `setHeader` is recorded as the sequence `headers`. `headersSent` is a field owned by the response.
- Fallback.FallbackRefresh: stated for a path with no `{` or `$` and a query with no `$`. For other inputs `FallbackFor` applies the `$` expansion of `replace` (a path `/$&` gives back `/{path}`), which `JsString.ReplaceFirst` models but no lemma describes in closed form.
- Floating-point numbers, `NaN` and number-to-string formatting beyond integers: `Value` has integer numbers only.
- Regular-expression metacharacters in a child's name: `ReplaceAll` treats the token `{id-name}` as literal text, as the `RegExp` does for names made of letters, digits, `-` and `_`.
- Bootstrap.BootstrapPagelet.constructor: `options.length || 0` is taken as an already-numeric `expected` argument, so a non-numeric length is not modelled.
- Bootstrap.BootstrapPagelet.ContentTypeHeader: requires the key to be `html` or `json`; an unknown key would store `undefined`. It also requires the state in which the one-shot listener calls it: `Valid`, the listener already detached, and no header set yet. The only caller is that listener, and it passes `json`.
- MarkFacts.FillMark: requires a token without `>` and a view that does not already hold it; is stated for one spelling and for the literal replacement (`JsString.ReplaceAllLiteral` gives it for a child view free of `$`). With `$` in a child view, the fill expands `$$`, `$&`, `` $` `` and `$'`. `JsString.ReplaceAll` models that expansion, but no lemma describes the result.
- MarkFacts.EraseChild: requires a name without `>` and a view that does not already hold the token (the view `{id-c}` erases to `""`); stated for all three spellings, and only for erasing (replacing by `''`), not for a general child view.
- PageletTree.Nesting: stated for a root with exactly one child whose `parent` is the root's name, that child (mid) having exactly one childless child (leaf) whose `parent` is mid's name. It requires that neither mid's nor leaf's name holds `>`; that mid is `Locatable` in the root's view and leaf in mid's view, where `Locatable` means the first of the three spellings, in their listed order, that occurs in the view at all has a `>` after it (so `<a data-pagelet="c">x data-pagelet='c'` does not qualify for `c`); and that no `$` is in mid's view, leaf's view or leaf's name.
- PageletTree.Node and Bootstrap.BootstrapPagelet.Reduce: a node's name, parent and view are strings, while the queue holds values. Three consequences of `reduce` on non-string values are therefore not modelled:
  - A child whose view is `undefined` or `null` puts the text `undefined` or `null` into its parent, because `replace` converts the replacement with ToString.
  - A parent whose view is not a string makes `parent.view.indexOf` throw a TypeError.
  - A child with an undefined name is searched as `data-pagelet='undefined'` with the token `{id-undefined}`. The model writes such a name as `""`, whose unquoted spelling `data-pagelet=` matches every marker.
