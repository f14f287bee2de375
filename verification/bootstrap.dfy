/** The bootstrap pagelet's own state and the operations that change it:
    queueing fragments, the one-shot switch of the response to JSON, joining
    the queue into what gets written, reducing the queue to the root
    fragment, and the `child` property. */
module Bootstrap {
  import opened Fragments
  import opened PageletTree
  import opened Fallback

  const Html: string := "text/html"
  const Json: string := "application/json"

  /** The `contentTypes` map. */
  const ContentTypes: map<string, string> := map["html" := Html, "json" := Json]

  /** What `JSON.stringify` did with a value: it returned one, or it threw. */
  datatype Stringified = Returned(value: Value) | Threw(error: Value)

  datatype Option<T> = None | Some(value: T)

  /** The fragment `reduce` leaves in the queue: the root's name and view,
      with no parent. */
  function Collapsed(root: Node): Fragment {
    Fragment(Undefined, Str(root.name), Str(root.view))
  }

  /** After `reduce`, the html page is the root's view, when the root has a
      name. */
  lemma CollapsedPage(root: Node)
    requires |root.name| > 0
    ensures Page([Collapsed(root)]) == root.view
  {
    assert [Collapsed(root)][..0] == [];
  }

  class BootstrapPagelet {
    /** Fragments waiting to be written. */
    var queue: seq<Fragment>
    /** Number of pagelets still expected; counts down as they queue. */
    var length: int
    /** The media type of the response. */
    var contentType: string
    /** Whether the response's headers have gone out (owned by the
        response; read here). */
    var headersSent: bool
    /** The values passed to `setHeader('Content-Type', ...)`, in order. */
    var headers: seq<string>
    /** Whether the one-shot `contentType` listener is still attached. */
    var listening: bool
    /** The errors emitted with `done`, in order. */
    var errors: seq<Value>
    /** The backing value of the `child` property. */
    var child: Value
    /** The fallback markup chosen at construction. */
    var fallback: string

    /** The content-type header is set at most once, only by the listener,
        which is gone once it has run, and it agrees with `contentType`. */
    predicate Valid()
      reads this
    {
      && |headers| <= 1
      && (listening ==> headers == [])
      && (|headers| == 1 ==> headers[0] == contentType)
    }

    /** The only header ever set is JSON, as `queue` is the only emitter. */
    predicate JsonOnly()
      reads this
    {
      headers == [] || headers == [Json]
    }

    /** The constructor: an empty queue, the expected count (`0` when none is
        given), `child` from the options or `root`, the `contentType`
        listener attached once, and the fallback markup for the mode. */
    constructor (expected: int, childOption: Value, mode: Value, pathname: Value, query: string,
                 contentType: string, headersSent: bool)
      ensures Valid() && JsonOnly()
      ensures queue == [] && length == expected && listening && headers == [] && errors == []
      ensures child == (if !Truthy(childOption) then Str("root") else if childOption.Str? then childOption else Undefined)
      ensures fallback == FallbackFor(mode, pathname, query)
      ensures this.contentType == contentType && this.headersSent == headersSent
    {
      queue := [];
      length := expected;
      this.contentType := contentType;
      this.headersSent := headersSent;
      headers := [];
      listening := true;
      errors := [];
      child := Undefined;
      fallback := FallbackFor(mode, pathname, query);
      new;
      SetChild(if Truthy(childOption) then childOption else Str("root"));
    }

    /** The `child` setter: only a string is taken, anything else is
        ignored. */
    method SetChild(value: Value)
      modifies this
      ensures child == (if value.Str? then value else old(child))
      ensures queue == old(queue) && length == old(length) && contentType == old(contentType)
      ensures headersSent == old(headersSent) && headers == old(headers) && listening == old(listening)
      ensures errors == old(errors) && fallback == old(fallback)
      ensures Valid() == old(Valid()) && JsonOnly() == old(JsonOnly())
    {
      if value.Str? {
        child := value;
      }
    }

    /** The `contentType` listener: when the headers are still unsent, the
        content type becomes the one named and the header is set to it;
        otherwise nothing changes. */
    method ContentTypeHeader(key: string)
      requires key in ContentTypes
      requires Valid() && !listening && headers == []
      modifies this
      ensures Valid()
      ensures headersSent ==> contentType == old(contentType) && headers == old(headers)
      ensures !headersSent ==> contentType == ContentTypes[key] && headers == old(headers) + [ContentTypes[key]]
      ensures queue == old(queue) && length == old(length) && headersSent == old(headersSent)
      ensures listening == old(listening) && errors == old(errors) && child == old(child)
      ensures fallback == old(fallback)
    {
      if !headersSent {
        contentType := ContentTypes[key];
        headers := headers + [contentType];
      }
    }

    /** Emitting `contentType`: the listener runs if it is still attached,
        and is detached as it runs. */
    method EmitContentType(key: string)
      requires key in ContentTypes
      requires Valid()
      modifies this
      ensures Valid()
      ensures !listening
      ensures old(listening) && !headersSent ==> contentType == ContentTypes[key] && headers == old(headers) + [ContentTypes[key]]
      ensures !(old(listening) && !headersSent) ==> contentType == old(contentType) && headers == old(headers)
      ensures queue == old(queue) && length == old(length) && headersSent == old(headersSent)
      ensures errors == old(errors) && child == old(child) && fallback == old(fallback)
    {
      if listening {
        listening := false;
        ContentTypeHeader(key);
      }
    }

    /** Queueing a fragment: one fewer pagelet expected, the fragment appended
        to the queue, and, for data whose `typeof` is "object" while the type
        is not yet JSON, the switch to JSON requested. */
    method Queue(name: Value, parent: Value, data: Value)
      requires Valid() && JsonOnly()
      modifies this
      ensures Valid() && JsonOnly()
      ensures queue == old(queue) + [Fragment(parent, name, data)]
      ensures length == old(length) - 1
      ensures var asks := TypeOf(data) == "object" && old(contentType) != Json;
        && listening == (old(listening) && !asks)
        && (asks && old(listening) && !headersSent ==> contentType == Json && headers == [Json])
        && (!(asks && old(listening) && !headersSent) ==> contentType == old(contentType) && headers == old(headers))
      ensures headersSent == old(headersSent) && errors == old(errors) && child == old(child)
      ensures fallback == old(fallback)
    {
      length := length - 1;
      if TypeOf(data) == "object" && contentType != Json {
        EmitContentType("json");
      }
      queue := queue + [Fragment(parent, name, data)];
    }

    /** Joining the queue. In html mode the flattened fragments are joined
        into one string and the queue is emptied. In json mode the first
        flattened fragment (`undefined` when there is none) is stringified:
        on success the queue is emptied and the text returned; when
        stringify throws, the error is emitted with `done`, nothing is
        returned and the queue stays as it was. */
    method Join(stringify: Value -> Stringified) returns (r: Option<Value>)
      modifies this
      ensures var flat := Flatten(old(queue));
        var first := if |flat| == 0 then Undefined else flat[0];
        if contentType != Json then
          r == Some(Str(Fragments.Join(flat, ""))) && queue == [] && errors == old(errors)
        else match stringify(first)
          case Returned(v) => r == Some(v) && queue == [] && errors == old(errors)
          case Threw(e) => r == None && queue == old(queue) && errors == old(errors) + [e]
      ensures length == old(length) && contentType == old(contentType) && headersSent == old(headersSent)
      ensures headers == old(headers) && listening == old(listening) && child == old(child)
      ensures fallback == old(fallback)
      ensures Valid() == old(Valid()) && JsonOnly() == old(JsonOnly())
    {
      var flat := Flatten(queue);
      var text: Value;
      if contentType == Json {
        var first := if |flat| == 0 then Undefined else flat[0];
        var outcome := stringify(first);
        if outcome.Threw? {
          errors := errors + [outcome.error];
          return None;
        }
        text := outcome.value;
      } else {
        text := Str(Fragments.Join(flat, ""));
      }
      queue := [];
      r := Some(text);
    }

    /** Reducing the queue to one fragment: outside html mode nothing
        happens; in html mode every child is located in its parent's view,
        every token is filled with the child's finished view, and the queue
        becomes the root's fragment alone. `tree` is the queue arranged by
        name and parent. */
    method Reduce(tree: Node)
      modifies this
      ensures contentType != Html ==> queue == old(queue)
      ensures contentType == Html ==> queue == [Collapsed(Reduced(tree))]
      ensures length == old(length) && contentType == old(contentType) && headersSent == old(headersSent)
      ensures headers == old(headers) && listening == old(listening) && errors == old(errors)
      ensures child == old(child) && fallback == old(fallback)
      ensures Valid() == old(Valid()) && JsonOnly() == old(JsonOnly())
    {
      if contentType != Html {
        return;
      }
      var located := LocateTree(tree);
      var filled := FillTree(located);
      queue := [Collapsed(filled)];
    }
  }
}
