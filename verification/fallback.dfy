/** The fallback markup the constructor picks: in `sync` mode a script that
    drops a `no_pagelet_js=1` query flag, otherwise a `noscript` meta
    refresh to the same path with that flag added to the query. */
module Fallback {
  import opened JsString
  import opened Fragments

  /** The meta-refresh template, with `{path}` and `{query}` to fill in:
      `<noscript><meta http-equiv="refresh" content="0; URL={path}?{query}"></noscript>`. */
  const Noscript: string := Head + "{path}" + "?" + "{query}" + Tail

  /** The template up to `{path}`. */
  const Head: string := "<noscript>" + "<meta http-equiv=" + "\"refresh\" content=" + "\"0; URL="

  /** The template after `{query}`. */
  const Tail: string := "\">" + "</noscript>"

  /** The script that leaves forced `sync` mode when JavaScript runs. */
  const Script: string :=
    "<script>"
    + "if (~location.search.indexOf(\"no_pagelet_js=1\"))"
    + "location.href = location.href.replace(location.search, \"\")"
    + "</script>"

  /** The path used when the request has none. */
  const DefaultPath: string := "http://localhost/"

  /** The text `uri.pathname || 'http://localhost/'` puts in place of
      `{path}`. */
  function PathText(pathname: Value): string {
    if Truthy(pathname) then ElemText(pathname) else DefaultPath
  }

  /** The constructor's choice: the script when the mode is exactly the
      string `sync`, else the template with its first `{path}` and then its
      first `{query}` replaced (as `String.prototype.replace` does, `$`
      patterns included). `query` is the already-serialised query string. */
  function FallbackFor(mode: Value, pathname: Value, query: string): string {
    if mode == Str("sync") then Script
    else ReplaceFirst(ReplaceFirst(Noscript, "{path}", PathText(pathname)), "{query}", query)
  }

  /** Outside `sync` mode the fallback is the meta refresh to the path,
      with the query after a `?`, when neither holds a `$` and the path holds
      no `{`. */
  lemma FallbackRefresh(mode: Value, pathname: Value, query: string)
    requires mode != Str("sync")
    requires '{' !in PathText(pathname) && '$' !in PathText(pathname) && '$' !in query
    ensures FallbackFor(mode, pathname, query) == Head + PathText(pathname) + "?" + query + Tail
  {
    var p := PathText(pathname);
    ReplacePath(p);
    HeadLacksBrace();
    assert '{' !in Head + p + "?";
    ReplaceQuery(Head + p + "?", query);
  }

  /** The first replace puts the path in place of `{path}`. */
  lemma ReplacePath(p: string)
    requires '$' !in p
    ensures ReplaceFirst(Noscript, "{path}", p) == (Head + p + "?") + "{query}" + Tail
  {
    assert Noscript == Head + "{path}" + ("?" + "{query}" + Tail);
    HeadLacksBrace();
    NoEarlyMatch(Head, "{path}", "?" + "{query}" + Tail);
    ReplaceFirstAt(Head, "{path}", "?" + "{query}" + Tail, p);
  }

  /** The second replace puts the query in place of the first `{query}`. */
  lemma ReplaceQuery(x: string, q: string)
    requires '{' !in x && '$' !in q
    ensures ReplaceFirst(x + "{query}" + Tail, "{query}", q) == x + q + Tail
  {
    NoEarlyMatch(x, "{query}", Tail);
    ReplaceFirstAt(x, "{query}", Tail, q);
  }

  lemma HeadLacksBrace()
    ensures '{' !in Head
  {
  }

  /** In `sync` mode the fallback is the script, whatever the path. */
  lemma FallbackSync(pathname: Value, query: string)
    ensures FallbackFor(Str("sync"), pathname, query) == Script
  {
  }

  /** A missing path falls back to the local root. */
  lemma FallbackDefaultPath(mode: Value, query: string)
    requires mode != Str("sync") && '$' !in query
    ensures FallbackFor(mode, Undefined, query) == Head + DefaultPath + "?" + query + Tail
    ensures FallbackFor(mode, Str(""), query) == FallbackFor(mode, Null, query)
  {
    FallbackRefresh(mode, Undefined, query);
  }

  /** A pattern starting with a character that `a` lacks is not found inside
      `a`. */
  lemma NoEarlyMatch(a: string, pat: string, b: string)
    requires |pat| > 0 && pat[0] !in a
    ensures forall i :: 0 <= i < |a| ==> !OccursAt(a + pat + b, pat, i)
  {
    var s := a + pat + b;
    forall i | 0 <= i < |a|
      ensures !OccursAt(s, pat, i)
    {
      assert s[i] == a[i];
      assert a[i] != pat[0];
    }
  }
}
