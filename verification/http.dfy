/** The abstract HTTP and JSON values the views client works over: the
    request it builds, the response it reads, and the generic JSON tree
    its parser produces. The transport and the parser themselves are not
    modelled; they are supplied to the client as functions. */
module Http {
  import opened Wrappers

  /** A cookie as received from and replayed to the server. */
  datatype Cookie = Cookie(name: string, value: string)

  /** The session: cookie name to cookie. */
  type CookieJar = map<string, Cookie>

  datatype QueryParam = QueryParam(key: string, value: string)

  /** A request URI: the server base, a path below it and the query
      parameters in the order they were added. */
  datatype Uri = Uri(base: string, path: string, query: seq<QueryParam>)

  /** A GET request and the cookies attached to it. */
  datatype Request = Request(uri: Uri, cookies: set<Cookie>)

  /** A response: status code, the cookies it set (`None` for a null cookie
      map) and the body text. */
  datatype Response = Response(status: int, cookies: Option<CookieJar>, body: string)

  /** `key=value` pairs joined by `&`. */
  function RenderQuery(q: seq<QueryParam>): string {
    if |q| == 0 then ""
    else if |q| == 1 then q[0].key + "=" + q[0].value
    else q[0].key + "=" + q[0].value + "&" + RenderQuery(q[1..])
  }

  /** The URI as text: base, a slash, the path, then the query if any. */
  function RenderUri(u: Uri): string {
    u.base + "/" + u.path + (if |u.query| == 0 then "" else "?" + RenderQuery(u.query))
  }

  /** The value of the first query parameter called `key`. */
  function QueryValue(q: seq<QueryParam>, key: string): (r: Option<string>)
    ensures r.Some? <==> exists k :: 0 <= k < |q| && q[k].key == key
    ensures r.Some? ==> exists k :: 0 <= k < |q| && q[k] == QueryParam(key, r.value)
  {
    if |q| == 0 then None
    else if q[0].key == key then Some(q[0].value)
    else
      var r := QueryValue(q[1..], key);
      assert forall k :: 1 <= k < |q| ==> q[k] == q[1..][k - 1];
      r
  }

  /** `t` occurs in `s` starting at `i`. */
  predicate OccursAt(s: string, t: string, i: int) {
    0 <= i <= |s| - |t| && s[i..i + |t|] == t
  }

  /** `t` occurs somewhere in `s`. */
  ghost predicate Contains(s: string, t: string) {
    exists i :: OccursAt(s, t, i)
  }

  /** `t` at the front of a text occurs in it. */
  lemma {:induction false} ContainsFront(t: string, post: string)
    ensures Contains(t + post, t)
  {
    assert (t + post)[0..|t|] == t;
    assert OccursAt(t + post, t, 0);
  }

  /** Putting text in front keeps an occurrence. */
  lemma {:induction false} ContainsAfter(pre: string, s: string, t: string)
    requires Contains(s, t)
    ensures Contains(pre + s, t)
  {
    var i :| OccursAt(s, t, i);
    assert (pre + s)[|pre| + i..|pre| + i + |t|] == s[i..i + |t|];
    assert OccursAt(pre + s, t, |pre| + i);
  }

  /** `s` ends with `t`. */
  predicate EndsWith(s: string, t: string) {
    |t| <= |s| && s[|s| - |t|..] == t
  }

  /** Putting text in front keeps the ending. */
  lemma {:induction false} EndsWithAfter(pre: string, s: string, t: string)
    requires EndsWith(s, t)
    ensures EndsWith(pre + s, t)
  {
    assert (pre + s)[|pre + s| - |t|..] == s[|s| - |t|..];
  }

  /** A generic JSON tree. Numbers are simplified to integers: no number in a
      payload is interpreted by this model. */
  datatype Json =
    | JNull
    | JBool(b: bool)
    | JNumber(n: int)
    | JString(str: string)
    | JArray(items: seq<Json>)
    | JObject(members: map<string, Json>)

  /** `JSONObject.get`: the member's value, or null when the key is missing. */
  function Get(members: map<string, Json>, key: string): Json {
    if key in members then members[key] else JNull
  }
}
