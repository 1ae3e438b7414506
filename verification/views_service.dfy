/** The decision logic of the views service client: session bootstrap,
    listing the issue views, and fetching one page of a view's contents.
    Each call takes the transport as a function from request to response
    and the JSON parser as a function from body text to a parsed value
    (`None` standing for a parse exception), so the model says which
    request is sent and what is made of whatever comes back. */
module ViewsService {
  import opened Wrappers
  import opened Http
  import Decimal

  const ViewsPath: string := "api/views/v1"
  const ViewContentsPath: string := "api/viewContents/issues/v1/"
  const IssuesType: string := "issues"
  const ContentsMember: string := "viewContentsV1"
  const StatusOk: int := 200

  /** One entry of the `views` array, with the three members the client
      reads; each may be absent (null). */
  datatype ViewEntry = ViewEntry(id: Option<int>, name: Option<string>, viewType: Option<string>)

  /** A page of view contents: the `viewContentsV1` payload, uninterpreted. */
  datatype ViewContents = ViewContents(payload: Json)

  /** The errors the client raises to its caller. */
  datatype ServiceError =
    | InitializationFailed
      // the bootstrap request answered with a status other than 200
    | ReadFailed(status: int)
      // the typed read of the view listing met a non-2xx status
    | RemoteCallFailed(message: string)
      // the contents request answered with a status other than 200
    | NullSession
      // the session was never set and is dereferenced

  /** The client state: the base URI (`None` when the configured URL does not
      form a valid URI) and the session cookies (`None` while null). */
  datatype Service = Service(baseUri: Option<string>, session: Option<CookieJar>)

  /** The session is set whenever the base URI is usable. */
  predicate Valid(svc: Service) {
    svc.baseUri.Some? ==> svc.session.Some?
  }

  /** The unauthenticated request to the views listing, used both to open the
      session and to list the views. */
  function ViewsRequest(base: string): Request {
    Request(Uri(base, ViewsPath, []), {})
  }

  // ---------------------------------------------------------------------
  // Session bootstrap

  /** Constructing the client fetches the views listing once: a status other
      than 200 raises; otherwise the session is the response's cookies, or
      the empty map when the response has none. A base URL that is not a
      valid URI is only logged and leaves the session null. */
  function Construct(baseUri: Option<string>, server: Request -> Response): (r: Result<Service, ServiceError>)
    ensures r.Success? ==> r.value.baseUri == baseUri && Valid(r.value)
    ensures baseUri.None? ==> r == Success(Service(None, None))
    ensures baseUri.Some? ==>
      var response := server(ViewsRequest(baseUri.value));
      && (r.Failure? <==> response.status != StatusOk)
      && (r.Failure? ==> r.error == InitializationFailed)
      && (r.Success? ==> response.cookies.Some? ==> r.value.session == response.cookies)
      && (r.Success? ==> response.cookies.None? ==> r.value.session == Some(map[]))
  {
    match baseUri
    case None => Success(Service(None, None))
    case Some(base) =>
      var response := server(ViewsRequest(base));
      if response.status != StatusOk then Failure(InitializationFailed)
      else Success(Service(baseUri, Some(response.cookies.GetOr(map[]))))
  }

  // ---------------------------------------------------------------------
  // Listing views

  /** An entry that becomes a view: type `issues`, with an id and a name. */
  predicate Qualifies(e: ViewEntry) {
    e.viewType == Some(IssuesType) && e.id.Some? && e.name.Some?
  }

  /** The entry at `k` is a qualifying view with id `id`. */
  predicate IssueViewAt(entries: seq<ViewEntry>, k: int, id: int) {
    0 <= k < |entries| && Qualifies(entries[k]) && entries[k].id == Some(id)
  }

  /** `r` lists the issue views of `entries`: its keys are exactly the ids
      of qualifying entries and each maps to the name of the last qualifying
      entry with that id. */
  ghost predicate ListsIssueViews(entries: seq<ViewEntry>, r: map<int, string>) {
    && (forall id :: id in r <==> exists k :: IssueViewAt(entries, k, id))
    && (forall id :: id in r ==>
          exists k :: IssueViewAt(entries, k, id) && r[id] == entries[k].name.value
                      && forall k' :: k < k' < |entries| ==> !IssueViewAt(entries, k', id))
  }

  /** The filter loop of `getViews`: id to name for every qualifying entry, in
      order, so that a later entry with the same id overwrites an earlier one. */
  function IssueViews(entries: seq<ViewEntry>): (r: map<int, string>)
    ensures ListsIssueViews(entries, r)
    decreases |entries|
  {
    if |entries| == 0 then map[]
    else
      var n := |entries| - 1;
      var m := IssueViews(entries[..n]);
      var e := entries[n];
      if Qualifies(e) then
        ListsIssueViewsAdd(entries, m);
        m[e.id.value := e.name.value]
      else
        ListsIssueViewsSkip(entries, m);
        m
  }

  /** Entries before the last one qualify in `entries` exactly as in its
      prefix. */
  lemma {:induction false} IssueViewAtPrefix(entries: seq<ViewEntry>, k: int, id: int)
    requires 0 < |entries| && k < |entries| - 1
    ensures IssueViewAt(entries[..|entries| - 1], k, id) <==> IssueViewAt(entries, k, id)
  {
    if 0 <= k {
      assert entries[..|entries| - 1][k] == entries[k];
    }
  }

  /** A non-qualifying last entry leaves the listing unchanged. */
  lemma {:induction false} ListsIssueViewsSkip(entries: seq<ViewEntry>, m: map<int, string>)
    requires 0 < |entries| && !Qualifies(entries[|entries| - 1])
    requires ListsIssueViews(entries[..|entries| - 1], m)
    ensures ListsIssueViews(entries, m)
  {
    var n := |entries| - 1;
    var init := entries[..n];
    forall k, id | k < n
      ensures IssueViewAt(init, k, id) <==> IssueViewAt(entries, k, id)
    {
      IssueViewAtPrefix(entries, k, id);
    }
    assert forall id :: !IssueViewAt(entries, n, id);
  }

  /** A qualifying last entry sets its id to its name. */
  lemma {:induction false} ListsIssueViewsAdd(entries: seq<ViewEntry>, m: map<int, string>)
    requires 0 < |entries| && Qualifies(entries[|entries| - 1])
    requires ListsIssueViews(entries[..|entries| - 1], m)
    ensures ListsIssueViews(entries, m[entries[|entries| - 1].id.value := entries[|entries| - 1].name.value])
  {
    var n := |entries| - 1;
    var init := entries[..n];
    var e := entries[n];
    var r := m[e.id.value := e.name.value];
    forall k, id | k < n
      ensures IssueViewAt(init, k, id) <==> IssueViewAt(entries, k, id)
    {
      IssueViewAtPrefix(entries, k, id);
    }
    assert IssueViewAt(entries, n, e.id.value);
    forall id | id in r
      ensures exists k :: IssueViewAt(entries, k, id) && r[id] == entries[k].name.value
                          && forall k' :: k < k' < |entries| ==> !IssueViewAt(entries, k', id)
    {
      if id != e.id.value {
        var k :| IssueViewAt(init, k, id) && m[id] == init[k].name.value
                 && forall k' :: k < k' < n ==> !IssueViewAt(init, k', id);
        assert IssueViewAt(entries, k, id) && init[k] == entries[k];
        assert !IssueViewAt(entries, n, id);
      }
    }
  }

  /** `getViews`: with a usable base URI, read the listing (the typed read
      raises on a non-2xx status), parse it, and filter it. A malformed base
      URI or a parse failure gives the empty map instead of raising. The
      session cookies are not sent. */
  function GetViews(svc: Service, server: Request -> Response,
                    parse: string -> Option<seq<ViewEntry>>): (r: Result<map<int, string>, ServiceError>)
    ensures svc.baseUri.None? ==> r == Success(map[])
    ensures svc.baseUri.Some? ==>
      var response := server(ViewsRequest(svc.baseUri.value));
      && (r.Failure? <==> !(200 <= response.status < 300))
      && (r.Failure? ==> r.error == ReadFailed(response.status))
      && (r.Success? && parse(response.body).None? ==> r.value == map[])
      && (r.Success? && parse(response.body).Some? ==> r.value == IssueViews(parse(response.body).value))
  {
    match svc.baseUri
    case None => Success(map[])
    case Some(base) =>
      var response := server(ViewsRequest(base));
      if !(200 <= response.status < 300) then Failure(ReadFailed(response.status))
      else
        match parse(response.body)
        case None => Success(map[])
        case Some(entries) => Success(IssueViews(entries))
  }

  // ---------------------------------------------------------------------
  // Fetching view contents

  /** Every cookie of the session, as attached one by one to a request. */
  function SessionCookies(session: CookieJar): (cs: set<Cookie>)
    ensures forall name :: name in session ==> session[name] in cs
    ensures forall c :: c in cs ==> exists name :: name in session && session[name] == c
  {
    session.Values
  }

  /** The contents request: the view's path below the contents endpoint, the
      query `projectId`, `rowCount` (the page size) and `offset`, and every
      session cookie. */
  function ViewContentsRequest(base: string, session: CookieJar, projectId: string, connectView: string,
                               pageSize: int, offset: int): Request
  {
    Request(Uri(base, ViewContentsPath + connectView,
                [QueryParam("projectId", projectId),
                 QueryParam("rowCount", Decimal.IntToString(pageSize)),
                 QueryParam("offset", Decimal.IntToString(offset))]),
            SessionCookies(session))
  }

  /** The message of the error raised for a status other than 200: the
      request URI, the status and, at the end, the response body. */
  function StatusMessage(uri: Uri, response: Response): (msg: string)
    ensures Contains(msg, RenderUri(uri))
    ensures Contains(msg, Decimal.IntToString(response.status))
    ensures EndsWith(msg, response.body)
  {
    var pre := "GET ";
    var u := RenderUri(uri);
    var mid := " returned a response status of ";
    var status := Decimal.IntToString(response.status);
    var tail := ": " + response.body;
    var msg := pre + (u + (mid + (status + tail)));
    ContainsFront(u, mid + (status + tail));
    ContainsAfter(pre, u + (mid + (status + tail)), u);
    ContainsFront(status, tail);
    ContainsAfter(mid, status + tail, status);
    ContainsAfter(u, mid + (status + tail), status);
    ContainsAfter(pre, u + (mid + (status + tail)), status);
    assert EndsWith(tail, response.body);
    EndsWithAfter(status, tail, response.body);
    EndsWithAfter(mid, status + tail, response.body);
    EndsWithAfter(u, mid + (status + tail), response.body);
    EndsWithAfter(pre, u + (mid + (status + tail)), response.body);
    msg
  }

  /** The empty page returned when the URI or the body is unusable. */
  const EmptyContents: ViewContents := ViewContents(JObject(map[]))

  /** `getViewContents`: a malformed base URI gives the empty page; otherwise
      the contents request is sent with the session cookies, a status other
      than 200 raises with the URI, status and body in the message, a parse
      failure gives the empty page, and a parsed body yields its
      `viewContentsV1` member unchanged. */
  function GetViewContents(svc: Service, server: Request -> Response,
                           parse: string -> Option<map<string, Json>>,
                           projectId: string, connectView: string, pageSize: int, offset: int)
    : (r: Result<ViewContents, ServiceError>)
    ensures svc.baseUri.None? ==> r == Success(EmptyContents)
    ensures svc.baseUri.Some? && svc.session.None? ==> r == Failure(NullSession)
    ensures svc.baseUri.Some? && svc.session.Some? ==>
      var request := ViewContentsRequest(svc.baseUri.value, svc.session.value, projectId, connectView, pageSize, offset);
      var response := server(request);
      && (r.Failure? <==> response.status != StatusOk)
      && (r.Failure? ==> r.error == RemoteCallFailed(StatusMessage(request.uri, response)))
      && (r.Success? && parse(response.body).None? ==> r.value == EmptyContents)
      && (r.Success? && parse(response.body).Some? ==>
            r.value == ViewContents(Get(parse(response.body).value, ContentsMember)))
  {
    match svc.baseUri
    case None => Success(EmptyContents)
    case Some(base) =>
      match svc.session
      case None => Failure(NullSession)
      case Some(session) =>
        var request := ViewContentsRequest(base, session, projectId, connectView, pageSize, offset);
        var response := server(request);
        if response.status != StatusOk then Failure(RemoteCallFailed(StatusMessage(request.uri, response)))
        else
          match parse(response.body)
          case None => Success(EmptyContents)
          case Some(json) => Success(ViewContents(Get(json, ContentsMember)))
  }
}

/** Properties that relate the views client's calls to one another and
    instances of its documented behaviour. */
module ViewsServiceProperties {
  import opened Wrappers
  import opened Http
  import opened ViewsService
  import Decimal

  /** The query of the contents request as text:
      `projectId=<id>&rowCount=<pageSize>&offset=<offset>`. */
  lemma ContentsQueryText(base: string, session: CookieJar, projectId: string, connectView: string,
                          pageSize: int, offset: int)
    ensures var request := ViewContentsRequest(base, session, projectId, connectView, pageSize, offset);
      && RenderUri(request.uri) == base + "/" + ("api/viewContents/issues/v1/" + connectView)
                                   + ("?" + RenderQuery(request.uri.query))
      && RenderQuery(request.uri.query)
         == "projectId=" + projectId + "&"
            + ("rowCount=" + Decimal.IntToString(pageSize) + "&"
               + ("offset=" + Decimal.IntToString(offset)))
  {
    var q := ViewContentsRequest(base, session, projectId, connectView, pageSize, offset).uri.query;
    var rows, off := Decimal.IntToString(pageSize), Decimal.IntToString(offset);
    assert q[1..][1..] == [q[2]];
    var t3 := "offset" + "=" + off;
    var t2 := "rowCount" + "=" + rows + "&" + t3;
    assert RenderQuery(q[1..][1..]) == t3;
    assert RenderQuery(q[1..]) == t2;
    assert RenderQuery(q) == "projectId" + "=" + projectId + "&" + t2;
    assert t3 == "offset=" + off;
    assert t2 == "rowCount=" + rows + "&" + t3;
  }

  /** The contents request carries the project, the page size as `rowCount`
      and the offset, and attaches exactly the session's cookies. */
  lemma ContentsRequestShape(base: string, session: CookieJar, projectId: string, connectView: string,
                             pageSize: int, offset: int)
    ensures var request := ViewContentsRequest(base, session, projectId, connectView, pageSize, offset);
      && request.uri.path == "api/viewContents/issues/v1/" + connectView
      && QueryValue(request.uri.query, "projectId") == Some(projectId)
      && QueryValue(request.uri.query, "rowCount") == Some(Decimal.IntToString(pageSize))
      && QueryValue(request.uri.query, "offset") == Some(Decimal.IntToString(offset))
      && (forall name :: name in session ==> session[name] in request.cookies)
      && (forall c :: c in request.cookies ==> exists name :: name in session && session[name] == c)
  {
    var q := ViewContentsRequest(base, session, projectId, connectView, pageSize, offset).uri.query;
    assert q[1..][1..] == [q[2]];
    assert q[1..][1..][1..] == [];
  }

  /** Only the contents request is authenticated: the listing request, which
      also opens the session, carries no cookies. */
  lemma ListingUnauthenticated(base: string)
    ensures ViewsRequest(base).cookies == {}
    ensures RenderUri(ViewsRequest(base).uri) == base + "/api/views/v1"
  {
  }

  /** A client obtained from `Construct` never dereferences a null session:
      when bootstrap could not form a URI, neither can the contents call, and
      it returns the empty page before touching the cookies. */
  lemma ConstructedNeverNullSession(baseUri: Option<string>, bootstrap: Request -> Response,
                                    server: Request -> Response, parse: string -> Option<map<string, Json>>,
                                    projectId: string, connectView: string, pageSize: int, offset: int)
    requires Construct(baseUri, bootstrap).Success?
    ensures GetViewContents(Construct(baseUri, bootstrap).value, server, parse,
                            projectId, connectView, pageSize, offset) != Failure(NullSession)
  {
  }

  /** The listing call only ever raises for a non-2xx status: a malformed
      URI or an unparsable body is answered with the empty map. */
  lemma GetViewsRaisesOnlyOnStatus(svc: Service, server: Request -> Response,
                                   parse: string -> Option<seq<ViewEntry>>)
    ensures GetViews(svc, server, parse).Failure? ==>
      svc.baseUri.Some? && !(200 <= server(ViewsRequest(svc.baseUri.value)).status < 300)
  {
  }

  /** The filter keeps issue views with both id and name, drops other types
      and entries with a null name. */
  lemma ListViewsExample()
    ensures IssueViews([ViewEntry(Some(1), Some("X"), Some("issues")),
                        ViewEntry(Some(2), Some("Y"), Some("project")),
                        ViewEntry(Some(3), None, Some("issues"))]) == map[1 := "X"]
  {
    var es := [ViewEntry(Some(1), Some("X"), Some("issues")),
               ViewEntry(Some(2), Some("Y"), Some("project")),
               ViewEntry(Some(3), None, Some("issues"))];
    var r := IssueViews(es);
    assert IssueViewAt(es, 0, 1);
    assert forall k, id :: IssueViewAt(es, k, id) ==> k == 0 && id == 1;
    assert 1 in r;
    assert forall id :: id in r ==> id == 1;
    assert r[1] == "X";
  }

  /** On duplicate ids the later qualifying entry's name wins. */
  lemma ListViewsLaterWins()
    ensures IssueViews([ViewEntry(Some(7), Some("old"), Some("issues")),
                        ViewEntry(Some(7), Some("new"), Some("issues"))]) == map[7 := "new"]
  {
  }

  lemma PrintFifty()
    ensures Decimal.IntToString(50) == "50"
  {
    assert Decimal.NatToString(5) == "5" by { assert Decimal.DigitChar(5) == '5'; }
    assert Decimal.DigitChar(0) == '0';
    assert Decimal.NatToString(50) == Decimal.NatToString(5) + [Decimal.DigitChar(0)];
  }

  lemma PrintHundred()
    ensures Decimal.IntToString(100) == "100"
  {
    assert Decimal.NatToString(1) == "1" by { assert Decimal.DigitChar(1) == '1'; }
    assert Decimal.DigitChar(0) == '0';
    assert Decimal.NatToString(10) == Decimal.NatToString(1) + [Decimal.DigitChar(0)];
    assert Decimal.NatToString(100) == Decimal.NatToString(10) + [Decimal.DigitChar(0)];
  }

  /** A page request for project `p1`, view `v`, 50 rows from offset 100. */
  lemma ContentsRequestExample(base: string, session: CookieJar)
    ensures var request := ViewContentsRequest(base, session, "p1", "v", 50, 100);
      && request.uri.path == "api/viewContents/issues/v1/v"
      && RenderQuery(request.uri.query) == "projectId=p1&rowCount=50&offset=100"
  {
    PrintFifty();
    PrintHundred();
    ContentsQueryText(base, session, "p1", "v", 50, 100);
  }

  /** A 200 response whose body parses to `{"viewContentsV1": payload}`
      yields exactly `payload`. */
  lemma ContentsPassThrough(svc: Service, server: Request -> Response,
                            parse: string -> Option<map<string, Json>>,
                            projectId: string, connectView: string, pageSize: int, offset: int, payload: Json)
    requires svc.baseUri.Some? && svc.session.Some?
    requires var request := ViewContentsRequest(svc.baseUri.value, svc.session.value, projectId, connectView, pageSize, offset);
      && server(request).status == 200
      && parse(server(request).body) == Some(map["viewContentsV1" := payload])
    ensures GetViewContents(svc, server, parse, projectId, connectView, pageSize, offset)
            == Success(ViewContents(payload))
  {
  }
}
