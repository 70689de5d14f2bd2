/** The functional request readers of src/std/Request.ts: path segments,
    query values, path parameters, headers, the client address and the
    WebSocket context. `parse` stands for URLSearchParams' decoding of
    the URL's query. */
module StdRequest {
  import opened Wrappers
  import opened Text
  import opened SystemErrors
  import HttpContext
  import H = Headers
  import Href
  import BodyParse

  /** `segments(c)`. */
  function Segments<J>(c: HttpContext.Ctx<J>): (segs: seq<string>)
    ensures forall i :: 0 <= i < |segs| ==> segs[i] != "" && '/' !in segs[i]
    ensures forall p :: p in segs <==> p != "" && p in Split(c.path, '/')
    ensures segs == HttpContext.Segments(c)
  {
    Text.Segments(c.path, '/')
  }

  /** A path "/a/b/c" gives back its segments ["a", "b", "c"]. */
  lemma SegmentsOfPath<J>(c: HttpContext.Ctx<J>, ss: seq<string>)
    requires forall i :: 0 <= i < |ss| ==> ss[i] != "" && '/' !in ss[i]
    requires c.path == "/" + Join(ss, "/")
    ensures Segments(c) == ss
  {
    HttpContext.SegmentsOfPath(c, ss);
  }

  /** The root path has no segments. */
  lemma RootHasNoSegments<J>(c: HttpContext.Ctx<J>)
    requires c.path == "/"
    ensures Segments(c) == []
  {
    assert IndexOfChar("/", '/') == 0;
    SplitAt("/", '/', 0);
    assert "/"[1..] == "";
    assert Split("", '/') == [""];
  }

  /** The URL's query pairs. */
  function QueryPairs<J>(c: HttpContext.Ctx<J>, parse: string -> Href.Pairs): Href.Pairs {
    parse(Href.ExistingQuery(c.req.url))
  }

  /** `query(c, key, default)`: the FIRST value of the key. */
  function Query<J>(c: HttpContext.Ctx<J>, key: string, default: string, parse: string -> Href.Pairs): (v: string)
    ensures |Href.Values(QueryPairs(c, parse), key)| == 0 ==> v == default
    ensures |Href.Values(QueryPairs(c, parse), key)| > 0 ==> v == Href.Values(QueryPairs(c, parse), key)[0]
  {
    var vs := Href.Values(QueryPairs(c, parse), key);
    if |vs| > 0 then vs[0] else default
  }

  /** `queries(c)`: every key with its LAST value. */
  function Queries<J>(c: HttpContext.Ctx<J>, parse: string -> Href.Pairs): (m: map<string, string>)
    ensures forall k :: k in m <==> |Href.Values(QueryPairs(c, parse), k)| > 0
  {
    BodyParse.FormLastOf(QueryPairs(c, parse))
  }

  /** For a repeated key the two readers disagree: `query` answers the
      first value, `queries` the last. */
  lemma QueryFirstQueriesLast<J>(c: HttpContext.Ctx<J>, key: string, default: string, parse: string -> Href.Pairs)
    requires |Href.Values(QueryPairs(c, parse), key)| > 0
    ensures var vs := Href.Values(QueryPairs(c, parse), key);
      Query(c, key, default, parse) == vs[0] && Queries(c, parse)[key] == vs[|vs| - 1]
  {
    BodyParse.FormLastIsLast(QueryPairs(c, parse), key);
  }

  /** `param(c, key, default)`. */
  function Param<J>(c: HttpContext.Ctx<J>, key: string, default: string): (v: string)
    ensures key in c.params ==> v == c.params[key]
    ensures key !in c.params ==> v == default
  {
    if key in c.params then c.params[key] else default
  }

  /** `header(c, name)`: the request's combined value, case-insensitive. */
  function Header<J>(c: HttpContext.Ctx<J>, name: string): (v: Option<string>)
    ensures forall other :: H.SameField(name, other) ==> v == H.ViewGet(c.req.headers, other)
  {
    H.ViewGet(c.req.headers, name)
  }

  /** `clientIP(c)`: the same rule as the context's `getClientIP`. */
  function ClientIP<J>(c: HttpContext.Ctx<J>): (ip: string)
    ensures (H.ViewGet(c.req.headers, "x-forwarded-for") in {None, Some("")}
             && H.ViewGet(c.req.headers, "x-real-ip") in {None, Some("")}) ==> ip == "unknown"
    ensures H.ViewGet(c.req.headers, "x-forwarded-for") !in {None, Some("")} ==> ',' !in ip
    ensures H.ViewGet(c.req.headers, "x-forwarded-for") in {None, Some("")}
            && H.ViewGet(c.req.headers, "x-real-ip") !in {None, Some("")} ==>
      ip == Trim(H.ViewGet(c.req.headers, "x-real-ip").value)
  {
    HttpContext.ClientIP(c.req.headers)
  }

  /** Behind proxies, the first address of X-Forwarded-For is reported. */
  lemma ClientIPFirstHop<J>(c: HttpContext.Ctx<J>, client: string, rest: string)
    requires ',' !in client
    requires H.ViewGet(c.req.headers, "x-forwarded-for") == Some(client + "," + rest)
    ensures ClientIP(c) == Trim(client)
  {
    HttpContext.ClientIPFirstHop(c.req.headers, client, rest);
  }

  const NoWsMessage := "WebSocket context is not available. Are you calling ws(c) from a non-WS route?"

  /** `ws(c)`. */
  function Ws<J>(c: HttpContext.Ctx<J>): (r: Result<nat, Failure>)
    ensures r.Ok? <==> HttpContext.IsWsRoute(c)
    ensures r.Ok? ==> r.value == c.ws.value
    ensures r.Err? ==> r.error == SystemErr(InternalServerErr, NoWsMessage)
  {
    if c.ws.Some? then Ok(c.ws.value) else Err(SystemErr(InternalServerErr, NoWsMessage))
  }
}
