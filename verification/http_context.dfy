/** The per-request context of src/HTTPContext.ts: the response state
    machine (OPEN, WRITTEN, STREAMING, SENT) and the guards that keep a
    handler from writing twice, the path derived from the request URL,
    the response writers, redirects, body parsing with its content-type
    checks, and the small readers (client IP, path segments, the
    WebSocket context, the global registry). The runtime's objects are
    values here: the request is its URL, method, headers, text and form
    data; a stream is an identifier; a file lookup is given as its
    outcome. */
module HttpContext {
  import opened Wrappers
  import opened Text
  import opened SystemErrors
  import opened BodyParse
  import H = Headers
  import Cookies
  import Href

  /** `ContextState`. */
  datatype State = Open | Written | Streaming | Sent

  /** What the response body is set to. */
  datatype Payload = NoPayload | TextPayload(text: string) | StreamPayload(stream: nat) | FilePayload(file: string)

  /** The mutable response: status, headers, body and the cookie jar. */
  datatype Response = Response(status: int, headers: H.Bag, payload: Payload, jar: Cookies.Jar)

  /** A reset response: status 200, no headers, no body, no Set-Cookie
      lines. */
  function FreshResponse(jar: Cookies.Jar): (r: Response)
    ensures r.status == 200 && r.headers == H.EmptyBag && r.payload == NoPayload
    ensures r.jar.lines == [] && r.jar.header == jar.header
  {
    Response(200, H.EmptyBag, NoPayload, Cookies.ResetResponse(jar))
  }

  /** The incoming request as the context reads it; `hasBody` is false
      for a request whose body is null. */
  datatype Incoming = Incoming(url: string, verb: string, headers: H.RequestView, hasBody: bool, text: string, formData: Href.Pairs)

  /** The context: response state, the timeout flag the server sets in
      `data`, the response, the request with its derived path, method and
      route, the path parameters, the body parse cache and the WebSocket
      context when there is one. */
  datatype Ctx<J> = Ctx(
    state: State,
    timedOut: bool,
    res: Response,
    req: Incoming,
    path: string,
    verb: string,
    route: string,
    params: map<string, string>,
    body: BodyState<J>,
    ws: Option<nat>)

  /** The request as the body parser sees it. */
  function BodyRequest(req: Incoming): Request {
    Request(H.ViewGet(req.headers, "Content-Type"), req.hasBody, req.text, req.formData)
  }

  // ---------------------------------------------------------------------
  // The path of a request URL

  function Clamp(x: int, n: nat): (r: nat)
    ensures r <= n
  {
    if x < 0 then 0 else if x > n then n else x
  }

  /** `s.substring(a, b)`: both ends clamped into the string, swapped when
      the first is past the second. */
  function JsSubstring(s: string, a: int, b: int): string {
    var x, y := Clamp(a, |s|), Clamp(b, |s|);
    if x <= y then s[x..y] else s[y..x]
  }

  /** The path `reset` derives: from the first "/" at or after index 8 up
      to the first "?" after it, trailing slashes removed, "/" when
      nothing is left. */
  function UrlPath(url: string): (path: string)
    ensures path != "" && (path == "/" || path[|path| - 1] != '/')
  {
    var urlIndex := IndexOfFrom(url, "/", 8);
    var queryIndex := IndexOfFrom(url, "?", urlIndex);
    var pathStr := if queryIndex == -1 then JsSubstring(url, urlIndex, |url|) else JsSubstring(url, urlIndex, queryIndex);
    NormalizePath(pathStr)
  }

  /** For a URL with a "/" after its origin, the path is the text from
      that "/" up to the query. */
  lemma UrlPathIs(url: string, i: nat, q: nat)
    requires 8 <= i < |url| && url[i] == '/' && forall j :: 8 <= j < i ==> url[j] != '/'
    requires i <= q <= |url| && (q == |url| || url[q] == '?') && forall j :: i <= j < q ==> url[j] != '?'
    ensures UrlPath(url) == NormalizePath(url[i..q])
  {
    IndexOfFromIs(url, '/', 8, i);
    if q < |url| {
      IndexOfFromIs(url, '?', i, q);
    } else {
      IndexOfFromAbsent(url, '?', i);
    }
  }

  /** A URL without any "/" from index 8 on and without a query reads as
      a path whole, scheme and host included. */
  lemma UrlPathWithoutSlash(url: string)
    requires forall j :: 8 <= j < |url| ==> url[j] != '/'
    requires '?' !in url
    ensures UrlPath(url) == NormalizePath(url)
  {
    IndexOfFromAbsent(url, '/', 8);
    forall j | 0 <= j < |url| ensures url[j] != '?' {
      assert url[j] in url;
    }
    IndexOfFromAbsent(url, '?', 0);
    assert url[0..|url|] == url;
  }

  /** The first `c` at or after `from`. */
  lemma IndexOfFromIs(s: string, c: char, from: nat, i: nat)
    requires from <= i < |s| && s[i] == c && forall j :: from <= j < i ==> s[j] != c
    ensures IndexOfFrom(s, [c], from) == i
  {
    assert OccursAt(s, [c], i) by { assert s[i..i + 1] == [s[i]]; }
    forall j | from <= j < i ensures !OccursAt(s, [c], j) {
      assert s[j..j + 1] == [s[j]];
    }
  }

  /** No `c` at or after `from`. */
  lemma IndexOfFromAbsent(s: string, c: char, from: nat)
    requires forall j :: from <= j < |s| ==> s[j] != c
    ensures IndexOfFrom(s, [c], from) == -1
  {
    forall j | from <= j < |s| ensures !OccursAt(s, [c], j) {
      assert s[j..j + 1] == [s[j]];
    }
  }

  /** `reset(req, params)`: a pooled context starts over for a request. */
  function Reset<J>(c: Ctx<J>, req: Incoming, params: map<string, string>): (r: Ctx<J>)
    ensures r.state == Open && !r.timedOut && r.body == Fresh() && r.ws.None?
    ensures r.path == UrlPath(req.url) && r.verb == req.verb && r.route == req.verb + " " + r.path
    ensures r.req == req && r.params == params
    ensures r.res.status == 200 && r.res.headers == H.EmptyBag && r.res.payload == NoPayload
    ensures r.res.jar == Cookies.Jar(H.ViewGet(req.headers, "Cookie"), None, [])
  {
    var path := UrlPath(req.url);
    var res := FreshResponse(c.res.jar);
    Ctx(Open, false, res.(jar := Cookies.ResetRequest(res.jar, H.ViewGet(req.headers, "Cookie"))),
        req, path, req.verb, req.verb + " " + path, params, Fresh(), None)
  }

  /** Nothing of the previous request survives a reset. */
  lemma ResetForgets<J>(c1: Ctx<J>, c2: Ctx<J>, req: Incoming, params: map<string, string>)
    ensures Reset(c1, req, params) == Reset(c2, req, params)
  {
  }

  // ---------------------------------------------------------------------
  // The response state machine

  const StreamingMessage := "Cannot modify headers or status after response has started streaming."
  const DoubleResponseMessage := "Double Response: Attempted to write body after response was finalized (e.g. after redirect)."

  /** `ensureConfigurable`: status and headers are closed once streaming
      has started, unless the request already timed out. */
  function ConfigurableCheck<J>(c: Ctx<J>): (r: Option<Failure>)
    ensures r.Some? <==> !c.timedOut && c.state == Streaming
    ensures r.Some? ==> r.value == SystemErr(HeadersAlreadySent, StreamingMessage)
  {
    if c.timedOut || c.state == Sent then None
    else if c.state == Streaming then Some(SystemErr(HeadersAlreadySent, StreamingMessage))
    else None
  }

  /** `ensureBodyModifiable`: a body is written at most once; streaming
      reports as above, a finished response as a double response. */
  function BodyCheck<J>(c: Ctx<J>): (r: Option<Failure>)
    ensures r.Some? <==> !c.timedOut && (c.state == Streaming || c.state == Written)
    ensures c.state == Streaming ==> r == ConfigurableCheck(c)
    ensures r.Some? && c.state == Written ==> r.value == SystemErr(InternalServerErr, DoubleResponseMessage)
  {
    if c.timedOut then None
    else if ConfigurableCheck(c).Some? then ConfigurableCheck(c)
    else if c.state == Sent then None
    else if c.state == Written then Some(SystemErr(InternalServerErr, DoubleResponseMessage))
    else None
  }

  /** `isDone`. */
  predicate IsDone<J>(c: Ctx<J>) {
    c.state != Open
  }

  /** `finalize`: an open response is written; any other state stays. */
  function Finalize<J>(c: Ctx<J>): (r: Ctx<J>)
    ensures IsDone(r)
    ensures c.state != Open ==> r == c
    ensures r == c.(state := r.state)
  {
    if c.state == Open then c.(state := Written) else c
  }

  /** `clearResponse`: a fresh response, open again. */
  function ClearResponse<J>(c: Ctx<J>): (r: Ctx<J>)
    ensures !IsDone(r) && r.res.status == 200 && r.res.headers == H.EmptyBag && r.res.payload == NoPayload
    ensures r.res.jar.lines == [] && r == c.(state := Open, res := r.res)
  {
    c.(state := Open, res := FreshResponse(c.res.jar))
  }

  /** `markSent`. */
  function MarkSent<J>(c: Ctx<J>): (r: Ctx<J>)
    ensures IsDone(r) && BodyCheck(r).None? && ConfigurableCheck(r).None?
  {
    c.(state := Sent)
  }

  /** The context with its response replaced: nothing else changes. */
  ghost predicate OnlyResponse<J>(c: Ctx<J>, r: Ctx<J>) {
    r == c.(res := r.res, state := r.state)
  }

  /** `setStatus(code)`. */
  function SetStatus<J>(c: Ctx<J>, code: int): (r: Result<Ctx<J>, Failure>)
    ensures c.timedOut ==> r == Ok(c)
    ensures r.Err? <==> ConfigurableCheck(c).Some?
    ensures r.Err? ==> r.error == ConfigurableCheck(c).value
    ensures r.Ok? && !c.timedOut ==> r.value.res == c.res.(status := code) && r.value.state == c.state
  {
    if c.timedOut then Ok(c)
    else match ConfigurableCheck(c)
      case Some(e) => Err(e)
      case None => Ok(c.(res := c.res.(status := code)))
  }

  function InvalidHeaderMessage(name: string): string {
    "Attempted to set invalid header \"" + name + "\"."
  }

  /** `setHeader(name, value)`: refused while streaming or for a value
      with a line break, otherwise the field holds exactly that value. */
  function SetHeader<J>(c: Ctx<J>, name: string, value: string): (r: Result<Ctx<J>, Failure>)
    ensures c.timedOut ==> r == Ok(c)
    ensures !c.timedOut ==> (r.Err? <==> c.state == Streaming || HasLineBreak(value))
    ensures r.Err? && c.state == Streaming ==> r.error == SystemErr(HeadersAlreadySent, StreamingMessage)
    ensures r.Err? && c.state != Streaming ==> r.error == SystemErr(InternalServerErr, InvalidHeaderMessage(name))
    ensures r.Ok? && !c.timedOut ==> OnlyResponse(c, r.value) && r.value.state == c.state
    ensures r.Ok? && !c.timedOut ==> r.value.res == c.res.(headers := H.Set(c.res.headers, name, value))
  {
    if c.timedOut then Ok(c)
    else match ConfigurableCheck(c)
      case Some(e) => Err(e)
      case None =>
        if HasLineBreak(value) then Err(SystemErr(InternalServerErr, InvalidHeaderMessage(name)))
        else Ok(c.(res := c.res.(headers := H.Set(c.res.headers, name, value))))
  }

  /** `appendHeader(name, value)`: as `setHeader`, but the value joins
      the field's earlier ones. */
  function AppendHeader<J>(c: Ctx<J>, name: string, value: string): (r: Result<Ctx<J>, Failure>)
    ensures c.timedOut ==> r == Ok(c)
    ensures !c.timedOut ==> (r.Err? <==> c.state == Streaming || HasLineBreak(value))
    ensures r.Err? && c.state == Streaming ==> r.error == SystemErr(HeadersAlreadySent, StreamingMessage)
    ensures r.Err? && c.state != Streaming ==> r.error == SystemErr(InternalServerErr, InvalidHeaderMessage(name))
    ensures r.Ok? && !c.timedOut ==> OnlyResponse(c, r.value) && r.value.state == c.state
    ensures r.Ok? && !c.timedOut ==> H.GetAll(r.value.res.headers, name) == H.GetAll(c.res.headers, name) + [value]
  {
    if c.timedOut then Ok(c)
    else match ConfigurableCheck(c)
      case Some(e) => Err(e)
      case None =>
        if HasLineBreak(value) then Err(SystemErr(InternalServerErr, InvalidHeaderMessage(name)))
        else
          H.AppendThenRead(c.res.headers, name, value, name);
          Ok(c.(res := c.res.(headers := H.Append(c.res.headers, name, value))))
  }

  const HtmlType := "text/html"
  const PlainType := "text/plain"
  const JsonMime := "application/json"
  const OctetStream := "application/octet-stream"

  /** The response carries `p` with Content-Type `mime`, and is done. */
  ghost predicate Delivered<J>(c: Ctx<J>, r: Ctx<J>, p: Payload, mime: string) {
    && OnlyResponse(c, r)
    && r.res.payload == p
    && r.res.status == c.res.status
    && H.Get(r.res.headers, "Content-Type") == Some(mime)
    && IsDone(r)
  }

  /** Sets the body and finalizes, with the Content-Type already set. */
  function WriteBody<J>(c: Ctx<J>, p: Payload): (r: Ctx<J>)
    ensures IsDone(r) && r.res == c.res.(payload := p) && OnlyResponse(c, r)
  {
    Finalize(c.(res := c.res.(payload := p)))
  }

  /** A body writer: refused after the body was written or while
      streaming; otherwise the body, its Content-Type and a finished
      state. */
  function WriteTyped<J>(c: Ctx<J>, mime: string, p: Payload): (r: Result<Ctx<J>, Failure>)
    requires !HasLineBreak(mime)
    ensures c.timedOut ==> r == Ok(c)
    ensures r.Err? <==> BodyCheck(c).Some?
    ensures r.Err? ==> r.error == BodyCheck(c).value
    ensures r.Ok? && !c.timedOut ==> Delivered(c, r.value, p, mime)
  {
    if c.timedOut then Ok(c)
    else match BodyCheck(c)
      case Some(e) => Err(e)
      case None =>
        H.SetThenRead(c.res.headers, "Content-Type", mime, "Content-Type");
        Ok(WriteBody(c.(res := c.res.(headers := H.Set(c.res.headers, "Content-Type", mime))), p))
  }

  /** `html(content)`. */
  function Html<J>(c: Ctx<J>, content: string): (r: Result<Ctx<J>, Failure>)
    ensures c.timedOut ==> r == Ok(c)
    ensures r.Err? <==> BodyCheck(c).Some?
    ensures r.Ok? && !c.timedOut ==> Delivered(c, r.value, TextPayload(content), HtmlType)
  {
    WriteTyped(c, HtmlType, TextPayload(content))
  }

  /** `json(data)`, with `doc` the text `JSON.stringify(data)` gives. */
  function Json<J>(c: Ctx<J>, doc: string): (r: Result<Ctx<J>, Failure>)
    ensures c.timedOut ==> r == Ok(c)
    ensures r.Err? <==> BodyCheck(c).Some?
    ensures r.Ok? && !c.timedOut ==> Delivered(c, r.value, TextPayload(doc), JsonMime)
  {
    WriteTyped(c, JsonMime, TextPayload(doc))
  }

  /** `text(content)`: a Content-Type already set (and not empty) is
      kept, otherwise text/plain. */
  function TextOut<J>(c: Ctx<J>, content: string): (r: Result<Ctx<J>, Failure>)
    ensures c.timedOut ==> r == Ok(c)
    ensures r.Err? <==> BodyCheck(c).Some?
    ensures r.Ok? && !c.timedOut && H.Get(c.res.headers, "Content-Type") in {None, Some("")} ==>
      Delivered(c, r.value, TextPayload(content), PlainType)
    ensures r.Ok? && !c.timedOut && H.Get(c.res.headers, "Content-Type") !in {None, Some("")} ==>
      r.value == WriteBody(c, TextPayload(content))
  {
    if H.Get(c.res.headers, "Content-Type") in {None, Some("")} then WriteTyped(c, PlainType, TextPayload(content))
    else if c.timedOut then Ok(c)
    else match BodyCheck(c)
      case Some(e) => Err(e)
      case None => Ok(WriteBody(c, TextPayload(content)))
  }

  /** `stream(s)`: only the streaming guard applies, so a stream may
      replace a written body; the context then streams. */
  function Stream<J>(c: Ctx<J>, s: nat): (r: Result<Ctx<J>, Failure>)
    ensures c.timedOut ==> r == Ok(c)
    ensures r.Err? <==> ConfigurableCheck(c).Some?
    ensures r.Ok? && !c.timedOut ==> r.value.state == Streaming && r.value.res.payload == StreamPayload(s)
    ensures r.Ok? && !c.timedOut ==> H.Get(r.value.res.headers, "Content-Type") == Some(OctetStream)
  {
    if c.timedOut then Ok(c)
    else match ConfigurableCheck(c)
      case Some(e) => Err(e)
      case None =>
        H.SetThenRead(c.res.headers, "Content-Type", OctetStream, "Content-Type");
        var headers := H.Set(c.res.headers, "Content-Type", OctetStream);
        Ok(c.(res := c.res.(headers := headers, payload := StreamPayload(s)), state := Streaming))
  }

  /** `file(path)`, with `found` the runtime's answer: none when no file
      exists, else its MIME type ("" when unknown). */
  function File<J>(c: Ctx<J>, path: string, found: Option<string>): (r: Result<Ctx<J>, Failure>)
    ensures c.timedOut ==> r == Ok(c)
    ensures !c.timedOut ==> (r.Err? <==> BodyCheck(c).Some? || found.None?)
    ensures r.Err? && BodyCheck(c).None? ==> r.error == SystemErr(FileNotFound, "file does not exist at " + path)
    ensures r.Ok? && !c.timedOut ==>
      Delivered(c, r.value, FilePayload(path), if found.value == "" then OctetStream else found.value)
  {
    if c.timedOut then Ok(c)
    else match BodyCheck(c)
      case Some(e) => Err(e)
      case None =>
        match found
        case None => Err(SystemErr(FileNotFound, "file does not exist at " + path))
        case Some(mime) =>
          var t := if mime == "" then OctetStream else mime;
          H.SetThenRead(c.res.headers, "Content-Type", t, "Content-Type");
          Ok(WriteBody(c.(res := c.res.(headers := H.Set(c.res.headers, "Content-Type", t))), FilePayload(path)))
  }

  // ---------------------------------------------------------------------
  // errorJSON: the error object a spread builds

  /** A plain object's string-valued own properties, in key order. */
  type Fields = seq<(string, string)>

  predicate DistinctKeys(o: Fields) {
    forall i, j :: 0 <= i < j < |o| ==> o[i].0 != o[j].0
  }

  function KeySet(o: Fields): set<string> {
    set i | 0 <= i < |o| :: o[i].0
  }

  /** The value of property `k`, if the object has it. */
  function Prop(o: Fields, k: string): Option<string> {
    if |o| == 0 then None else if o[0].0 == k then Some(o[0].1) else Prop(o[1..], k)
  }

  /** `o[k] = v`: an existing property keeps its place and takes the
      value, a new one goes last. */
  function Assign(o: Fields, k: string, v: string): (r: Fields)
    ensures KeySet(r) == KeySet(o) + {k}
    ensures |o| <= |r| && forall i :: 0 <= i < |o| ==> r[i].0 == o[i].0
    ensures Prop(r, k) == Some(v)
    ensures forall j :: j != k ==> Prop(r, j) == Prop(o, j)
    ensures DistinctKeys(o) ==> DistinctKeys(r)
  {
    if |o| == 0 then
      KeysCons([(k, v)]);
      [(k, v)]
    else if o[0].0 == k then
      var r := [(k, v)] + o[1..];
      assert r[1..] == o[1..];
      KeysCons(o);
      KeysCons(r);
      r
    else
      var rest := Assign(o[1..], k, v);
      AssignedCons(o, k, v, rest);
      [o[0]] + rest
  }

  /** What `Assign(o, k, v)` promises of its result `r`. */
  ghost predicate Assigned(o: Fields, k: string, v: string, r: Fields) {
    && KeySet(r) == KeySet(o) + {k}
    && |o| <= |r| && (forall i :: 0 <= i < |o| ==> r[i].0 == o[i].0)
    && Prop(r, k) == Some(v)
    && (forall j :: j != k ==> Prop(r, j) == Prop(o, j))
    && (DistinctKeys(o) ==> DistinctKeys(r))
  }

  /** Assigning past a first property of another name keeps that property
      in front. */
  lemma AssignedCons(o: Fields, k: string, v: string, rest: Fields)
    requires |o| > 0 && o[0].0 != k && Assigned(o[1..], k, v, rest)
    ensures Assigned(o, k, v, [o[0]] + rest)
  {
    var r := [o[0]] + rest;
    assert r[1..] == rest;
    KeysCons(o);
    KeysCons(r);
    forall i | 0 <= i < |o| ensures r[i].0 == o[i].0 {
      if i > 0 { assert r[i] == rest[i - 1] && o[i] == o[1..][i - 1]; }
    }
  }

  /** The keys of a non-empty object: its first key and the rest's, and
      distinct exactly when the rest's are and do not repeat the first. */
  lemma KeysCons(o: Fields)
    requires |o| > 0
    ensures KeySet(o) == {o[0].0} + KeySet(o[1..])
    ensures DistinctKeys(o) <==> DistinctKeys(o[1..]) && o[0].0 !in KeySet(o[1..])
  {
    forall x | x in KeySet(o) ensures x in {o[0].0} + KeySet(o[1..]) {
      var i :| 0 <= i < |o| && o[i].0 == x;
      if i > 0 { assert o[1..][i - 1].0 == x; }
    }
    forall x | x in KeySet(o[1..]) ensures x in KeySet(o) {
      var i :| 0 <= i < |o[1..]| && o[1..][i].0 == x;
      assert o[i + 1].0 == x;
    }
    if DistinctKeys(o) {
      forall i | 0 <= i < |o[1..]| ensures o[1..][i].0 != o[0].0 {
        assert o[1..][i] == o[i + 1];
      }
    }
    if DistinctKeys(o[1..]) && o[0].0 !in KeySet(o[1..]) {
      forall i, j | 0 <= i < j < |o| ensures o[i].0 != o[j].0 {
        if i == 0 { assert o[1..][j - 1].0 in KeySet(o[1..]); }
        else { assert o[i].0 == o[1..][i - 1].0 && o[j].0 == o[1..][j - 1].0; }
      }
    }
  }

  /** The last value `k` has among `extra`'s entries. */
  function LastProp(extra: Fields, k: string): Option<string> {
    if |extra| == 0 then None
    else if extra[|extra| - 1].0 == k then Some(extra[|extra| - 1].1)
    else LastProp(extra[..|extra| - 1], k)
  }

  /** What property `k` of `{ code, message, ...extra }` holds: the last
      value `extra` gives it, else code or message for those two keys. */
  function SpreadProp(code: string, message: string, extra: Fields, k: string): Option<string> {
    if LastProp(extra, k).Some? then LastProp(extra, k)
    else if k == "code" then Some(code)
    else if k == "message" then Some(message)
    else None
  }

  /** `{ code, message, ...extra }`: code first, message second, each
      property of `extra` overriding or added after them. */
  function ErrorObject(code: string, message: string, extra: Fields): (o: Fields)
    ensures DistinctKeys(o) && |o| >= 2 && o[0].0 == "code" && o[1].0 == "message"
    ensures forall k :: Prop(o, k) == SpreadProp(code, message, extra, k)
    decreases |extra|
  {
    if |extra| == 0 then
      BaseErrorObject(code, message);
      [("code", code), ("message", message)]
    else
      var last := extra[|extra| - 1];
      Assign(ErrorObject(code, message, extra[..|extra| - 1]), last.0, last.1)
  }

  lemma BaseErrorObject(code: string, message: string)
    ensures forall k :: Prop([("code", code), ("message", message)], k) == SpreadProp(code, message, [], k)
  {
    var base := [("code", code), ("message", message)];
    assert base[1..] == [("message", message)] && base[1..][1..] == [];
    forall k ensures Prop(base, k) == SpreadProp(code, message, [], k) {
      assert LastProp([], k) == None;
      assert Prop(base[1..][1..], k) == None;
      assert Prop(base[1..], k) == if k == "message" then Some(message) else None;
      assert Prop(base, k) == if k == "code" then Some(code) else Prop(base[1..], k);
    }
  }

  /** `errorJSON(status, code, message, extra)`, with `render` standing
      for `JSON.stringify({ error })`. */
  function ErrorJson<J>(c: Ctx<J>, status: int, code: string, message: string, extra: Fields,
                        render: Fields -> string): (r: Result<Ctx<J>, Failure>)
    ensures c.timedOut ==> r == Ok(c)
    ensures r.Err? <==> BodyCheck(c).Some?
    ensures r.Ok? && !c.timedOut ==> r.value.res.status == status && IsDone(r.value)
    ensures r.Ok? && !c.timedOut ==> r.value.res.payload == TextPayload(render(ErrorObject(code, message, extra)))
    ensures r.Ok? && !c.timedOut ==> H.Get(r.value.res.headers, "Content-Type") == Some(JsonMime)
  {
    if c.timedOut then Ok(c)
    else match BodyCheck(c)
      case Some(e) => Err(e)
      case None =>
        Json(c.(res := c.res.(status := status)), render(ErrorObject(code, message, extra)))
  }

  // ---------------------------------------------------------------------
  // Redirects

  /** A redirect query value: a primitive (null and undefined included)
      or a value of another `typeof`. */
  datatype RedirectValue = Plain(p: Href.Prim) | NonPrimitive(typeName: string)

  function RejectedMessage(key: string, typeName: string): string {
    "Redirect query param \"" + key + "\" must be string/number/boolean (got " + typeName + ")."
  }

  const RedirectNewlineMessage := "Redirect location contains invalid characters (newlines). Did you forget encodeURIComponent()?"

  /** The pairs the query contributes: null and undefined skipped, the
      rest as `String(value)`; the first non-primitive is refused. */
  function QueryPairs(entries: seq<(string, RedirectValue)>): (r: Result<Href.Pairs, Failure>)
    ensures r.Err? <==> exists i :: 0 <= i < |entries| && entries[i].1.NonPrimitive?
    ensures r.Err? ==> exists i :: (
      && 0 <= i < |entries| && entries[i].1.NonPrimitive?
      && (forall j :: 0 <= j < i ==> entries[j].1.Plain?)
      && r.error == SystemErr(InternalServerErr, RejectedMessage(entries[i].0, entries[i].1.typeName)))
    ensures r.Ok? ==> |r.value| <= |entries|
  {
    if |entries| == 0 then Ok([])
    else
      var (k, v) := entries[0];
      match v
      case NonPrimitive(t) => Err(SystemErr(InternalServerErr, RejectedMessage(k, t)))
      case Plain(p) =>
        var rest := QueryPairs(entries[1..]);
        if rest.Err? then
          var i :| 0 <= i < |entries[1..]| && entries[1..][i].1.NonPrimitive?
            && (forall j :: 0 <= j < i ==> entries[1..][j].1.Plain?)
            && rest.error == SystemErr(InternalServerErr, RejectedMessage(entries[1..][i].0, entries[1..][i].1.typeName));
          assert entries[i + 1] == entries[1..][i];
          Err(rest.error)
        else
          assert forall i :: 1 <= i < |entries| ==> entries[i] == entries[1..][i - 1];
          Ok((if Href.Defined(p) then [(k, Href.PrimString(p))] else []) + rest.value)
  }

  /** Skipping: a null or undefined entry contributes nothing. */
  lemma {:induction false} QueryPairsSkipsNull(front: seq<(string, RedirectValue)>, k: string, p: Href.Prim,
                                               back: seq<(string, RedirectValue)>)
    requires !Href.Defined(p)
    ensures QueryPairs(front + [(k, Plain(p))] + back) == QueryPairs(front + back)
    decreases |front|
  {
    if |front| == 0 {
      assert front + [(k, Plain(p))] + back == [(k, Plain(p))] + back && front + back == back;
      QueryPairsDropsNull([(k, Plain(p))] + back);
      assert ([(k, Plain(p))] + back)[1..] == back;
    } else {
      QueryPairsSkipsNull(front[1..], k, p, back);
      ConcatTails(front, (k, Plain(p)), back);
      QueryPairsSameHead(front + [(k, Plain(p))] + back, front + back);
    }
  }

  /** The first entry and the rest of a list with and without `x`. */
  lemma ConcatTails<T>(front: seq<T>, x: T, back: seq<T>)
    requires |front| > 0
    ensures (front + [x] + back)[0] == front[0] == (front + back)[0]
    ensures (front + [x] + back)[1..] == front[1..] + [x] + back
    ensures (front + back)[1..] == front[1..] + back
  {
  }

  /** A first entry that is null or undefined is dropped. */
  lemma QueryPairsDropsNull(e: seq<(string, RedirectValue)>)
    requires |e| > 0 && e[0].1.Plain? && !Href.Defined(e[0].1.p)
    ensures QueryPairs(e) == QueryPairs(e[1..])
  {
    QueryPairsStep(e);
    var rest := QueryPairs(e[1..]);
    if rest.Ok? {
      assert [] + rest.value == rest.value;
    }
  }

  /** Two lists with the same first entry and rests that agree agree. */
  lemma QueryPairsSameHead(a: seq<(string, RedirectValue)>, b: seq<(string, RedirectValue)>)
    requires |a| > 0 && |b| > 0 && a[0] == b[0]
    requires QueryPairs(a[1..]) == QueryPairs(b[1..])
    ensures QueryPairs(a) == QueryPairs(b)
  {
    QueryPairsStep(a);
    QueryPairsStep(b);
  }

  /** One step of `QueryPairs`: the first entry, then the rest. */
  lemma QueryPairsStep(e: seq<(string, RedirectValue)>)
    requires |e| > 0
    ensures QueryPairs(e) == match e[0].1
      case NonPrimitive(t) => Err(SystemErr(InternalServerErr, RejectedMessage(e[0].0, t)))
      case Plain(p) =>
        match QueryPairs(e[1..])
        case Err(x) => Err(x)
        case Ok(ps) => Ok((if Href.Defined(p) then [(e[0].0, Href.PrimString(p))] else []) + ps)
  {
  }

  /** The location: the path, then the query string after "?" — or after
      "&" when the path has a "?" already — when there is one. */
  function RedirectLocation(path: string, query: Option<seq<(string, RedirectValue)>>, enc: string -> string): (r: Result<string, Failure>)
    ensures query.None? ==> r == Ok(path)
    ensures query.Some? ==> (r.Err? <==> QueryPairs(query.value).Err?)
    ensures r.Ok? && query.Some? && |QueryPairs(query.value).value| == 0 ==> r.value == path
    ensures r.Ok? && query.Some? && |QueryPairs(query.value).value| > 0 ==>
      r.value == path + (if Includes(path, "?") then "&" else "?") + Href.Serialize(QueryPairs(query.value).value, enc)
  {
    match query
    case None => Ok(path)
    case Some(entries) =>
      var ps :- QueryPairs(entries);
      var qs := Href.Serialize(ps, enc);
      if |qs| > 0 then Ok(path + (if Includes(path, "?") then "&" else "?") + qs) else Ok(path)
  }

  /** `redirect(path, query?, status?)`: refused while streaming, for a
      non-primitive query value, or for a location with a line break;
      otherwise the status (302 unless given) and Location are set and
      the response is done. Only the streaming guard applies, so a
      redirect after a body has been written is allowed. */
  function Redirect<J>(c: Ctx<J>, path: string, query: Option<seq<(string, RedirectValue)>>, status: Option<int>,
                       enc: string -> string): (r: Result<Ctx<J>, Failure>)
    ensures c.timedOut ==> r == Ok(c)
    ensures !c.timedOut ==> (r.Err? <==>
      ConfigurableCheck(c).Some? || RedirectLocation(path, query, enc).Err? || HasLineBreak(RedirectLocation(path, query, enc).value))
    ensures r.Err? && ConfigurableCheck(c).None? && RedirectLocation(path, query, enc).Ok? ==>
      r.error == SystemErr(InternalServerErr, RedirectNewlineMessage)
    ensures r.Ok? && !c.timedOut ==> (
      && OnlyResponse(c, r.value) && IsDone(r.value)
      && r.value.res.status == status.GetOr(302)
      && H.Get(r.value.res.headers, "Location") == Some(RedirectLocation(path, query, enc).value))
  {
    if c.timedOut then Ok(c)
    else match ConfigurableCheck(c)
      case Some(e) => Err(e)
      case None =>
        var location :- RedirectLocation(path, query, enc);
        if HasLineBreak(location) then Err(SystemErr(InternalServerErr, RedirectNewlineMessage))
        else
          H.SetThenRead(c.res.headers, "Location", location, "Location");
          var res := c.res.(status := status.GetOr(302), headers := H.Set(c.res.headers, "Location", location));
          Ok(Finalize(c.(res := res)))
  }

  /** The separator is "&" exactly when the path already has a query. */
  lemma RedirectSeparator(path: string, entries: seq<(string, RedirectValue)>, enc: string -> string)
    requires QueryPairs(entries).Ok? && |QueryPairs(entries).value| > 0
    ensures var loc := RedirectLocation(path, Some(entries), enc).value;
      loc[|path|] == (if Includes(path, "?") then '&' else '?') && loc[..|path|] == path
  {
  }

  /** A body can follow neither a redirect nor another body. */
  lemma NoBodyAfterRedirect<J>(c: Ctx<J>, path: string, query: Option<seq<(string, RedirectValue)>>,
                               status: Option<int>, enc: string -> string, content: string)
    requires !c.timedOut && c.state == Open
    requires Redirect(c, path, query, status, enc).Ok?
    ensures Html(Redirect(c, path, query, status, enc).value, content)
         == Err(SystemErr(InternalServerErr, DoubleResponseMessage))
  {
  }

  lemma NoSecondBody<J>(c: Ctx<J>, first: string, second: string)
    requires !c.timedOut && c.state == Open
    ensures Html(c, first).Ok?
    ensures TextOut(Html(c, first).value, second) == Err(SystemErr(InternalServerErr, DoubleResponseMessage))
  {
  }

  /** Once streaming, status, headers and bodies are all refused. */
  lemma StreamingClosesResponse<J>(c: Ctx<J>, s: nat, code: int, name: string, value: string, content: string)
    requires !c.timedOut && Stream(c, s).Ok?
    ensures SetStatus(Stream(c, s).value, code) == Err(SystemErr(HeadersAlreadySent, StreamingMessage))
    ensures SetHeader(Stream(c, s).value, name, value) == Err(SystemErr(HeadersAlreadySent, StreamingMessage))
    ensures Html(Stream(c, s).value, content) == Err(SystemErr(HeadersAlreadySent, StreamingMessage))
  {
  }

  // ---------------------------------------------------------------------
  // Body parsing

  /** `enforceKnownTypeMismatch`: a JSON, form or multipart Content-Type
      must match the expected type; a TEXT read accepts any. */
  function KnownMismatch(expected: BodyType, ct: string): (r: Option<Failure>)
    ensures r.Some? <==> (expected != TextBody && (
      || (Includes(ct, JsonType) && expected != JsonBody)
      || (Includes(ct, FormType) && expected != FormBody)
      || (Includes(ct, MultipartType) && expected != MultipartBody)))
    ensures Includes(ct, JsonType) && expected !in {TextBody, JsonBody} ==> r == Some(ParseFailure("Unexpected JSON data"))
    ensures r.Some? ==> r.value.SystemErr? && r.value.code == BodyParsingFailed
  {
    if expected == TextBody then None
    else if Includes(ct, JsonType) && expected != JsonBody then Some(ParseFailure("Unexpected JSON data"))
    else if Includes(ct, FormType) && expected != FormBody then Some(ParseFailure("Unexpected FORM data"))
    else if Includes(ct, MultipartType) && expected != MultipartBody then Some(ParseFailure("Unexpected MULTIPART_FORM data"))
    else None
  }

  /** `parseBody(expected, { strict, formMode })`: the strict check, the
      known-mismatch check, then the read; only the body cache changes. */
  function ParseBody<J>(c: Ctx<J>, expected: BodyType, strict: bool, style: FormStyle,
                        json: string -> Result<J, string>, pairs: string -> Href.Pairs): (r: (Ctx<J>, Result<Parsed<J>, Failure>))
    ensures r.0 == c.(body := r.0.body)
    ensures StrictCheck(expected, strict, ContentType(BodyRequest(c.req))).Some? ==>
      r == (c, Err(StrictCheck(expected, strict, ContentType(BodyRequest(c.req))).value))
    ensures (StrictCheck(expected, strict, ContentType(BodyRequest(c.req))).None?
         && KnownMismatch(expected, ContentType(BodyRequest(c.req))).Some?) ==>
      r == (c, Err(KnownMismatch(expected, ContentType(BodyRequest(c.req))).value))
    ensures r.1.Ok? ==> (KnownMismatch(expected, ContentType(BodyRequest(c.req))).None?
      && StrictCheck(expected, strict, ContentType(BodyRequest(c.req))).None?)
    ensures Moves(c.body, Outcome(r.0.body, r.1))
  {
    var req := BodyRequest(c.req);
    var ct := ContentType(req);
    match StrictCheck(expected, strict, ct)
    case Some(e) => (c, Err(e))
    case None =>
      match KnownMismatch(expected, ct)
      case Some(e) => (c, Err(e))
      case None =>
        var o := ParseAfterChecks(c.body, req, expected, style, json, pairs);
        (c.(body := o.state), o.result)
  }

  /** A body read as JSON cannot be read as a form, and the reverse. */
  lemma JsonAndFormExclude<J>(c: Ctx<J>, strict: bool, style: FormStyle,
                              json: string -> Result<J, string>, pairs: string -> Href.Pairs)
    ensures c.body.mode == JsonMode ==> ParseBody(c, FormBody, strict, style, json, pairs).1.Err?
    ensures c.body.mode == FormMode ==> ParseBody(c, JsonBody, strict, style, json, pairs).1.Err?
  {
    var req := BodyRequest(c.req);
    if c.body.mode == JsonMode {
      JsonFormCrossRead(c.body, req, FormBody, style, json, pairs);
    } else if c.body.mode == FormMode {
      JsonFormCrossRead(c.body, req, JsonBody, style, json, pairs);
    }
  }

  /** After a MULTIPART read of the request, every other read fails. */
  lemma MultipartFinalInContext<J>(c: Ctx<J>, expected: BodyType, strict: bool, style: FormStyle,
                                   json: string -> Result<J, string>, pairs: string -> Href.Pairs)
    requires Coherent(c.body, BodyRequest(c.req)) && c.body.mode == MultipartMode && expected != MultipartBody
    ensures ParseBody(c, expected, strict, style, json, pairs).1.Err?
  {
    var req := BodyRequest(c.req);
    if StrictCheck(expected, strict, ContentType(req)).None? && KnownMismatch(expected, ContentType(req)).None? {
      MultipartIsFinal(c.body, req, expected, style, json, pairs);
    }
  }

  /** A MULTIPART read after the body was read as text fails and leaves the
      context as it was: with the runtime's error once the content-type
      checks pass, since the used body is read again. */
  lemma MultipartAfterReadInContext<J>(c: Ctx<J>, strict: bool, style: FormStyle,
                                       json: string -> Result<J, string>, pairs: string -> Href.Pairs)
    requires Coherent(c.body, BodyRequest(c.req)) && c.body.raw.Some? && c.req.hasBody
    ensures var r := ParseBody(c, MultipartBody, strict, style, json, pairs);
      r.0 == c && r.1.Err?
    ensures var ct := ContentType(BodyRequest(c.req));
      StrictCheck(MultipartBody, strict, ct).None? && KnownMismatch(MultipartBody, ct).None? ==>
        ParseBody(c, MultipartBody, strict, style, json, pairs) == (c, Err(BodyUsed))
  {
    var req := BodyRequest(c.req);
    if StrictCheck(MultipartBody, strict, ContentType(req)).None? && KnownMismatch(MultipartBody, ContentType(req)).None? {
      MultipartAfterReadFails(c.body, req, style, json, pairs);
      assert c.(body := c.body) == c;
    }
  }

  /** A context's reads keep its cache coherent with its request. */
  lemma ParseBodyKeepsCoherent<J>(c: Ctx<J>, expected: BodyType, strict: bool, style: FormStyle,
                                  json: string -> Result<J, string>, pairs: string -> Href.Pairs)
    requires Coherent(c.body, BodyRequest(c.req))
    ensures Coherent(ParseBody(c, expected, strict, style, json, pairs).0.body, BodyRequest(c.req))
  {
    var req := BodyRequest(c.req);
    if StrictCheck(expected, strict, ContentType(req)).None? && KnownMismatch(expected, ContentType(req)).None? {
      ParseKeepsCoherent(c.body, req, expected, style, json, pairs);
    }
  }

  // ---------------------------------------------------------------------
  // Readers

  /** `getClientIP`: the first hop of X-Forwarded-For, else X-Real-IP,
      trimmed; "unknown" when neither has a value. */
  function ClientIP(v: H.RequestView): (ip: string)
    ensures (H.ViewGet(v, "x-forwarded-for") in {None, Some("")} && H.ViewGet(v, "x-real-ip") in {None, Some("")}) ==> ip == "unknown"
    ensures H.ViewGet(v, "x-forwarded-for") !in {None, Some("")} ==> ',' !in ip
    ensures H.ViewGet(v, "x-forwarded-for") in {None, Some("")} && H.ViewGet(v, "x-real-ip") !in {None, Some("")} ==>
      ip == Trim(H.ViewGet(v, "x-real-ip").value)
  {
    var xff := H.ViewGet(v, "x-forwarded-for");
    var xrip := H.ViewGet(v, "x-real-ip");
    if xff.Some? && xff.value != "" then
      var first := Split(xff.value, ',')[0];
      assert ',' !in first;
      Trim(first)
    else if xrip.Some? && xrip.value != "" then Trim(xrip.value)
    else "unknown"
  }

  /** With a proxy chain "client, proxy, ...", the client is reported. */
  lemma ClientIPFirstHop(v: H.RequestView, client: string, rest: string)
    requires ',' !in client
    requires H.ViewGet(v, "x-forwarded-for") == Some(client + "," + rest)
    ensures ClientIP(v) == Trim(client)
  {
    var s := client + "," + rest;
    assert s[..|client|] == client;
    IndexOfCharIs(s, ',', |client|);
    SplitAt(s, ',', |client|);
  }

  /** `segments`: the path's non-empty parts between slashes. */
  function Segments<J>(c: Ctx<J>): (segs: seq<string>)
    ensures forall i :: 0 <= i < |segs| ==> segs[i] != "" && '/' !in segs[i]
    ensures forall p :: p in segs <==> p != "" && p in Split(c.path, '/')
  {
    Text.Segments(c.path, '/')
  }

  /** A path "/a/b/c" gives back its segments ["a", "b", "c"]. */
  lemma SegmentsOfPath<J>(c: Ctx<J>, ss: seq<string>)
    requires forall i :: 0 <= i < |ss| ==> ss[i] != "" && '/' !in ss[i]
    requires c.path == "/" + Join(ss, "/")
    ensures Segments(c) == ss
  {
    SegmentsOfRooted(ss, '/');
  }

  /** `isWsRoute`. */
  predicate IsWsRoute<J>(c: Ctx<J>) {
    c.ws.Some?
  }

  const NoWsMessage := "WebSocket context is not available. Are you calling c.ws() from a non-WS route/middleware?"

  /** `ws()`: the WebSocket context, or an error on a plain HTTP route. */
  function Ws<J>(c: Ctx<J>): (r: Result<nat, Failure>)
    ensures r.Ok? <==> IsWsRoute(c)
    ensures r.Ok? ==> r.value == c.ws.value
    ensures r.Err? ==> r.error == SystemErr(InternalServerErr, NoWsMessage)
  {
    if c.ws.Some? then Ok(c.ws.value) else Err(SystemErr(InternalServerErr, NoWsMessage))
  }

  /** A registered singleton: the constructor it was registered under and
      the class name, if any. */
  datatype GlobalKey = ByCtor(ctor: nat) | ByName(name: string)

  /** `getGlobal(Type)`: by constructor first, then by class name; an
      error when no registry is attached or neither is registered. */
  function GetGlobal<V>(registry: Option<map<GlobalKey, V>>, ctor: nat, name: Option<string>): (r: Result<V, Failure>)
    ensures registry.None? ==> r.Err?
    ensures registry.Some? && ByCtor(ctor) in registry.value ==> r == Ok(registry.value[ByCtor(ctor)])
    ensures (registry.Some? && ByCtor(ctor) !in registry.value && name.Some? && name.value != ""
         && ByName(name.value) in registry.value) ==> r == Ok(registry.value[ByName(name.value)])
    ensures r.Err? && registry.Some? ==>
      r.error == SystemErr(InternalServerErr, "Global injectable not registered: " + name.GetOr("UnknownType"))
  {
    match registry
    case None => Err(SystemErr(InternalServerErr, "Global registry not available on context (did Xerus attach it?)"))
    case Some(g) =>
      if ByCtor(ctor) in g then Ok(g[ByCtor(ctor)])
      else if name.Some? && name.value != "" && ByName(name.value) in g then Ok(g[ByName(name.value)])
      else Err(SystemErr(InternalServerErr, "Global injectable not registered: " + name.GetOr("UnknownType")))
  }

  // ---------------------------------------------------------------------
  // Cookies

  /** The options `setCookie` fills in: Path "/", HttpOnly, SameSite Lax,
      and Secure exactly on an https URL. */
  function WithCookieDefaults(o: Cookies.Options, https: bool): (d: Cookies.Options)
    ensures d.path.Some? && d.httpOnly.Some? && d.sameSite.Some? && d.secure.Some?
    ensures d.domain == o.domain && d.maxAge == o.maxAge && d.expires == o.expires
  {
    o.(path := Some(o.path.GetOr("/")), httpOnly := Some(o.httpOnly.GetOr(true)),
       sameSite := Some(o.sameSite.GetOr("Lax")), secure := Some(o.secure.GetOr(https)))
  }

  /** Left unset, Secure follows the request's scheme. */
  lemma SecureFollowsScheme(o: Cookies.Options, https: bool)
    requires o.secure.None?
    ensures Cookies.Attr(Cookies.SecureAttr, None) in Cookies.SetCookieAttrs(WithCookieDefaults(o, https)) <==> https
  {
    var d := WithCookieDefaults(o, https);
    if https {
      Cookies.Carried(d, Cookies.SecureAttr);
    }
  }

  /** `setCookie(name, value, options)`: one more Set-Cookie line with the
      defaults filled in; `https` is whether the URL's scheme is https. */
  function SetCookie<J>(c: Ctx<J>, name: string, value: string, o: Cookies.Options, https: bool,
                        encode: string -> Option<string>): (r: Result<Ctx<J>, Failure>)
    ensures c.timedOut ==> r == Ok(c)
    ensures r.Err? <==> ConfigurableCheck(c).Some?
    ensures r.Ok? && !c.timedOut ==> (OnlyResponse(c, r.value) && r.value.state == c.state
      && r.value.res.jar.lines == c.res.jar.lines + [Cookies.SerializeSetCookie(name, value, WithCookieDefaults(o, https), encode)])
  {
    if c.timedOut then Ok(c)
    else match ConfigurableCheck(c)
      case Some(e) => Err(e)
      case None => Ok(c.(res := c.res.(jar := Cookies.SetCookie(c.res.jar, name, value, WithCookieDefaults(o, https), encode))))
  }

  /** `clearCookie(name, path = "/", domain?)`. */
  function ClearCookie<J>(c: Ctx<J>, name: string, path: Option<string>, domain: Option<string>,
                          encode: string -> Option<string>): (r: Result<Ctx<J>, Failure>)
    ensures c.timedOut ==> r == Ok(c)
    ensures r.Err? <==> ConfigurableCheck(c).Some?
    ensures r.Ok? && !c.timedOut ==> (OnlyResponse(c, r.value) && r.value.state == c.state
      && r.value.res.jar.lines == c.res.jar.lines + [Cookies.SerializeSetCookie(name, "", Cookies.ClearOptions(Some(path.GetOr("/")), domain), encode)])
  {
    if c.timedOut then Ok(c)
    else match ConfigurableCheck(c)
      case Some(e) => Err(e)
      case None => Ok(c.(res := c.res.(jar := Cookies.Clear(c.res.jar, name, Some(path.GetOr("/")), domain, encode))))
  }

  /** After a timeout every writer leaves the context as it is. */
  lemma TimedOutIgnoresWrites<J>(c: Ctx<J>, code: int, name: string, value: string, content: string, s: nat)
    requires c.timedOut
    ensures SetStatus(c, code) == Ok(c) && SetHeader(c, name, value) == Ok(c) && AppendHeader(c, name, value) == Ok(c)
    ensures Html(c, content) == Ok(c) && TextOut(c, content) == Ok(c) && Json(c, content) == Ok(c) && Stream(c, s) == Ok(c)
  {
  }
}
