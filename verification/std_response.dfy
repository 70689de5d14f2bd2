/** The functional response writers of src/std/Response.ts. They share
    the context's guards but not its early return after a timeout: the
    guards pass then, and the write still happens. Header errors name the
    field after a colon, a status may come with a body writer, and a
    redirect's query goes through `href`. */
module StdResponse {
  import opened Wrappers
  import opened Text
  import opened SystemErrors
  import opened HttpContext
  import H = Headers
  import Cookies
  import Href

  function InvalidHeader(name: string): string {
    "Attempted to set invalid header: " + name
  }

  /** `setStatus(c, code)` (and `status`). */
  function SetStatus<J>(c: Ctx<J>, code: int): (r: Result<Ctx<J>, Failure>)
    ensures r.Err? <==> ConfigurableCheck(c).Some?
    ensures r.Ok? ==> OnlyResponse(c, r.value) && r.value.state == c.state && r.value.res == c.res.(status := code)
  {
    match ConfigurableCheck(c)
    case Some(e) => Err(e)
    case None => Ok(c.(res := c.res.(status := code)))
  }

  /** After a timeout the context's writer does nothing; this one writes. */
  lemma TimeoutStillWrites<J>(c: Ctx<J>, code: int)
    requires c.timedOut && c.res.status != code
    ensures HttpContext.SetStatus(c, code) == Ok(c)
    ensures SetStatus(c, code).Ok? && SetStatus(c, code).value.res.status == code
  {
  }

  /** `setHeader(c, name, value)`. */
  function SetHeader<J>(c: Ctx<J>, name: string, value: string): (r: Result<Ctx<J>, Failure>)
    ensures r.Err? <==> ConfigurableCheck(c).Some? || HasLineBreak(value)
    ensures r.Err? && ConfigurableCheck(c).None? ==> r.error == SystemErr(InternalServerErr, InvalidHeader(name))
    ensures r.Ok? ==> OnlyResponse(c, r.value) && r.value.state == c.state && H.Get(r.value.res.headers, name) == Some(value)
  {
    match ConfigurableCheck(c)
    case Some(e) => Err(e)
    case None =>
      if HasLineBreak(value) then Err(SystemErr(InternalServerErr, InvalidHeader(name)))
      else
        H.SetThenRead(c.res.headers, name, value, name);
        Ok(c.(res := c.res.(headers := H.Set(c.res.headers, name, value))))
  }

  /** `appendHeader(c, name, value)`. */
  function AppendHeader<J>(c: Ctx<J>, name: string, value: string): (r: Result<Ctx<J>, Failure>)
    ensures r.Err? <==> ConfigurableCheck(c).Some? || HasLineBreak(value)
    ensures r.Err? && ConfigurableCheck(c).None? ==> r.error == SystemErr(InternalServerErr, InvalidHeader(name))
    ensures r.Ok? ==> (OnlyResponse(c, r.value) && r.value.state == c.state
      && H.GetAll(r.value.res.headers, name) == H.GetAll(c.res.headers, name) + [value])
  {
    match ConfigurableCheck(c)
    case Some(e) => Err(e)
    case None =>
      if HasLineBreak(value) then Err(SystemErr(InternalServerErr, InvalidHeader(name)))
      else
        H.AppendThenRead(c.res.headers, name, value, name);
        Ok(c.(res := c.res.(headers := H.Append(c.res.headers, name, value))))
  }

  /** The value the last of `hs` naming the same field as `name` gives. */
  function LastFor(hs: seq<(string, string)>, name: string): Option<string>
    decreases |hs|
  {
    if hs == [] then None
    else if LastFor(hs[1..], name).Some? then LastFor(hs[1..], name)
    else if H.SameField(hs[0].0, name) then Some(hs[0].1)
    else None
  }

  predicate NoLineBreaks(hs: seq<(string, string)>) {
    forall i :: 0 <= i < |hs| ==> !HasLineBreak(hs[i].1)
  }

  /** A run of `setHeader` calls, in order, stopping at the first failure.
      Each field ends with the last value written to it; fields not named
      keep their values; nothing but the headers changes. */
  function SetHeaders<J>(c: Ctx<J>, hs: seq<(string, string)>): (r: Result<Ctx<J>, Failure>)
    ensures hs == [] ==> r == Ok(c)
    ensures r.Err? <==> hs != [] && (ConfigurableCheck(c).Some? || !NoLineBreaks(hs))
    ensures r.Ok? ==> r.value == c.(res := c.res.(headers := r.value.res.headers))
    ensures r.Ok? ==> forall n :: LastFor(hs, n).Some? ==> H.Get(r.value.res.headers, n) == LastFor(hs, n)
    ensures r.Ok? ==> forall n :: LastFor(hs, n).None? ==> H.GetAll(r.value.res.headers, n) == H.GetAll(c.res.headers, n)
    decreases |hs|
  {
    if hs == [] then Ok(c)
    else
      match SetHeader(c, hs[0].0, hs[0].1)
      case Err(e) => Err(e)
      case Ok(c1) =>
        var r := SetHeaders(c1, hs[1..]);
        SetHeadersStep(c, hs, c1, r);
        r
  }

  /** The inductive step of `SetHeaders`: one write, then the rest. */
  lemma SetHeadersStep<J>(c: Ctx<J>, hs: seq<(string, string)>, c1: Ctx<J>, r: Result<Ctx<J>, Failure>)
    requires hs != [] && SetHeader(c, hs[0].0, hs[0].1) == Ok(c1)
    requires r.Err? <==> hs[1..] != [] && (ConfigurableCheck(c1).Some? || !NoLineBreaks(hs[1..]))
    requires r.Ok? ==> r.value == c1.(res := c1.res.(headers := r.value.res.headers))
    requires r.Ok? ==> forall n :: LastFor(hs[1..], n).Some? ==> H.Get(r.value.res.headers, n) == LastFor(hs[1..], n)
    requires r.Ok? ==> forall n :: LastFor(hs[1..], n).None? ==> H.GetAll(r.value.res.headers, n) == H.GetAll(c1.res.headers, n)
    ensures r.Err? <==> ConfigurableCheck(c).Some? || !NoLineBreaks(hs)
    ensures r.Ok? ==> r.value == c.(res := c.res.(headers := r.value.res.headers))
    ensures r.Ok? ==> forall n :: LastFor(hs, n).Some? ==> H.Get(r.value.res.headers, n) == LastFor(hs, n)
    ensures r.Ok? ==> forall n :: LastFor(hs, n).None? ==> H.GetAll(r.value.res.headers, n) == H.GetAll(c.res.headers, n)
  {
    assert c1 == c.(res := c.res.(headers := H.Set(c.res.headers, hs[0].0, hs[0].1)));
    assert ConfigurableCheck(c1) == ConfigurableCheck(c);
    assert NoLineBreaks(hs) <==> !HasLineBreak(hs[0].1) && NoLineBreaks(hs[1..]) by {
      assert forall i :: 1 <= i < |hs| ==> hs[i] == hs[1..][i - 1];
    }
    if r.Ok? {
      forall n | LastFor(hs, n).Some?
        ensures H.Get(r.value.res.headers, n) == LastFor(hs, n)
      {
        if LastFor(hs[1..], n).None? {
          H.SetThenRead(c.res.headers, hs[0].0, hs[0].1, n);
          assert H.GetAll(r.value.res.headers, n) == [hs[0].1];
        }
      }
      forall n | LastFor(hs, n).None?
        ensures H.GetAll(r.value.res.headers, n) == H.GetAll(c.res.headers, n)
      {
        H.SetThenRead(c.res.headers, hs[0].0, hs[0].1, n);
      }
    }
  }

  /** The shared writer: the body guard, the Content-Type when `mime` is
      given, the optional status, the body, and a finished response. */
  function Write<J>(c: Ctx<J>, mime: Option<string>, code: Option<int>, p: Payload): (r: Result<Ctx<J>, Failure>)
    requires mime.Some? ==> !HasLineBreak(mime.value)
    ensures r.Err? <==> BodyCheck(c).Some?
    ensures r.Err? ==> r.error == BodyCheck(c).value
    ensures r.Ok? ==> OnlyResponse(c, r.value) && IsDone(r.value) && r.value.res.payload == p
    ensures r.Ok? ==> r.value.res.status == code.GetOr(c.res.status)
    ensures r.Ok? && mime.Some? ==> H.Get(r.value.res.headers, "Content-Type") == mime
    ensures r.Ok? && mime.None? ==> r.value.res.headers == c.res.headers
  {
    match BodyCheck(c)
    case Some(e) => Err(e)
    case None =>
      H.SetThenRead(c.res.headers, "Content-Type", mime.GetOr(""), "Content-Type");
      var headers := if mime.Some? then H.Set(c.res.headers, "Content-Type", mime.value) else c.res.headers;
      Ok(Finalize(c.(res := c.res.(headers := headers, status := code.GetOr(c.res.status), payload := p))))
  }

  /** `html(c, content, code?)`. */
  function Html<J>(c: Ctx<J>, content: string, code: Option<int>): (r: Result<Ctx<J>, Failure>)
    ensures r.Err? <==> BodyCheck(c).Some?
    ensures r.Ok? ==> (IsDone(r.value) && r.value.res.payload == TextPayload(content)
      && r.value.res.status == code.GetOr(c.res.status)
      && H.Get(r.value.res.headers, "Content-Type") == Some(HtmlType))
  {
    Write(c, Some(HtmlType), code, TextPayload(content))
  }

  /** `text(c, content, code?)`: text/plain unless a Content-Type is set. */
  function TextOut<J>(c: Ctx<J>, content: string, code: Option<int>): (r: Result<Ctx<J>, Failure>)
    ensures r.Err? <==> BodyCheck(c).Some?
    ensures r.Ok? ==> IsDone(r.value) && r.value.res.payload == TextPayload(content)
    ensures r.Ok? && H.Get(c.res.headers, "Content-Type") in {None, Some("")} ==>
      H.Get(r.value.res.headers, "Content-Type") == Some(PlainType)
    ensures r.Ok? && H.Get(c.res.headers, "Content-Type") !in {None, Some("")} ==>
      r.value.res.headers == c.res.headers
  {
    var mime := if H.Get(c.res.headers, "Content-Type") in {None, Some("")} then Some(PlainType) else None;
    Write(c, mime, code, TextPayload(content))
  }

  /** `json(c, data, code?)`, `doc` being `JSON.stringify(data)`. */
  function Json<J>(c: Ctx<J>, doc: string, code: Option<int>): (r: Result<Ctx<J>, Failure>)
    ensures r.Err? <==> BodyCheck(c).Some?
    ensures r.Ok? ==> (IsDone(r.value) && r.value.res.payload == TextPayload(doc)
      && H.Get(r.value.res.headers, "Content-Type") == Some(JsonMime))
  {
    Write(c, Some(JsonMime), code, TextPayload(doc))
  }

  /** `errorJSON(c, status, code, message, extra)`. */
  function ErrorJson<J>(c: Ctx<J>, status: int, code: string, message: string, extra: Fields,
                        render: Fields -> string): (r: Result<Ctx<J>, Failure>)
    ensures r.Err? <==> BodyCheck(c).Some?
    ensures r.Ok? ==> (IsDone(r.value) && r.value.res.status == status
      && r.value.res.payload == TextPayload(render(ErrorObject(code, message, extra))))
  {
    Write(c, Some(JsonMime), Some(status), TextPayload(render(ErrorObject(code, message, extra))))
  }

  /** The context's and this `errorJSON` write the same response. */
  lemma ErrorJsonAgrees<J>(c: Ctx<J>, status: int, code: string, message: string, extra: Fields,
                           render: Fields -> string)
    requires !c.timedOut
    ensures HttpContext.ErrorJson(c, status, code, message, extra, render) == ErrorJson(c, status, code, message, extra, render)
  {
  }

  /** The query entries `redirect` hands to `href`: null and undefined
      single values dropped, arrays kept. */
  function DropNulls(query: seq<(string, Href.QueryValue)>): (r: seq<(string, Href.QueryValue)>)
    ensures forall i :: 0 <= i < |r| ==> r[i] in query && !(r[i].1.One? && !Href.Defined(r[i].1.p))
    ensures forall e :: e in query && !(e.1.One? && !Href.Defined(e.1.p)) ==> e in r
  {
    if |query| == 0 then []
    else
      var rest := DropNulls(query[1..]);
      var e := query[0];
      if e.1.One? && !Href.Defined(e.1.p) then rest else [e] + rest
  }

  const LocationMessage := "Redirect location contains invalid characters."

  /** The location `redirect` writes: the path as given, or `href` of it
      with the query (whose own check refuses a path with a line break). */
  function Location(path: string, query: Option<seq<(string, Href.QueryValue)>>,
                    parse: string -> Href.Pairs, enc: string -> string): (r: Result<string, Failure>)
    ensures query.None? ==> r == Ok(path)
    ensures query.Some? ==> (r.Err? <==> HasLineBreak(path))
    ensures query.Some? && r.Err? ==> r.error == PlainError(Href.NewlineMessage())
    ensures query.Some? && r.Ok? ==> r.value == Href.Href(path, DropNulls(query.value), parse, enc).value
  {
    match query
    case None => Ok(path)
    case Some(q) =>
      match Href.Href(path, DropNulls(q), parse, enc)
      case Err(m) => Err(PlainError(m))
      case Ok(loc) => Ok(loc)
  }

  /** `redirect(c, path, query?, status = 302)`. */
  function Redirect<J>(c: Ctx<J>, path: string, query: Option<seq<(string, Href.QueryValue)>>, status: Option<int>,
                       parse: string -> Href.Pairs, enc: string -> string): (r: Result<Ctx<J>, Failure>)
    ensures r.Err? <==> (ConfigurableCheck(c).Some? || Location(path, query, parse, enc).Err?
                         || HasLineBreak(Location(path, query, parse, enc).value))
    ensures r.Err? && ConfigurableCheck(c).None? && Location(path, query, parse, enc).Ok? ==>
      r.error == SystemErr(InternalServerErr, LocationMessage)
    ensures r.Ok? ==> ((
      && OnlyResponse(c, r.value) && IsDone(r.value)
      && r.value.res.status == status.GetOr(302)
      && H.Get(r.value.res.headers, "Location") == Some(Location(path, query, parse, enc).value)))
  {
    match ConfigurableCheck(c)
    case Some(e) => Err(e)
    case None =>
      var loc :- Location(path, query, parse, enc);
      if HasLineBreak(loc) then Err(SystemErr(InternalServerErr, LocationMessage))
      else
        H.SetThenRead(c.res.headers, "Location", loc, "Location");
        Ok(Finalize(c.(res := c.res.(status := status.GetOr(302), headers := H.Set(c.res.headers, "Location", loc)))))
  }

  /** A null value in a redirect's query is dropped before `href` sees it,
      so a key already in the path keeps its values — where `href` itself
      would remove them. */
  lemma {:induction false} NullKeepsExisting(path: string, k: string, p: Href.Prim, parse: string -> Href.Pairs)
    requires !Href.Defined(p)
    ensures DropNulls([(k, Href.One(p))]) == []
    ensures Href.Values(Href.Apply(parse(Href.ExistingQuery(path)), DropNulls([(k, Href.One(p))])), k)
         == Href.Values(parse(Href.ExistingQuery(path)), k)
    ensures Href.Values(Href.Apply(parse(Href.ExistingQuery(path)), [(k, Href.One(p))]), k) == []
  {
    var ps := parse(Href.ExistingQuery(path));
    var q := [(k, Href.One(p))];
    assert q[..|q| - 1] == [];
    assert Href.Apply(ps, q) == Href.ApplyEntry(Href.Apply(ps, []), k, Href.One(p));
  }

  /** `stream(c, s)`. */
  function Stream<J>(c: Ctx<J>, s: nat): (r: Result<Ctx<J>, Failure>)
    ensures r.Err? <==> ConfigurableCheck(c).Some?
    ensures r.Ok? ==> (r.value.state == Streaming && r.value.res.payload == StreamPayload(s)
      && H.Get(r.value.res.headers, "Content-Type") == Some(OctetStream))
  {
    match ConfigurableCheck(c)
    case Some(e) => Err(e)
    case None =>
      H.SetThenRead(c.res.headers, "Content-Type", OctetStream, "Content-Type");
      var headers := H.Set(c.res.headers, "Content-Type", OctetStream);
      Ok(c.(res := c.res.(headers := headers, payload := StreamPayload(s)), state := Streaming))
  }

  /** `file(c, path)`, with `found` the runtime's answer as for the
      context. */
  function File<J>(c: Ctx<J>, path: string, found: Option<string>): (r: Result<Ctx<J>, Failure>)
    ensures r.Err? <==> BodyCheck(c).Some? || found.None?
    ensures r.Err? && BodyCheck(c).None? ==> r.error == SystemErr(FileNotFound, "file does not exist at " + path)
    ensures r.Ok? ==> (IsDone(r.value) && r.value.res.payload == FilePayload(path)
      && H.Get(r.value.res.headers, "Content-Type") == Some(if found.value == "" then OctetStream else found.value))
  {
    match BodyCheck(c)
    case Some(e) => Err(e)
    case None =>
      match found
      case None => Err(SystemErr(FileNotFound, "file does not exist at " + path))
      case Some(mime) =>
        var t := if mime == "" then OctetStream else mime;
        H.SetThenRead(c.res.headers, "Content-Type", t, "Content-Type");
        Ok(Finalize(c.(res := c.res.(headers := H.Set(c.res.headers, "Content-Type", t), payload := FilePayload(path)))))
  }

  /** `setCookie(c, name, value, options?)`: the options as given, so the
      serialiser's defaults apply and Secure only when asked for. */
  function SetCookie<J>(c: Ctx<J>, name: string, value: string, o: Cookies.Options,
                        encode: string -> Option<string>): (r: Result<Ctx<J>, Failure>)
    ensures r.Err? <==> ConfigurableCheck(c).Some?
    ensures r.Ok? ==> (OnlyResponse(c, r.value) && r.value.state == c.state
      && r.value.res.jar.lines == c.res.jar.lines + [Cookies.SerializeSetCookie(name, value, o, encode)])
  {
    match ConfigurableCheck(c)
    case Some(e) => Err(e)
    case None => Ok(c.(res := c.res.(jar := Cookies.SetCookie(c.res.jar, name, value, o, encode))))
  }

  /** Unlike the context's writer, this one never adds Secure by itself. */
  lemma NoImplicitSecure(o: Cookies.Options)
    requires o.secure.None?
    ensures Cookies.Attr(Cookies.SecureAttr, None) !in Cookies.SetCookieAttrs(o)
  {
  }

  /** `clearCookie(c, name, { path, domain }?)`. */
  function ClearCookie<J>(c: Ctx<J>, name: string, path: Option<string>, domain: Option<string>,
                          encode: string -> Option<string>): (r: Result<Ctx<J>, Failure>)
    ensures r.Err? <==> ConfigurableCheck(c).Some?
    ensures r.Ok? ==> (OnlyResponse(c, r.value) && r.value.state == c.state
      && r.value.res.jar.lines == c.res.jar.lines + [Cookies.SerializeSetCookie(name, "", Cookies.ClearOptions(path, domain), encode)])
  {
    match ConfigurableCheck(c)
    case Some(e) => Err(e)
    case None => Ok(c.(res := c.res.(jar := Cookies.Clear(c.res.jar, name, path, domain, encode))))
  }
}
