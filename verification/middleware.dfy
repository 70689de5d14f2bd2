/** The ready-made middleware of src/Middleware.ts: `cors`, `requestId`,
    `rateLimit`, `csrf` and `compress`. Each middleware is a function
    from the context (and, for `rateLimit`, its bucket table) to a
    `Step`: the context or the error it throws, whether it calls `next`,
    and what it stores in `c.data`.

    The file reads request headers through `c.getHeader(name)` and
    cookies through `c.getCookie(name)`, which return reference objects
    (`HeaderRef`, `CookieRef`), and uses them as if they were the strings
    the references hold. `Reading` selects between the two: `AsWritten`
    sees the objects, `ByValue` the strings a `.get()` would give. The
    middleware the rest of the model uses read `ByValue`. */
module Middleware {
  import opened Wrappers
  import opened Text
  import opened SystemErrors
  import opened HttpContext
  import StdResponse
  import Cookies
  import H = Headers

  // ---------------------------------------------------------------------
  // JavaScript values as the middleware sees them

  /** What a read produces: null or undefined, a string, or an object. */
  datatype JsValue = Absent | Str(s: string) | RefObject

  predicate Truthy(v: JsValue) {
    v.RefObject? || (v.Str? && v.s != "")
  }

  /** `a || b`. */
  function Or(a: JsValue, b: JsValue): (r: JsValue)
    ensures Truthy(a) ==> r == a
    ensures !Truthy(a) ==> r == b
  {
    if Truthy(a) then a else b
  }

  /** `a === b` for two values read from the request: strings by
      content; two reads never return the same object. */
  predicate StrictEq(a: JsValue, b: JsValue) {
    (a.Str? && b.Str? && a.s == b.s) || (a.Absent? && b.Absent?)
  }

  /** `String(v)`. */
  function Show(v: JsValue): string {
    match v
    case Absent => "undefined"
    case Str(s) => s
    case RefObject => "[object Object]"
  }

  datatype Reading = AsWritten | ByValue

  function FromOption(o: Option<string>): (v: JsValue)
    ensures o.None? <==> v.Absent?
    ensures o.Some? ==> v == Str(o.value)
  {
    match o
    case None => Absent
    case Some(s) => Str(s)
  }

  /** `c.getHeader(name)`. */
  function HeaderRead<J>(c: Ctx<J>, name: string, how: Reading): JsValue {
    if how == AsWritten then RefObject else FromOption(H.ViewGet(c.req.headers, name))
  }

  /** The request cookie `name`, if there is one. */
  function CookieValue<J>(c: Ctx<J>, name: string, decode: string -> Option<string>): Option<string> {
    var m := Cookies.Parsed(c.res.jar.header, decode);
    if name in m then Some(m[name]) else None
  }

  /** `c.getCookie(name)`. */
  function CookieRead<J>(c: Ctx<J>, name: string, decode: string -> Option<string>, how: Reading): JsValue {
    if how == AsWritten then RefObject else FromOption(CookieValue(c, name, decode))
  }

  /** `c.getHeader(name) || c.getHeader(name.toLowerCase())`. */
  function EitherSpelling<J>(c: Ctx<J>, name: string, how: Reading): JsValue {
    Or(HeaderRead(c, name, how), HeaderRead(c, ToLower(name), how))
  }

  /** The non-empty request header under `name` or its lower-case
      spelling, if any. */
  function PresentedHeader<J>(c: Ctx<J>, name: string): (r: Option<string>)
    ensures r.Some? ==> r.value != ""
    ensures r.Some? ==> r == H.ViewGet(c.req.headers, name) || r == H.ViewGet(c.req.headers, ToLower(name))
  {
    var a := H.ViewGet(c.req.headers, name);
    var b := H.ViewGet(c.req.headers, ToLower(name));
    if a.Some? && a.value != "" then a else if b.Some? && b.value != "" then b else None
  }

  /** Read by value, the two-spelling header is the presented one. */
  lemma EitherSpellingByValue<J>(c: Ctx<J>, name: string)
    ensures Truthy(EitherSpelling(c, name, ByValue)) <==> PresentedHeader(c, name).Some?
    ensures Truthy(EitherSpelling(c, name, ByValue)) ==> EitherSpelling(c, name, ByValue) == Str(PresentedHeader(c, name).value)
  {
  }

  // ---------------------------------------------------------------------
  // Outcome of one middleware

  datatype Step<J> = Step(ctx: Result<Ctx<J>, Failure>, next: bool, data: seq<(string, JsValue)>)

  /** A run of the context's `setHeader` calls, stopping at the first
      failure. */
  function SetAll<J>(c: Ctx<J>, hs: seq<(string, string)>): (r: Result<Ctx<J>, Failure>)
    ensures c.timedOut ==> r == Ok(c)
    ensures !c.timedOut ==> (r.Ok? <==> StdResponse.SetHeaders(c, hs).Ok?)
    ensures !c.timedOut && r.Ok? ==> r.value == StdResponse.SetHeaders(c, hs).value
    decreases |hs|
  {
    if hs == [] then Ok(c)
    else
      match HttpContext.SetHeader(c, hs[0].0, hs[0].1)
      case Err(e) => Err(e)
      case Ok(c1) => SetAll(c1, hs[1..])
  }

  /** What `SetAll` promises, read off `StdResponse.SetHeaders`. */
  lemma SetAllReads<J>(c: Ctx<J>, hs: seq<(string, string)>)
    ensures !c.timedOut ==> (SetAll(c, hs).Err? <==> hs != [] && (ConfigurableCheck(c).Some? || !StdResponse.NoLineBreaks(hs)))
    ensures SetAll(c, hs).Ok? ==> SetAll(c, hs).value == c.(res := c.res.(headers := SetAll(c, hs).value.res.headers))
    ensures SetAll(c, hs).Ok? && !c.timedOut ==> (forall n :: StdResponse.LastFor(hs, n).Some? ==>
      H.Get(SetAll(c, hs).value.res.headers, n) == StdResponse.LastFor(hs, n))
  {
  }

  // ---------------------------------------------------------------------
  // cors

  datatype CorsOptions = CorsOptions(origin: Option<string>, methods: Option<seq<string>>,
                                     headers: Option<seq<string>>, credentials: Option<bool>)

  const CorsDefaultMethods := "GET, POST, PUT, DELETE, PATCH, OPTIONS"
  const CorsDefaultHeaders := "Content-Type, Authorization"

  /** `list?.join(", ") || fallback`. */
  function JoinedOr(list: Option<seq<string>>, fallback: string): string {
    if list.Some? && Join(list.value, ", ") != "" then Join(list.value, ", ") else fallback
  }

  /** The Allow-Origin value: the configured origin, or "*" that a
      credentialed request turns into its own Origin. */
  function CorsOrigin<J>(c: Ctx<J>, o: CorsOptions, how: Reading): JsValue {
    var origin := if o.origin.Some? && o.origin.value != "" then o.origin.value else "*";
    var reqOrigin := HeaderRead(c, "Origin", how);
    if o.credentials == Some(true) && origin == "*" && Truthy(reqOrigin) then reqOrigin else Str(origin)
  }

  /** The header writes, in order. */
  function CorsPlan<J>(c: Ctx<J>, o: CorsOptions, how: Reading): seq<(string, string)> {
    (if o.credentials == Some(true) then [("Access-Control-Allow-Credentials", "true")] else [])
    + [("Access-Control-Allow-Origin", Show(CorsOrigin(c, o, how))),
       ("Access-Control-Allow-Methods", JoinedOr(o.methods, CorsDefaultMethods)),
       ("Access-Control-Allow-Headers", JoinedOr(o.headers, CorsDefaultHeaders))]
  }

  function CorsWith<J>(c: Ctx<J>, o: CorsOptions, how: Reading): Step<J> {
    match SetAll(c, CorsPlan(c, o, how))
    case Err(e) => Step(Err(e), false, [])
    case Ok(c1) =>
      if c.verb == "OPTIONS" then
        match HttpContext.SetStatus(c1, 204)
        case Err(e) => Step(Err(e), false, [])
        case Ok(c2) => Step(HttpContext.TextOut(c2, ""), false, [])
      else Step(Ok(c1), true, [])
  }

  /** The origin `cors` answers with, stated from the request: a
      configured origin other than "*"; otherwise, with credentials, the
      request's non-empty Origin; otherwise "*". */
  function ExpectedOrigin<J>(c: Ctx<J>, o: CorsOptions): string {
    var req := H.ViewGet(c.req.headers, "Origin");
    if o.origin.Some? && o.origin.value != "" && o.origin.value != "*" then o.origin.value
    else if o.credentials == Some(true) && req.Some? && req.value != "" then req.value
    else "*"
  }

  /** The Allow-Origin field of the plan reads back as the origin value
      written. */
  lemma CorsPlanReads<J>(c: Ctx<J>, o: CorsOptions, how: Reading)
    ensures StdResponse.LastFor(CorsPlan(c, o, how), "Access-Control-Allow-Origin") == Some(Show(CorsOrigin(c, o, how)))
  {
    var hs := CorsPlan(c, o, how);
    var k := |hs| - 3;
    assert H.Norm("Access-Control-Allow-Origin")[21] != H.Norm("Access-Control-Allow-Methods")[21];
    assert H.Norm("Access-Control-Allow-Origin")[21] != H.Norm("Access-Control-Allow-Headers")[21];
    assert hs[k + 2..][1..] == [];
    assert hs[k + 1..][1..] == hs[k + 2..];
    assert hs[k..][1..] == hs[k + 1..];
    assert StdResponse.LastFor(hs[k + 2..], "Access-Control-Allow-Origin") == None;
    assert StdResponse.LastFor(hs[k + 1..], "Access-Control-Allow-Origin") == None;
    assert hs[k] == ("Access-Control-Allow-Origin", Show(CorsOrigin(c, o, how)));
    assert H.SameField("Access-Control-Allow-Origin", "Access-Control-Allow-Origin");
    assert StdResponse.LastFor(hs[k..], "Access-Control-Allow-Origin") == Some(Show(CorsOrigin(c, o, how)));
    if k == 1 {
      assert hs[1..] == hs[k..];
    }
  }

  /** `cors(options)`: OPTIONS is answered 204 with an empty body and
      stops the chain; any other method goes on to `next` with the CORS
      headers set. */
  function Cors<J>(c: Ctx<J>, o: CorsOptions): (r: Step<J>)
    ensures r.data == []
    ensures c.verb == "OPTIONS" ==> !r.next
    ensures c.verb == "OPTIONS" && r.ctx.Ok? && !c.timedOut ==>
      r.ctx.value.res.status == 204 && r.ctx.value.res.payload == TextPayload("") && IsDone(r.ctx.value)
    ensures c.verb != "OPTIONS" ==> (r.next <==> r.ctx.Ok?)
    ensures c.verb != "OPTIONS" && r.ctx.Ok? ==> r.ctx.value == c.(res := c.res.(headers := r.ctx.value.res.headers))
    ensures c.verb != "OPTIONS" && r.ctx.Ok? && !c.timedOut ==>
      H.Get(r.ctx.value.res.headers, "Access-Control-Allow-Origin") == Some(ExpectedOrigin(c, o))
  {
    SetAllReads(c, CorsPlan(c, o, ByValue));
    CorsPlanReads(c, o, ByValue);
    assert Show(CorsOrigin(c, o, ByValue)) == ExpectedOrigin(c, o);
    CorsWith(c, o, ByValue)
  }

  /** The origin `cors` allows as written: the Origin read is a header
      reference, which is truthy and prints as "[object Object]", so with
      credentials an unset or "*" origin becomes that text whatever the
      request sent. */
  function AsWrittenOrigin(o: CorsOptions): string {
    if o.origin.Some? && o.origin.value != "" && o.origin.value != "*" then o.origin.value
    else if o.credentials == Some(true) then "[object Object]"
    else "*"
  }

  /** As written: the same steps, allowing `AsWrittenOrigin`. */
  function CorsAsWritten<J>(c: Ctx<J>, o: CorsOptions): (r: Step<J>)
    ensures r.data == []
    ensures c.verb != "OPTIONS" ==> (r.next <==> r.ctx.Ok?)
    ensures c.verb != "OPTIONS" && r.ctx.Ok? && !c.timedOut ==>
      H.Get(r.ctx.value.res.headers, "Access-Control-Allow-Origin") == Some(AsWrittenOrigin(o))
  {
    SetAllReads(c, CorsPlan(c, o, AsWritten));
    CorsPlanReads(c, o, AsWritten);
    assert Show(CorsOrigin(c, o, AsWritten)) == AsWrittenOrigin(o);
    CorsWith(c, o, AsWritten)
  }

  /** A text none of whose characters is CR or LF has no line break. */
  lemma NoBreakChars(s: string)
    requires forall i :: 0 <= i < |s| ==> s[i] != '\r' && s[i] != '\n'
    ensures !HasLineBreak(s)
  {
  }

  /** The default methods and headers hold no line break. */
  lemma CorsDefaultsPlain()
    ensures !HasLineBreak(CorsDefaultMethods) && !HasLineBreak(CorsDefaultHeaders)
  {
    var m := CorsDefaultMethods;
    forall i | 0 <= i < |m| ensures m[i] != '\r' && m[i] != '\n' {}
    NoBreakChars(m);
    var h := CorsDefaultHeaders;
    forall i | 0 <= i < |h| ensures h[i] != '\r' && h[i] != '\n' {}
    NoBreakChars(h);
  }

  /** A credentialed GET carrying an Origin is allowed that origin by
      value and "[object Object]" as written. */
  lemma CorsAsWrittenAllowsObjectText<J>(c: Ctx<J>, origin: string)
    requires c.verb == "GET" && !c.timedOut && ConfigurableCheck(c).None?
    requires H.ViewGet(c.req.headers, "Origin") == Some(origin) && origin != "" && !HasLineBreak(origin)
    ensures var o := CorsOptions(None, None, None, Some(true));
      && Cors(c, o).ctx.Ok?
      && H.Get(Cors(c, o).ctx.value.res.headers, "Access-Control-Allow-Origin") == Some(origin)
      && CorsAsWritten(c, o).ctx.Ok?
      && H.Get(CorsAsWritten(c, o).ctx.value.res.headers, "Access-Control-Allow-Origin") == Some("[object Object]")
  {
    var o := CorsOptions(None, None, None, Some(true));
    CorsDefaultsPlain();
    var hv := CorsPlan(c, o, ByValue);
    var hw := CorsPlan(c, o, AsWritten);
    assert hv[1].1 == origin;
    assert StdResponse.NoLineBreaks(hv);
    assert StdResponse.NoLineBreaks(hw);
    SetAllReads(c, hv);
    SetAllReads(c, hw);
  }

  // ---------------------------------------------------------------------
  // requestId

  datatype RequestIdOptions = RequestIdOptions(headerName: Option<string>, storeKey: Option<string>)

  /** `incoming && incoming.length > 0`: a reference object has no
      `length`. */
  predicate NonEmptyText(v: JsValue) {
    v.Str? && |v.s| > 0
  }

  /** The id: the incoming one when it is a non-empty string, otherwise
      the generated one. */
  function ChosenId<J>(c: Ctx<J>, name: string, generated: string, how: Reading): JsValue {
    var incoming := EitherSpelling(c, name, how);
    if Truthy(incoming) && NonEmptyText(incoming) then incoming else Str(generated)
  }

  function RequestIdWith<J>(c: Ctx<J>, o: RequestIdOptions, generated: string, how: Reading): Step<J> {
    var name := o.headerName.GetOr("X-Request-Id");
    var id := ChosenId(c, name, generated, how);
    var r := HttpContext.SetHeader(c, name, Show(id));
    Step(r, r.Ok?, [(o.storeKey.GetOr("requestId"), id)])
  }

  /** `requestId(opts)`: the incoming id, or a generated one, is stored
      under the store key and echoed in the header. */
  function RequestId<J>(c: Ctx<J>, o: RequestIdOptions, generated: string): (r: Step<J>)
    ensures var name := o.headerName.GetOr("X-Request-Id");
      var id := if PresentedHeader(c, name).Some? then PresentedHeader(c, name).value else generated;
      && r.data == [(o.storeKey.GetOr("requestId"), Str(id))]
      && (r.next <==> r.ctx.Ok?)
      && (!c.timedOut ==> (r.ctx.Err? <==> c.state == Streaming || HasLineBreak(id)))
      && (r.ctx.Ok? && !c.timedOut ==> H.Get(r.ctx.value.res.headers, name) == Some(id))
  {
    var name := o.headerName.GetOr("X-Request-Id");
    EitherSpellingByValue(c, name);
    H.SetThenRead(c.res.headers, name, Show(ChosenId(c, name, generated, ByValue)), name);
    RequestIdWith(c, o, generated, ByValue)
  }

  /** As written: the incoming id is never used, since the header read is
      an object without a `length`. */
  function RequestIdAsWritten<J>(c: Ctx<J>, o: RequestIdOptions, generated: string): (r: Step<J>)
    ensures r.data == [(o.storeKey.GetOr("requestId"), Str(generated))]
  {
    RequestIdWith(c, o, generated, AsWritten)
  }

  /** A request that carries an id keeps it when read by value; as
      written it gets the generated one instead. */
  lemma RequestIdAsWrittenIgnoresIncoming<J>(c: Ctx<J>, incoming: string, generated: string)
    requires H.ViewGet(c.req.headers, "X-Request-Id") == Some(incoming) && incoming != "" && incoming != generated
    ensures RequestId(c, RequestIdOptions(None, None), generated).data == [("requestId", Str(incoming))]
    ensures RequestIdAsWritten(c, RequestIdOptions(None, None), generated).data != [("requestId", Str(incoming))]
  {
  }

  // ---------------------------------------------------------------------
  // rateLimit

  datatype Bucket = Bucket(count: int, resetAt: int)

  type Buckets = map<string, Bucket>

  datatype RateOptions = RateOptions(windowMs: int, max: int, message: Option<string>)

  /** The default key: the context's `getClientIP()`. */
  function DefaultKey<J>(c: Ctx<J>): string {
    HttpContext.ClientIP(c.req.headers)
  }

  /** `Math.ceil(a / d)` for a positive divisor. */
  function CeilDiv(a: int, d: int): (q: int)
    requires d > 0
    ensures (q - 1) * d < a <= q * d
  {
    -((-a) / d)
  }

  /** `Math.max(0, max - count)`. */
  function Remaining(max: int, count: int): (r: nat)
    ensures count <= max ==> r + count == max
    ensures count >= max ==> r == 0
  {
    if max - count > 0 then max - count else 0
  }

  /** `Math.max(0, Math.ceil((resetAt - now) / 1000))`: the whole seconds
      until the window ends, rounded up. */
  function RetryAfter(resetAt: int, now: int): (r: nat)
    ensures r * 1000 >= resetAt - now
    ensures r > 0 ==> (r - 1) * 1000 < resetAt - now
  {
    var q := CeilDiv(resetAt - now, 1000);
    if q > 0 then q else 0
  }

  /** One request under `key`: a missing bucket, or one whose window has
      reached its end (`now >= resetAt`), starts over. */
  function Bump(b: Buckets, key: string, now: int, windowMs: int): (r: Buckets)
    ensures key in r && r.Keys == b.Keys + {key}
    ensures key !in b || now >= b[key].resetAt ==> r[key] == Bucket(1, now + windowMs)
    ensures key in b && now < b[key].resetAt ==> r[key] == b[key].(count := b[key].count + 1)
    ensures forall k :: k in b && k != key ==> r[k] == b[k]
  {
    var bucket := if key !in b || now >= b[key].resetAt then Bucket(0, now + windowMs) else b[key];
    b[key := bucket.(count := bucket.count + 1)]
  }

  function RateHeaders(o: RateOptions, bucket: Bucket): seq<(string, string)> {
    [("X-RateLimit-Limit", IntToString(o.max)),
     ("X-RateLimit-Remaining", IntToString(Remaining(o.max, bucket.count))),
     ("X-RateLimit-Reset", IntToString(CeilDiv(bucket.resetAt, 1000)))]
  }

  /** `rateLimit(opts)`: the table after the request, and the step. A
      request over the limit gets Retry-After and a 429 and stops the
      chain. */
  function RateLimit<J>(c: Ctx<J>, o: RateOptions, b: Buckets, now: int, key: string,
                        render: Fields -> string): (out: (Buckets, Step<J>))
    ensures out.0 == Bump(b, key, now, o.windowMs)
    ensures out.1.data == []
    ensures var bucket := out.0[key];
      && (out.1.next <==> bucket.count <= o.max && out.1.ctx.Ok?)
      && (bucket.count <= o.max && out.1.ctx.Ok? ==>
            out.1.ctx.value == c.(res := c.res.(headers := out.1.ctx.value.res.headers)))
      && (bucket.count > o.max && out.1.ctx.Ok? && !c.timedOut ==>
            (IsDone(out.1.ctx.value) && out.1.ctx.value.res.status == 429
             && out.1.ctx.value.res.payload == TextPayload(render(ErrorObject("RATE_LIMITED", o.message.GetOr("Rate limit exceeded"),
                  [("retryAfterSec", IntToString(RetryAfter(bucket.resetAt, now)))])))))
  {
    var b' := Bump(b, key, now, o.windowMs);
    var bucket := b'[key];
    if bucket.count > o.max then
      var retry := IntToString(RetryAfter(bucket.resetAt, now));
      match SetAll(c, RateHeaders(o, bucket) + [("Retry-After", retry)])
      case Err(e) => (b', Step(Err(e), false, []))
      case Ok(c1) =>
        (b', Step(HttpContext.ErrorJson(c1, 429, "RATE_LIMITED", o.message.GetOr("Rate limit exceeded"),
                                        [("retryAfterSec", retry)], render), false, []))
    else
      var r := SetAll(c, RateHeaders(o, bucket));
      (b', Step(r, r.Ok?, []))
  }

  /** A run of requests under one key at the given times. */
  function Bumps(b: Buckets, key: string, times: seq<int>, windowMs: int): Buckets
    decreases |times|
  {
    if times == [] then b else Bumps(Bump(b, key, times[0], windowMs), key, times[1..], windowMs)
  }

  lemma {:induction false} BumpsCount(b: Buckets, key: string, times: seq<int>, windowMs: int)
    requires key in b
    requires forall i :: 0 <= i < |times| ==> times[i] < b[key].resetAt
    ensures var r := Bumps(b, key, times, windowMs);
      key in r && r[key] == b[key].(count := b[key].count + |times|)
    decreases |times|
  {
    if times != [] {
      BumpsCount(Bump(b, key, times[0], windowMs), key, times[1..], windowMs);
    }
  }

  /** After the first `i > 0` requests of a window, the bucket has
      counted `i`. */
  lemma OpenedBucket(b: Buckets, key: string, times: seq<int>, i: nat, windowMs: int)
    requires 0 < i <= |times|
    requires key !in b || times[0] >= b[key].resetAt
    requires forall j :: 0 <= j < |times| ==> times[j] < times[0] + windowMs
    ensures var r := Bumps(b, key, times[..i], windowMs);
      key in r && r[key] == Bucket(i, times[0] + windowMs)
  {
    var b1 := Bump(b, key, times[0], windowMs);
    var rest := times[1..i];
    assert times[..i] == [times[0]] + rest;
    assert Bumps(b, key, times[..i], windowMs) == Bumps(b1, key, rest, windowMs);
    assert forall j :: 0 <= j < |rest| ==> rest[j] == times[j + 1];
    BumpsCount(b1, key, rest, windowMs);
  }

  /** Within one window the first `max` requests go through and every
      later one is refused. */
  lemma MaxPerWindow<J>(c: Ctx<J>, o: RateOptions, b: Buckets, key: string, times: seq<int>, i: nat,
                        render: Fields -> string)
    requires i < |times|
    requires key !in b || times[0] >= b[key].resetAt
    requires forall j :: 0 <= j < |times| ==> times[j] < times[0] + o.windowMs
    ensures var out := RateLimit(c, o, Bumps(b, key, times[..i], o.windowMs), times[i], key, render);
      out.1.next ==> i < o.max
    ensures var out := RateLimit(c, o, Bumps(b, key, times[..i], o.windowMs), times[i], key, render);
      i < o.max ==> (out.1.next <==> out.1.ctx.Ok?)
  {
    if i == 0 {
      assert times[..0] == [];
    } else {
      OpenedBucket(b, key, times, i, o.windowMs);
    }
  }

  // ---------------------------------------------------------------------
  // csrf

  datatype CsrfOptions = CsrfOptions(cookieName: Option<string>, headerName: Option<string>,
                                     secureCookie: Option<bool>, sameSite: Option<string>, path: Option<string>,
                                     ignoreMethods: Option<seq<string>>, ensureCookieOnSafeMethods: Option<bool>)

  const NoCsrfOptions := CsrfOptions(None, None, None, None, None, None, None)

  const CsrfMessage := "CSRF token missing or invalid"

  /** The methods that skip the check, upper-cased. */
  function IgnoreSet(o: CsrfOptions): set<string> {
    set m | m in o.ignoreMethods.GetOr(["GET", "HEAD", "OPTIONS"]) :: ToUpper(m)
  }

  function CsrfCookieName(o: CsrfOptions): string { o.cookieName.GetOr("csrf_token") }

  function CsrfHeaderName(o: CsrfOptions): string { o.headerName.GetOr("x-csrf-token") }

  /** The issued cookie: script-readable, with the configured path,
      SameSite and Secure. */
  function CsrfCookie(o: CsrfOptions): Cookies.Options {
    Cookies.Options(Some(o.path.GetOr("/")), None, None, None, Some(false), o.secureCookie, Some(o.sameSite.GetOr("Lax")))
  }

  function CsrfWith<J>(c: Ctx<J>, o: CsrfOptions, generated: string, https: bool, decode: string -> Option<string>,
                       encode: string -> Option<string>, render: Fields -> string, how: Reading): Step<J> {
    var existing := CookieRead(c, CsrfCookieName(o), decode, how);
    if ToUpper(c.verb) in IgnoreSet(o) then
      if o.ensureCookieOnSafeMethods.GetOr(true) && !Truthy(existing) then
        var r := HttpContext.SetCookie(c, CsrfCookieName(o), generated, CsrfCookie(o), https, encode);
        Step(r, r.Ok?, if r.Ok? then [("csrfToken", Str(generated))] else [])
      else if Truthy(existing) then Step(Ok(c), true, [("csrfToken", existing)])
      else Step(Ok(c), true, [])
    else
      var headerToken := EitherSpelling(c, CsrfHeaderName(o), how);
      if !Truthy(existing) || !Truthy(headerToken) || !StrictEq(existing, headerToken) then
        Step(HttpContext.ErrorJson(c, 403, "CSRF_FAILED", CsrfMessage,
                                   [("cookieName", CsrfCookieName(o)), ("headerName", CsrfHeaderName(o))], render), false, [])
      else Step(Ok(c), true, [("csrfToken", existing)])
  }

  /** Whether an unsafe request proves it can read the cookie: both
      tokens present, non-empty and equal. */
  predicate TokensMatch<J>(c: Ctx<J>, o: CsrfOptions, decode: string -> Option<string>) {
    var cookie := CookieValue(c, CsrfCookieName(o), decode);
    cookie.Some? && cookie.value != "" && PresentedHeader(c, CsrfHeaderName(o)) == cookie
  }

  /** `csrf(opts)`: ignored methods pass (issuing the cookie when it is
      missing); any other method passes exactly when the tokens match,
      and is otherwise answered 403 CSRF_FAILED. */
  function Csrf<J>(c: Ctx<J>, o: CsrfOptions, generated: string, https: bool, decode: string -> Option<string>,
                   encode: string -> Option<string>, render: Fields -> string): (r: Step<J>)
    ensures ToUpper(c.verb) in IgnoreSet(o) ==> (r.next <==> r.ctx.Ok?)
    ensures ToUpper(c.verb) in IgnoreSet(o) && r.ctx.Ok? && !c.timedOut
            && o.ensureCookieOnSafeMethods.GetOr(true)
            && CookieValue(c, CsrfCookieName(o), decode) in {None, Some("")} ==>
      r.ctx.value.res.jar.lines == c.res.jar.lines
        + [Cookies.SerializeSetCookie(CsrfCookieName(o), generated, WithCookieDefaults(CsrfCookie(o), https), encode)]
    ensures ToUpper(c.verb) !in IgnoreSet(o) ==> (r.next <==> TokensMatch(c, o, decode))
    ensures ToUpper(c.verb) !in IgnoreSet(o) && TokensMatch(c, o, decode) ==> r.ctx == Ok(c)
    ensures ToUpper(c.verb) !in IgnoreSet(o) && !TokensMatch(c, o, decode) ==>
      (r.ctx.Err? <==> BodyCheck(c).Some?)
      && (r.ctx.Ok? && !c.timedOut ==> (r.ctx.value.res.status == 403 && IsDone(r.ctx.value)))
  {
    CsrfIgnored(c, o, generated, https, decode, encode, render);
    CsrfChecked(c, o, generated, https, decode, encode, render);
    CsrfWith(c, o, generated, https, decode, encode, render, ByValue)
  }

  /** An ignored method passes unless issuing the cookie fails, and issues
      it when the request has none. */
  lemma CsrfIgnored<J>(c: Ctx<J>, o: CsrfOptions, generated: string, https: bool, decode: string -> Option<string>,
                       encode: string -> Option<string>, render: Fields -> string)
    ensures ToUpper(c.verb) in IgnoreSet(o) ==> var r := CsrfWith(c, o, generated, https, decode, encode, render, ByValue);
      && (r.next <==> r.ctx.Ok?)
      && (r.ctx.Ok? && !c.timedOut && o.ensureCookieOnSafeMethods.GetOr(true)
          && CookieValue(c, CsrfCookieName(o), decode) in {None, Some("")} ==>
        r.ctx.value.res.jar.lines == c.res.jar.lines
          + [Cookies.SerializeSetCookie(CsrfCookieName(o), generated, WithCookieDefaults(CsrfCookie(o), https), encode)])
  {
  }

  /** Any other method passes exactly when the tokens match, and is
      otherwise answered 403. */
  lemma CsrfChecked<J>(c: Ctx<J>, o: CsrfOptions, generated: string, https: bool, decode: string -> Option<string>,
                       encode: string -> Option<string>, render: Fields -> string)
    ensures ToUpper(c.verb) !in IgnoreSet(o) ==> var r := CsrfWith(c, o, generated, https, decode, encode, render, ByValue);
      && (r.next <==> TokensMatch(c, o, decode))
      && (TokensMatch(c, o, decode) ==> r.ctx == Ok(c))
      && (!TokensMatch(c, o, decode) ==>
        (r.ctx.Err? <==> BodyCheck(c).Some?)
        && (r.ctx.Ok? && !c.timedOut ==> (r.ctx.value.res.status == 403 && IsDone(r.ctx.value))))
  {
    EitherSpellingByValue(c, CsrfHeaderName(o));
  }

  /** As written: every request outside the ignored methods is refused,
      and an ignored method never issues the cookie, passing the cookie
      reference itself on as `csrfToken`. */
  function CsrfAsWritten<J>(c: Ctx<J>, o: CsrfOptions, generated: string, https: bool, decode: string -> Option<string>,
                            encode: string -> Option<string>, render: Fields -> string): (r: Step<J>)
    ensures ToUpper(c.verb) !in IgnoreSet(o) ==> !r.next
    ensures ToUpper(c.verb) in IgnoreSet(o) ==> r == Step(Ok(c), true, [("csrfToken", RefObject)])
  {
    CsrfWith(c, o, generated, https, decode, encode, render, AsWritten)
  }

  /** A POST carrying the same token in cookie and header passes by
      value and is refused as written. */
  lemma CsrfAsWrittenRefusesMatchingTokens<J>(c: Ctx<J>, token: string, generated: string, https: bool,
                                              decode: string -> Option<string>, encode: string -> Option<string>,
                                              render: Fields -> string)
    requires c.verb == "POST" && token != ""
    requires CookieValue(c, "csrf_token", decode) == Some(token)
    requires H.ViewGet(c.req.headers, "x-csrf-token") == Some(token)
    ensures Csrf(c, NoCsrfOptions, generated, https, decode, encode, render).next
    ensures !CsrfAsWritten(c, NoCsrfOptions, generated, https, decode, encode, render).next
  {
    PostNotIgnored();
    EitherSpellingByValue(c, "x-csrf-token");
  }

  /** A GET without the cookie: the intended version issues it, the
      version as written leaves the context as it was. */
  lemma CsrfAsWrittenNeverIssues<J>(c: Ctx<J>, generated: string, https: bool, decode: string -> Option<string>,
                                    encode: string -> Option<string>, render: Fields -> string)
    requires c.verb == "GET" && !c.timedOut && CookieValue(c, "csrf_token", decode).None?
    requires Csrf(c, NoCsrfOptions, generated, https, decode, encode, render).ctx.Ok?
    ensures Csrf(c, NoCsrfOptions, generated, https, decode, encode, render).ctx.value.res.jar.lines
         == c.res.jar.lines + [Cookies.SerializeSetCookie("csrf_token", generated,
                                 WithCookieDefaults(CsrfCookie(NoCsrfOptions), https), encode)]
    ensures CsrfAsWritten(c, NoCsrfOptions, generated, https, decode, encode, render).ctx == Ok(c)
  {
    GetIgnored();
  }

  /** GET skips the check under the default options. */
  lemma GetIgnored()
    ensures ToUpper("GET") in IgnoreSet(NoCsrfOptions)
  {
    assert ToUpper("GET") == "GET";
    assert "GET" in ["GET", "HEAD", "OPTIONS"];
  }

  /** POST is checked under the default options. */
  lemma PostNotIgnored()
    ensures ToUpper("POST") !in IgnoreSet(NoCsrfOptions)
  {
    assert ToUpper("POST") == "POST";
    forall m | m in ["GET", "HEAD", "OPTIONS"]
      ensures ToUpper(m) != "POST"
    {
      if m == "HEAD" {
        assert ToUpper(m)[0] == 'H';
      } else {
        assert |ToUpper(m)| != 4;
      }
    }
  }

  /** The method is compared upper-cased: a lower-case spelling is
      treated like the upper-case one. */
  lemma CsrfMethodCase<J>(c: Ctx<J>, o: CsrfOptions, generated: string, https: bool, decode: string -> Option<string>,
                          encode: string -> Option<string>, render: Fields -> string)
    ensures Csrf(c, o, generated, https, decode, encode, render).data
         == Csrf(c.(verb := ToUpper(c.verb)), o, generated, https, decode, encode, render).data
    ensures Csrf(c, o, generated, https, decode, encode, render).next
         == Csrf(c.(verb := ToUpper(c.verb)), o, generated, https, decode, encode, render).next
  {
    CaseMappingIdempotent(c.verb);
  }

  // ---------------------------------------------------------------------
  // compress

  datatype CompressOptions = CompressOptions(thresholdBytes: Option<int>, preferBrotli: Option<bool>)

  /** `pickEncoding(accept)`. */
  function PickEncoding(accept: string, preferBrotli: bool): (r: Option<string>)
    ensures r == Some("br") <==> preferBrotli && Includes(ToLower(accept), "br")
    ensures r == Some("gzip") <==> !(preferBrotli && Includes(ToLower(accept), "br")) && Includes(ToLower(accept), "gzip")
    ensures r.None? <==> !(preferBrotli && Includes(ToLower(accept), "br")) && !Includes(ToLower(accept), "gzip")
  {
    var a := ToLower(accept);
    if preferBrotli && Includes(a, "br") then Some("br")
    else if Includes(a, "gzip") then Some("gzip")
    else None
  }

  /** The choice does not depend on the header's letter case. */
  lemma PickEncodingIgnoresCase(accept: string, preferBrotli: bool)
    ensures PickEncoding(ToLower(accept), preferBrotli) == PickEncoding(accept, preferBrotli)
  {
    CaseMappingIdempotent(accept);
  }

  /** The UTF-8 length of a code unit. */
  function Utf8Width(ch: char): (n: nat)
    ensures 1 <= n <= 4
  {
    if ch as int < 0x80 then 1 else if ch as int < 0x800 then 2 else if ch as int < 0x10000 then 3 else 4
  }

  /** `new TextEncoder().encode(s).byteLength`. */
  function Utf8Length(s: string): (n: nat)
    ensures |s| <= n <= 4 * |s|
  {
    if s == [] then 0 else Utf8Width(s[0]) + Utf8Length(s[1..])
  }

  /** Byte lengths add up over concatenation. */
  lemma {:induction false} Utf8LengthAppend(a: string, b: string)
    ensures Utf8Length(a + b) == Utf8Length(a) + Utf8Length(b)
  {
    if a != [] {
      assert (a + b)[0] == a[0];
      assert (a + b)[1..] == a[1..] + b;
      Utf8LengthAppend(a[1..], b);
    } else {
      assert a + b == b;
    }
  }

  /** `c.getResHeader("Content-Encoding")`. */
  function EncodingRead<J>(c: Ctx<J>, how: Reading): JsValue {
    if how == AsWritten then RefObject else FromOption(H.Get(c.res.headers, "Content-Encoding"))
  }

  /** The body `compress` would replace: a text body of at least the
      threshold's byte length. */
  predicate LargeText(p: Payload, threshold: int) {
    p.TextPayload? && Utf8Length(p.text) >= threshold
  }

  /** The work after `next` returns; `c` is the context then. Whether a
      `CompressionStream` exists and the stream it produces are
      parameters. */
  function CompressWith<J>(c: Ctx<J>, o: CompressOptions, hasStream: bool, compressed: nat, how: Reading): Result<Ctx<J>, Failure> {
    var enc := PickEncoding(H.ViewGet(c.req.headers, "Accept-Encoding").GetOr(""), o.preferBrotli.GetOr(true));
    if Truthy(EncodingRead(c, how)) then Ok(c)
    else if ToUpper(c.verb) == "HEAD" then Ok(c)
    else if c.res.status == 204 || c.res.status == 304 then Ok(c)
    else if enc.None? || !hasStream then Ok(c)
    else if !LargeText(c.res.payload, o.thresholdBytes.GetOr(1024)) then Ok(c)
    else
      match SetAll(c, EncodingPlan(enc.value))
      case Err(e) => Err(e)
      case Ok(c1) => Ok(c1.(res := c1.res.(payload := StreamPayload(compressed))))
  }

  function EncodingPlan(enc: string): seq<(string, string)> {
    [("Content-Encoding", enc), ("Vary", "Accept-Encoding")]
  }

  lemma EncodingPlanReads(enc: string)
    ensures StdResponse.LastFor(EncodingPlan(enc), "Content-Encoding") == Some(enc)
  {
    var hs := EncodingPlan(enc);
    assert hs[1..][1..] == [];
    assert |H.Norm("Vary")| != |H.Norm("Content-Encoding")|;
    assert !H.SameField("Vary", "Content-Encoding");
    assert H.SameField("Content-Encoding", "Content-Encoding");
    assert StdResponse.LastFor(hs[1..][1..], "Content-Encoding") == None;
    assert StdResponse.LastFor(hs[1..], "Content-Encoding") == None;
  }

  /** The response the handler left is kept as is in each skip case. */
  predicate Skips<J>(c: Ctx<J>, o: CompressOptions) {
    || H.Get(c.res.headers, "Content-Encoding") !in {None, Some("")}
    || ToUpper(c.verb) == "HEAD"
    || c.res.status in {204, 304}
    || !LargeText(c.res.payload, o.thresholdBytes.GetOr(1024))
  }

  /** `compress(opts)`: a skip case, an unusable Accept-Encoding or no
      stream support leaves the response alone; otherwise the body is the
      compressed stream, labelled with its coding. */
  function Compress<J>(c: Ctx<J>, o: CompressOptions, hasStream: bool, compressed: nat): (r: Result<Ctx<J>, Failure>)
    ensures Skips(c, o) ==> r == Ok(c)
    ensures !hasStream ==> r == Ok(c)
    ensures PickEncoding(H.ViewGet(c.req.headers, "Accept-Encoding").GetOr(""), o.preferBrotli.GetOr(true)).None? ==> r == Ok(c)
    ensures !Skips(c, o) && hasStream && !c.timedOut && r.Ok? && r != Ok(c) ==>
      r.value.res.payload == StreamPayload(compressed)
      && H.Get(r.value.res.headers, "Content-Encoding")
         == PickEncoding(H.ViewGet(c.req.headers, "Accept-Encoding").GetOr(""), o.preferBrotli.GetOr(true))
  {
    var enc := PickEncoding(H.ViewGet(c.req.headers, "Accept-Encoding").GetOr(""), o.preferBrotli.GetOr(true));
    SetAllReads(c, EncodingPlan(enc.GetOr("")));
    EncodingPlanReads(enc.GetOr(""));
    CompressWith(c, o, hasStream, compressed, ByValue)
  }

  /** As written the Content-Encoding read is an object, so nothing is
      ever compressed. */
  function CompressAsWritten<J>(c: Ctx<J>, o: CompressOptions, hasStream: bool, compressed: nat): (r: Result<Ctx<J>, Failure>)
    ensures r == Ok(c)
  {
    CompressWith(c, o, hasStream, compressed, AsWritten)
  }

  /** An Accept-Encoding of just "gzip" picks gzip. */
  lemma GzipChosen()
    ensures PickEncoding("gzip", true) == Some("gzip")
  {
    assert ToLower("gzip") == "gzip";
    assert Includes("gzip", "gzip") by { IncludesIff("gzip", "gzip"); assert OccursAt("gzip", "gzip", 0); }
    forall j | 0 <= j && j + 2 <= 4
      ensures !OccursAt("gzip", "br", j)
    {
      assert j == 0 || j == 1 || j == 2;
      assert "gzip"[j..j + 2][0] == "gzip"[j] != 'b';
    }
    IncludesIff("gzip", "br");
  }

  /** Past every skip case, with a usable coding and an open response,
      the body becomes the compressed stream. */
  lemma CompressWritesStream<J>(c: Ctx<J>, o: CompressOptions, compressed: nat, enc: string)
    requires !Skips(c, o) && !c.timedOut && c.state != Streaming && !HasLineBreak(enc)
    requires PickEncoding(H.ViewGet(c.req.headers, "Accept-Encoding").GetOr(""), o.preferBrotli.GetOr(true)) == Some(enc)
    ensures Compress(c, o, true, compressed).Ok?
    ensures Compress(c, o, true, compressed).value.res.payload == StreamPayload(compressed)
  {
    SetAllReads(c, EncodingPlan(enc));
    assert StdResponse.NoLineBreaks(EncodingPlan(enc));
  }

  /** A large text reply to a gzip-accepting GET is compressed by value
      and left alone as written. */
  lemma CompressAsWrittenNeverCompresses<J>(c: Ctx<J>, compressed: nat)
    requires c.verb == "GET" && c.res.status == 200 && !c.timedOut && c.state != Streaming
    requires H.Get(c.res.headers, "Content-Encoding") == None
    requires H.ViewGet(c.req.headers, "Accept-Encoding") == Some("gzip")
    requires c.res.payload.TextPayload? && |c.res.payload.text| >= 1024
    ensures Compress(c, CompressOptions(None, None), true, compressed).Ok?
    ensures Compress(c, CompressOptions(None, None), true, compressed).value.res.payload == StreamPayload(compressed)
    ensures CompressAsWritten(c, CompressOptions(None, None), true, compressed) == Ok(c)
  {
    assert ToUpper("GET") != "HEAD";
    GzipChosen();
    assert !Skips(c, CompressOptions(None, None));
    CompressWritesStream(c, CompressOptions(None, None), compressed, "gzip");
  }
}
