/** WebSocket routes (src/WSRoute.ts): validator registration, the raw
    value a validation source reads from the upgraded request, the
    validator middleware, and the handler a route compiles to. */
module WsRoute {
  import opened Wrappers
  import opened SystemErrors
  import DataBag
  import ValidatedData
  import Href
  import BodyParse

  datatype WsMethod = Open | Message | Close | Drain

  /** A validation source; `key` is the query, param or header name. */
  datatype Source =
    | Query(key: string)
    | Param(key: string)
    | Header(key: string)
    | WsMessage
    | WsClose
    | Json
    | Form
    | Multipart
    | TextBody

  /** The source type's own name, as used in error messages. */
  function SourceName(s: Source): string {
    match s
    case Query(_) => "QUERY"
    case Param(_) => "PARAM"
    case Header(_) => "HEADER"
    case WsMessage => "WS_MESSAGE"
    case WsClose => "WS_CLOSE"
    case Json => "JSON"
    case Form => "FORM"
    case Multipart => "MULTIPART"
    case TextBody => "TEXT"
  }

  predicate IsBodySource(s: Source) {
    s.Json? || s.Form? || s.Multipart? || s.TextBody?
  }

  /** A validator argument: a class (`typeof` "function") or any other
      value. */
  datatype Validator = Class(ctor: DataBag.Ctor) | NotAClass

  /** A middleware in a route's list: a validator the route installed, or
      one of the user's own. */
  datatype Mw<U> = TypeValidator(source: Source, ctor: DataBag.Ctor) | UserMw(u: U)

  datatype Route<H, U> = Route(verb: WsMethod, path: string, handler: H, middleware: seq<Mw<U>>)

  /** `validate(source, ctor)`. */
  function Validate<H, U>(r: Route<H, U>, s: Source, v: Validator): (out: Result<Route<H, U>, Failure>)
    ensures v.NotAClass? ==> out.Err?
    ensures s.WsMessage? && r.verb != Message ==> out.Err?
    ensures s.WsClose? && r.verb != Close ==> out.Err?
    ensures out.Err? ==> out.error.SystemErr? && out.error.code == InternalServerErr
    ensures out.Ok? <==> v.Class? && (s.WsMessage? ==> r.verb == Message) && (s.WsClose? ==> r.verb == Close)
    ensures out.Ok? ==> out.value == r.(middleware := [TypeValidator(s, v.ctor)] + r.middleware)
  {
    if v.NotAClass? then
      Err(SystemErr(InternalServerErr, "WSRoute.validate requires a constructable class"))
    else if s.WsMessage? && r.verb != Message then
      Err(SystemErr(InternalServerErr, "Source.WS_MESSAGE() validation can only be used on WSMethod.MESSAGE routes"))
    else if s.WsClose? && r.verb != Close then
      Err(SystemErr(InternalServerErr, "Source.WS_CLOSE() validation can only be used on WSMethod.CLOSE routes"))
    else
      Ok(r.(middleware := [TypeValidator(s, v.ctor)] + r.middleware))
  }

  /** Validators declared one after another, as a chain of `validate`
      calls; the first failure throws. */
  function ValidateAll<H, U>(r: Route<H, U>, vs: seq<(Source, Validator)>): Result<Route<H, U>, Failure>
    decreases |vs|
  {
    if vs == [] then Ok(r)
    else match Validate(r, vs[0].0, vs[0].1)
      case Err(e) => Err(e)
      case Ok(r1) => ValidateAll(r1, vs[1..])
  }

  function Installed<U>(vs: seq<(Source, Validator)>): seq<Mw<U>>
    requires forall i :: 0 <= i < |vs| ==> vs[i].1.Class?
  {
    seq(|vs|, i requires 0 <= i < |vs| => TypeValidator(vs[i].0, vs[i].1.ctor))
  }

  function Reverse<T>(xs: seq<T>): (r: seq<T>)
    ensures |r| == |xs|
    ensures forall i :: 0 <= i < |xs| ==> r[i] == xs[|xs| - 1 - i]
  {
    if xs == [] then [] else Reverse(xs[1..]) + [xs[0]]
  }

  /** Each `validate` prepends, so validators run in reverse declaration
      order, all ahead of the middleware that was already there. */
  lemma {:induction false} LastDeclaredRunsFirst<H, U>(r: Route<H, U>, vs: seq<(Source, Validator)>)
    requires forall i :: 0 <= i < |vs| ==> vs[i].1.Class?
    requires forall i :: 0 <= i < |vs| ==> !vs[i].0.WsMessage? && !vs[i].0.WsClose?
    ensures ValidateAll(r, vs) == Ok(r.(middleware := Reverse(Installed<U>(vs)) + r.middleware))
    decreases |vs|
  {
    if vs != [] {
      var r1 := r.(middleware := [TypeValidator(vs[0].0, vs[0].1.ctor)] + r.middleware);
      assert Validate(r, vs[0].0, vs[0].1) == Ok(r1);
      LastDeclaredRunsFirst(r1, vs[1..]);
      InstalledStep<U>(vs, r.middleware);
      assert ValidateAll(r, vs) == ValidateAll(r1, vs[1..]);
    } else {
      assert Installed<U>(vs) == [];
      assert [] + r.middleware == r.middleware;
    }
  }

  /** Installing the head's validator in front of `m`, then the tail's
      in reverse, is installing them all in reverse in front of `m`. */
  lemma InstalledStep<U>(vs: seq<(Source, Validator)>, m: seq<Mw<U>>)
    requires vs != [] && forall i :: 0 <= i < |vs| ==> vs[i].1.Class?
    ensures Reverse(Installed<U>(vs[1..])) + ([TypeValidator(vs[0].0, vs[0].1.ctor)] + m) == Reverse(Installed<U>(vs)) + m
  {
    var a := Installed<U>(vs);
    var b := Installed<U>(vs[1..]);
    assert a[1..] == b;
    assert Reverse(a) == Reverse(b) + [a[0]];
  }

  /** The close arguments a CLOSE event stored, each field possibly
      missing. */
  datatype CloseArgs = CloseArgs(code: Option<int>, reason: Option<string>)

  /** What the upgraded request offers a WS validator: its query pairs in
      URL order, route params, the stored message and close arguments. */
  datatype WsRequest = WsRequest(query: Href.Pairs, params: map<string, string>,
                                 message: Option<string>, closeArgs: Option<CloseArgs>)

  /** A raw value handed to a validator's constructor. `HeaderRef` is the
      header reference object `getHeader` returns, not a string. */
  datatype Raw =
    | RawText(text: string)
    | RawQueries(queries: map<string, string>)
    | HeaderRef(name: string)
    | RawClose(code: int, reason: string)

  function CloseCode(a: Option<CloseArgs>): int {
    if a.Some? && a.value.code.Some? then a.value.code.value else 0
  }

  function CloseReason(a: Option<CloseArgs>): string {
    if a.Some? && a.value.reason.Some? then a.value.reason.value else ""
  }

  /** `http.query(key, "")`: the first value of the key, or "". */
  function FirstQuery(req: WsRequest, key: string): string {
    var vs := Href.Values(req.query, key);
    if |vs| > 0 then vs[0] else ""
  }

  /** `extractWSRawFromHTTP`: a keyed query reads the key's first value,
      as `http.query` does; an unkeyed one reads `http.queries`, which
      keeps each key's last value. */
  function Extract(req: WsRequest, s: Source): (r: Result<Raw, Failure>)
    ensures r.Err? <==> IsBodySource(s)
    ensures r.Err? ==> r.error == SystemErr(InternalServerErr, SourceName(s) + " is not supported for WS validation")
    ensures s.Query? && s.key != "" && |Href.Values(req.query, s.key)| == 0 ==> r == Ok(RawText(""))
    ensures s.Query? && s.key != "" && |Href.Values(req.query, s.key)| > 0 ==> r == Ok(RawText(Href.Values(req.query, s.key)[0]))
    ensures s.Query? && s.key == "" ==> r.Ok? && r.value.RawQueries?
    ensures s.Query? && s.key == "" ==> forall k :: k in r.value.queries <==> |Href.Values(req.query, k)| > 0
    ensures s.Param? ==> r == Ok(RawText(if s.key in req.params then req.params[s.key] else ""))
    ensures s.WsMessage? && req.message.None? ==> r == Ok(RawText(""))
    ensures s.WsClose? && req.closeArgs.None? ==> r == Ok(RawClose(0, ""))
    ensures s.WsClose? ==> r.Ok? && r.value.RawClose?
  {
    match s
    case Query(k) => if k != "" then Ok(RawText(FirstQuery(req, k))) else Ok(RawQueries(BodyParse.FormLastOf(req.query)))
    case Param(k) => Ok(RawText(if k in req.params then req.params[k] else ""))
    case Header(k) => Ok(HeaderRef(k))
    case WsMessage => Ok(RawText(req.message.GetOr("")))
    case WsClose => Ok(RawClose(CloseCode(req.closeArgs), CloseReason(req.closeArgs)))
    case _ => Err(SystemErr(InternalServerErr, SourceName(s) + " is not supported for WS validation"))
  }

  /** For a repeated key the two query sources disagree: the keyed one
      reads the first value, the unkeyed one holds the last. */
  lemma KeyedFirstUnkeyedLast(req: WsRequest, key: string)
    requires key != "" && |Href.Values(req.query, key)| > 0
    ensures var vs := Href.Values(req.query, key);
      && Extract(req, Query(key)) == Ok(RawText(vs[0]))
      && Extract(req, Query("")).value.queries[key] == vs[|vs| - 1]
  {
    BodyParse.FormLastIsLast(req.query, key);
  }

  function FailureMessage(f: Failure): string {
    match f
    case SystemErr(_, m) => m
    case PlainError(m) => m
  }

  /** The validator middleware's run before `next()`: `hasSocket` says
      whether the request carries its socket, and `construct` stands for
      `new Ctor(raw)` followed by its `validate`, failing with the thrown
      message. On success the instance is stored under the class. */
  function RunValidator<V>(req: WsRequest, hasSocket: bool, s: Source, ctor: DataBag.Ctor,
                           construct: Raw -> Result<V, string>, vd: ValidatedData.Data<V>): (r: Result<ValidatedData.Data<V>, Failure>)
    ensures !hasSocket ==> r.Err? && r.error.SystemErr? && r.error.code == InternalServerErr
    ensures hasSocket && IsBodySource(s) ==>
      r == Err(SystemErr(BodyParsingFailed, "Data Extraction Failed: " + (SourceName(s) + " is not supported for WS validation")))
    ensures hasSocket && !IsBodySource(s) ==> var raw := Extract(req, s).value;
      (r.Ok? <==> construct(raw).Ok?)
      && (r.Ok? ==> ValidatedData.Maybe(r.value, ValidatedData.ByClass(ctor)) == Some(construct(raw).value))
      && (r.Err? ==> r.error == SystemErr(ValidationFailed, construct(raw).error))
  {
    if !hasSocket then
      Err(SystemErr(InternalServerErr, "WS validation middleware ran without an active WebSocket. (Missing __wsSocket)"))
    else match Extract(req, s)
      case Err(e) => Err(SystemErr(BodyParsingFailed, "Data Extraction Failed: " + FailureMessage(e)))
      case Ok(raw) =>
        match construct(raw)
        case Err(m) => Err(SystemErr(ValidationFailed, m))
        case Ok(inst) => Ok(ValidatedData.Set(vd, ValidatedData.ByClass(ctor), Some(inst)))
  }

  /** A compiled chain: the handler behind the route's middleware. */
  datatype Chain<H, U> = Chain(handler: H, middleware: seq<Mw<U>>)

  /** The compiled handler: one optional chain per event. */
  datatype Handler<H, U> = Handler(open: Option<Chain<H, U>>, message: Option<Chain<H, U>>,
                                   close: Option<Chain<H, U>>, drain: Option<Chain<H, U>>)

  function Slot<H, U>(h: Handler<H, U>, m: WsMethod): Option<Chain<H, U>> {
    match m
    case Open => h.open
    case Message => h.message
    case Close => h.close
    case Drain => h.drain
  }

  /** `compile()`. */
  function Compile<H, U>(r: Route<H, U>): (h: Handler<H, U>)
    ensures Slot(h, r.verb) == Some(Chain(r.handler, r.middleware))
    ensures forall m :: m != r.verb ==> Slot(h, m).None?
  {
    var ch := Some(Chain(r.handler, r.middleware));
    match r.verb
    case Open => Handler(ch, None, None, None)
    case Message => Handler(None, ch, None, None)
    case Close => Handler(None, None, ch, None)
    case Drain => Handler(None, None, None, ch)
  }

  /** Validation prepends to the very chain the compiled handler runs. */
  lemma CompiledChainRunsValidatorFirst<H, U>(r: Route<H, U>, s: Source, ctor: DataBag.Ctor)
    ensures Validate(r, s, Class(ctor)).Ok? ==>
      Slot(Compile(Validate(r, s, Class(ctor)).value), r.verb).value.middleware[0] == TypeValidator(s, ctor)
  {
  }
}
