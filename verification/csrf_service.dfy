/** The double-submit CSRF service of src/CSRFService.ts: a token cookie
    is issued when the request carries none, safe methods always pass,
    and any other method passes only when a header repeats the cookie's
    token. `newToken` is the token `crypto.randomUUID()` would produce. */
module CsrfService {
  import opened Wrappers
  import opened SystemErrors
  import opened HttpContext
  import StdResponse
  import Cookies
  import H = Headers

  datatype Config = Config(cookieName: string, headerName: string, ignoreMethods: seq<string>)

  /** The options as passed to the constructor; `None` is undefined. */
  datatype Options = Options(cookieName: Option<string>, headerName: Option<string>, ignoreMethods: Option<seq<string>>)

  const DefaultIgnored: seq<string> := ["GET", "HEAD", "OPTIONS", "TRACE"]

  /** The constructor: a name overrides its default only when non-empty,
      the method list whenever it is given. */
  function Resolve(o: Options): (cfg: Config)
    ensures cfg.cookieName == (if o.cookieName.Some? && o.cookieName.value != "" then o.cookieName.value else "XSRF-TOKEN")
    ensures cfg.headerName == (if o.headerName.Some? && o.headerName.value != "" then o.headerName.value else "X-XSRF-TOKEN")
    ensures cfg.ignoreMethods == o.ignoreMethods.GetOr(DefaultIgnored)
  {
    Config(if o.cookieName.Some? && o.cookieName.value != "" then o.cookieName.value else "XSRF-TOKEN",
           if o.headerName.Some? && o.headerName.value != "" then o.headerName.value else "X-XSRF-TOKEN",
           o.ignoreMethods.GetOr(DefaultIgnored))
  }

  /** The issued cookie: Path=/, readable by scripts, SameSite Lax, not
      Secure. */
  const TokenCookie := Cookies.Options(Some("/"), None, None, None, Some(false), Some(false), Some("Lax"))

  const RejectMessage := "Invalid or missing CSRF token"

  /** The request's token cookie, "" when absent. */
  function RequestToken(j: Cookies.Jar, name: string, decode: string -> Option<string>): string {
    var m := Cookies.Parsed(j.header, decode);
    if name in m then m[name] else ""
  }

  /** The token the request is checked against: the cookie's, or the new
      one when the cookie is missing or empty. */
  function Token(j: Cookies.Jar, cfg: Config, newToken: string, decode: string -> Option<string>): string {
    var t := RequestToken(j, cfg.cookieName, decode);
    if t == "" then newToken else t
  }

  /** Whether the header repeats the token. */
  predicate HeaderMatches<J>(c: Ctx<J>, cfg: Config, token: string) {
    var h := H.ViewGet(c.req.headers, cfg.headerName);
    h.Some? && h.value != "" && h.value == token
  }

  /** `before(c)`. */
  function Before<J>(c: Ctx<J>, cfg: Config, newToken: string, decode: string -> Option<string>,
                     encode: string -> Option<string>, render: Fields -> string): (r: Result<Ctx<J>, Failure>)
    requires Cookies.Valid(c.res.jar, decode)
    ensures r.Ok? ==> r.value.res.jar.header == c.res.jar.header && Cookies.Valid(r.value.res.jar, decode)
    ensures r.Ok? && RequestToken(c.res.jar, cfg.cookieName, decode) == "" ==>
      r.value.res.jar.lines == c.res.jar.lines + [Cookies.SerializeSetCookie(cfg.cookieName, newToken, TokenCookie, encode)]
    ensures r.Ok? && RequestToken(c.res.jar, cfg.cookieName, decode) != "" ==> r.value.res.jar.lines == c.res.jar.lines
    ensures (c.verb in cfg.ignoreMethods || HeaderMatches(c, cfg, Token(c.res.jar, cfg, newToken, decode))) ==>
      r.Ok? && r.value.state == c.state && r.value.res.status == c.res.status
      && r.value.res.payload == c.res.payload && r.value.res.headers == c.res.headers
    ensures (c.verb !in cfg.ignoreMethods && !HeaderMatches(c, cfg, Token(c.res.jar, cfg, newToken, decode))) ==>
      (r.Err? <==> BodyCheck(c).Some?)
      && (r.Ok? ==> (IsDone(r.value) && r.value.res.status == 403
                     && r.value.res.payload == TextPayload(render(ErrorObject("CSRF_DETECTED", RejectMessage, [])))))
  {
    var (jar, existing) := Cookies.Get(c.res.jar, cfg.cookieName, decode);
    var token := Token(c.res.jar, cfg, newToken, decode);
    var jar' := if existing.None? || existing.value == "" then Cookies.SetCookie(jar, cfg.cookieName, newToken, TokenCookie, encode) else jar;
    var c1 := c.(res := c.res.(jar := jar'));
    if c.verb in cfg.ignoreMethods then Ok(c1)
    else if !HeaderMatches(c, cfg, token) then
      StdResponse.ErrorJson(c1, 403, "CSRF_DETECTED", RejectMessage, [], render)
    else Ok(c1)
  }

  /** Safe methods pass whatever the header says. */
  lemma SafeMethodsPass<J>(c: Ctx<J>, newToken: string, decode: string -> Option<string>,
                           encode: string -> Option<string>, render: Fields -> string)
    requires Cookies.Valid(c.res.jar, decode)
    requires c.verb in DefaultIgnored
    ensures Before(c, Resolve(Options(None, None, None)), newToken, decode, encode, render).Ok?
  {
  }

  /** An unsafe request with a cookie passes exactly when the header
      repeats the cookie's token. */
  lemma UnsafePassesIff<J>(c: Ctx<J>, cfg: Config, newToken: string, decode: string -> Option<string>,
                           encode: string -> Option<string>, render: Fields -> string)
    requires Cookies.Valid(c.res.jar, decode) && BodyCheck(c).None? && !c.timedOut && c.state == Open
    requires c.verb !in cfg.ignoreMethods && RequestToken(c.res.jar, cfg.cookieName, decode) != ""
    ensures var r := Before(c, cfg, newToken, decode, encode, render);
      r.Ok? && (r.value.res.status == 403 && IsDone(r.value)
                <==> H.ViewGet(c.req.headers, cfg.headerName) != Some(RequestToken(c.res.jar, cfg.cookieName, decode)))
  {
  }
}
