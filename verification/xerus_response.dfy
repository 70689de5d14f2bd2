/** The file-router generation's response (src/XerusResponse.ts): status,
    body, a plain header record, a `ready` flag that only the body and
    status setters raise, and its own Set-Cookie serialiser. */
module XerusResponse {
  import opened Wrappers
  import opened Text
  import Cookies

  datatype Response = Response(status: int, body: string, headers: map<string, string>, ready: bool)

  /** The constructor: 200, no body, no headers, not ready. */
  function NewResponse(): (r: Response)
    ensures r.status == 200 && r.body == "" && r.headers == map[] && !r.ready
  {
    Response(200, "", map[], false)
  }

  function SetBody(r: Response, body: string): (out: Response)
    ensures out.ready && out.body == body
    ensures out.status == r.status && out.headers == r.headers
  {
    r.(body := body, ready := true)
  }

  /** `setHeader` writes the record entry and leaves `ready` alone. */
  function SetHeader(r: Response, key: string, value: string): (out: Response)
    ensures out.ready == r.ready && out.status == r.status && out.body == r.body
    ensures key in out.headers && out.headers[key] == value
    ensures forall k :: k != key ==> (k in out.headers <==> k in r.headers)
    ensures forall k :: k != key && k in r.headers ==> out.headers[k] == r.headers[k]
  {
    r.(headers := r.headers[key := value])
  }

  function SetStatus(r: Response, status: int): (out: Response)
    ensures out.ready && out.status == status
    ensures out.body == r.body && out.headers == r.headers
  {
    r.(status := status, ready := true)
  }

  /** A cookie for `setCookie`: its key and value are written as given. */
  datatype Cookie = Cookie(key: string, value: string, options: Cookies.Options)

  /** What `setCookie` writes for each option, by JavaScript truthiness:
      texts only when not empty, Max-Age only when not 0, flags only when
      true, and the path always (falling back to "/"). */
  function CookieAttr(o: Cookies.Options, k: Cookies.AttrKind): Option<Option<string>> {
    match k
    case DomainAttr => if o.domain.Some? && o.domain.value != "" then Some(o.domain) else None
    case PathAttr => if o.path.Some? && o.path.value != "" then Some(o.path) else Some(Some("/"))
    case ExpiresAttr => if o.expires.Some? && o.expires.value != "" then Some(o.expires) else None
    case MaxAgeAttr => if o.maxAge.Some? && o.maxAge.value != 0 then Some(Some(IntToString(o.maxAge.value))) else None
    case SecureAttr => if o.secure == Some(true) then Some(None) else None
    case HttpOnlyAttr => if o.httpOnly == Some(true) then Some(None) else None
    case SameSiteAttr => if o.sameSite.Some? && o.sameSite.value != "" then Some(o.sameSite) else None
  }

  /** Domain, Path, Expires, Max-Age, Secure, HttpOnly, SameSite. */
  const CookieKinds := [Cookies.DomainAttr, Cookies.PathAttr, Cookies.ExpiresAttr, Cookies.MaxAgeAttr,
                        Cookies.SecureAttr, Cookies.HttpOnlyAttr, Cookies.SameSiteAttr]

  function CookieRank(k: Cookies.AttrKind): nat {
    match k
    case DomainAttr => 0
    case PathAttr => 1
    case ExpiresAttr => 2
    case MaxAgeAttr => 3
    case SecureAttr => 4
    case HttpOnlyAttr => 5
    case SameSiteAttr => 6
  }

  lemma CookieKindsComplete()
    ensures forall k: Cookies.AttrKind :: k in CookieKinds
  {
    forall k: Cookies.AttrKind ensures k in CookieKinds {
      assert CookieKinds[CookieRank(k)] == k;
    }
  }

  lemma CookieKindsAscending()
    ensures Cookies.Ascending(CookieKinds, CookieRank)
  {
    forall i, j | 0 <= i < j < |CookieKinds| ensures CookieRank(CookieKinds[i]) < CookieRank(CookieKinds[j]) {
      assert CookieRank(CookieKinds[i]) == i && CookieRank(CookieKinds[j]) == j;
    }
  }

  function CookieAttrOf(o: Cookies.Options): Cookies.AttrKind -> Option<Option<string>> {
    k => CookieAttr(o, k)
  }

  /** The attributes of a `setCookie` line: exactly those the options
      keep, in its order. */
  function CookieAttrs(o: Cookies.Options): (attrs: seq<Cookies.Attr>)
    ensures Cookies.InOrder(attrs, CookieRank)
    ensures forall k :: k in Cookies.KindsOf(attrs) <==> CookieAttr(o, k).Some?
    ensures forall i :: 0 <= i < |attrs| ==> CookieAttr(o, attrs[i].kind) == Some(attrs[i].value)
  {
    CookieKindsAscending();
    Cookies.CollectInOrder(CookieKinds, CookieAttrOf(o), CookieRank);
    CookieKindsComplete();
    Cookies.Collect(CookieKinds, CookieAttrOf(o))
  }

  /** The line `setCookie` builds: `key=value` as given, then the
      attributes. */
  function CookieLine(c: Cookie): (line: string)
    ensures StartsWith(line, c.key + "=" + c.value)
  {
    c.key + "=" + c.value + Cookies.RenderAttrs(CookieAttrs(c.options))
  }

  /** The line, spelled out: `key=value`, then each attribute the options
      keep, in the order Domain, Path, Expires, Max-Age, Secure, HttpOnly,
      SameSite. */
  lemma CookieLineText(c: Cookie)
    ensures CookieLine(c) == c.key + "=" + c.value
      + (Cookies.AttrPiece(Cookies.DomainAttr, CookieAttr(c.options, Cookies.DomainAttr))
      + (Cookies.AttrPiece(Cookies.PathAttr, CookieAttr(c.options, Cookies.PathAttr))
      + (Cookies.AttrPiece(Cookies.ExpiresAttr, CookieAttr(c.options, Cookies.ExpiresAttr))
      + (Cookies.AttrPiece(Cookies.MaxAgeAttr, CookieAttr(c.options, Cookies.MaxAgeAttr))
      + (Cookies.AttrPiece(Cookies.SecureAttr, CookieAttr(c.options, Cookies.SecureAttr))
      + (Cookies.AttrPiece(Cookies.HttpOnlyAttr, CookieAttr(c.options, Cookies.HttpOnlyAttr))
      + Cookies.AttrPiece(Cookies.SameSiteAttr, CookieAttr(c.options, Cookies.SameSiteAttr))))))))
  {
    Cookies.RenderSeven(CookieKinds, CookieAttrOf(c.options));
  }

  /** `setCookie`: the line replaces whatever Set-Cookie entry was there. */
  function SetCookie(r: Response, c: Cookie): (out: Response)
    ensures "Set-Cookie" in out.headers && out.headers["Set-Cookie"] == CookieLine(c)
    ensures out.ready == r.ready && out.status == r.status && out.body == r.body
  {
    var line := CookieLine(c);
    r.(headers := r.headers["Set-Cookie" := line])
  }

  /** The path is always written: the given one when it is not empty,
      "/" otherwise. */
  lemma PathAlwaysWritten(o: Cookies.Options)
    ensures Cookies.Attr(Cookies.PathAttr, Some(if o.path.Some? && o.path.value != "" then o.path.value else "/")) in CookieAttrs(o)
  {
    var attrs := CookieAttrs(o);
    assert Cookies.PathAttr in Cookies.KindsOf(attrs);
    var i :| 0 <= i < |attrs| && Cookies.KindsOf(attrs)[i] == Cookies.PathAttr;
    assert attrs[i].kind == Cookies.PathAttr;
  }

  /** A Max-Age of 0 is falsy and is not written at all. */
  lemma ZeroMaxAgeOmitted(o: Cookies.Options)
    requires o.maxAge == Some(0)
    ensures Cookies.MaxAgeAttr !in Cookies.KindsOf(CookieAttrs(o))
  {
  }

  /** Each `setCookie` replaces the previous line: only the last cookie
      survives. */
  lemma OnlyLastCookieSurvives(r: Response, c1: Cookie, c2: Cookie)
    ensures SetCookie(SetCookie(r, c1), c2).headers == SetCookie(r, c2).headers
  {
  }

  /** Only the body and status setters make a response ready. */
  lemma ReadyOnlyFromBodyOrStatus(key: string, value: string, c: Cookie)
    ensures !SetHeader(NewResponse(), key, value).ready
    ensures !SetCookie(NewResponse(), c).ready
    ensures SetBody(NewResponse(), "").ready && SetStatus(NewResponse(), 200).ready
  {
  }
}
