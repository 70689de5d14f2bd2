/** The request context of primitives.ts: the normalised path and route,
    the Cookie header lookup, and Set-Cookie lines written through a
    response whose `header` replaces any earlier value. */
module PrimitivesContext {
  import opened Wrappers
  import opened Text
  import Cookies
  import H = Headers

  /** The context's request-derived fields. */
  datatype Ctx = Ctx(path: string, verb: string, route: string, segments: seq<string>,
                     params: map<string, string>, cookieHeader: Option<string>)

  /** The constructor, given the URL's pathname. */
  function NewCtx(pathname: string, verb: string, params: map<string, string>, cookieHeader: Option<string>): (c: Ctx)
    ensures c.path != "" && (c.path == "/" || c.path[|c.path| - 1] != '/')
    ensures StripTrailingSlashes(pathname) != "" ==> c.path == StripTrailingSlashes(pathname)
    ensures (forall i :: 0 <= i < |pathname| ==> pathname[i] == '/') ==> c.path == "/" && c.segments == []
    ensures c.route == verb + " " + c.path
    ensures c.segments == Segments(c.path, '/')
  {
    var p := NormalizePath(pathname);
    SegmentsOfRooted([], '/');
    assert ['/'] + Join([], ['/']) == "/";
    Ctx(p, verb, verb + " " + p, Segments(p, '/'), params, cookieHeader)
  }

  /** Trailing slashes never matter, and the empty path is "/". */
  lemma PathIgnoresTrailingSlash(pathname: string, verb: string, params: map<string, string>, h: Option<string>)
    ensures NewCtx(pathname + "/", verb, params, h) == NewCtx(pathname, verb, params, h)
    ensures NewCtx("", verb, params, h).path == "/"
  {
    assert (pathname + "/")[..|pathname|] == pathname;
    assert StripTrailingSlashes(pathname + "/") == StripTrailingSlashes(pathname);
  }

  /** `param(name, default)`. */
  function Param(c: Ctx, name: string, default: Option<string>): (v: Option<string>)
    ensures name in c.params ==> v == Some(c.params[name])
    ensures name !in c.params ==> v == default
  {
    if name in c.params then Some(c.params[name]) else default
  }

  /** One piece of the Cookie header, split on "=": the name and, when
      there was an "=", the text up to the next "=". */
  function Entry(piece: string): (string, Option<string>) {
    var kv := Split(piece, '=');
    (kv[0], if |kv| >= 2 then Some(kv[1]) else None)
  }

  /** `Object.fromEntries(pieces.map(split("=")))`: later entries
      overwrite earlier ones. */
  function FromEntries(pieces: seq<string>): map<string, Option<string>>
    decreases |pieces|
  {
    if |pieces| == 0 then map[]
    else
      var e := Entry(pieces[|pieces| - 1]);
      FromEntries(pieces[..|pieces| - 1])[e.0 := e.1]
  }

  /** Reference reading: the value of the last piece that names `name`. */
  function LastNamed(pieces: seq<string>, name: string): Option<Option<string>>
    decreases |pieces|
  {
    if |pieces| == 0 then None
    else if Entry(pieces[|pieces| - 1]).0 == name then Some(Entry(pieces[|pieces| - 1]).1)
    else LastNamed(pieces[..|pieces| - 1], name)
  }

  /** `cookie(name)`: undefined without a (non-empty) Cookie header. */
  function Cookie(c: Ctx, name: string): (v: Option<string>)
    ensures c.cookieHeader.None? || c.cookieHeader == Some("") ==> v.None?
  {
    match c.cookieHeader
    case None => None
    case Some(h) =>
      if h == "" then None
      else
        var m := FromEntries(SplitOn(h, "; "));
        if name in m then m[name] else None
  }

  /** The object built from the pieces holds, for each name, the value of
      its last piece. */
  lemma {:induction false} FromEntriesLastWins(pieces: seq<string>, name: string)
    ensures name in FromEntries(pieces) <==> LastNamed(pieces, name).Some?
    ensures name in FromEntries(pieces) ==> FromEntries(pieces)[name] == LastNamed(pieces, name).value
    decreases |pieces|
  {
    if |pieces| > 0 {
      FromEntriesLastWins(pieces[..|pieces| - 1], name);
    }
  }

  /** So with duplicate names in the header, the last one wins. */
  lemma CookieLastWins(c: Ctx, name: string)
    requires c.cookieHeader.Some? && c.cookieHeader.value != ""
    ensures var l := LastNamed(SplitOn(c.cookieHeader.value, "; "), name);
      Cookie(c, name) == (if l.Some? then l.value else None)
  {
    FromEntriesLastWins(SplitOn(c.cookieHeader.value, "; "), name);
  }

  /** A single `name=value` pair reads back as its value. */
  lemma SinglePairReadsBack(c: Ctx, name: string, value: string)
    requires '=' !in name && '=' !in value
    requires c.cookieHeader == Some(name + "=" + value) && !Includes(name + "=" + value, "; ")
    ensures Cookie(c, name) == Some(value)
  {
    var s := name + "=" + value;
    assert SplitOn(s, "; ") == [s];
    assert s[..|name|] == name && s[|name|] == '=';
    IndexOfCharIs(s, '=', |name|);
    assert s[|name| + 1..] == value;
    assert Split(s, '=') == [name] + Split(value, '=');
    assert Split(value, '=') == [value];
    assert Entry(s) == (name, Some(value));
  }

  /** What `setCookie` writes for each attribute: a non-empty path,
      domain or SameSite, any Max-Age, any Expires, and the flags that are
      true; no defaults. */
  function SetCookieAttr(o: Cookies.Options, k: Cookies.AttrKind): Option<Option<string>> {
    match k
    case PathAttr => if o.path.Some? && o.path.value != "" then Some(o.path) else None
    case DomainAttr => if o.domain.Some? && o.domain.value != "" then Some(o.domain) else None
    case MaxAgeAttr => if o.maxAge.Some? then Some(Some(IntToString(o.maxAge.value))) else None
    case ExpiresAttr => if o.expires.Some? then Some(o.expires) else None
    case HttpOnlyAttr => if o.httpOnly == Some(true) then Some(None) else None
    case SecureAttr => if o.secure == Some(true) then Some(None) else None
    case SameSiteAttr => if o.sameSite.Some? && o.sameSite.value != "" then Some(o.sameSite) else None
  }

  /** The attributes of a `setCookie` line: exactly those the options
      keep, in the order Path, Domain, Max-Age, Expires, HttpOnly,
      Secure, SameSite. */
  function SetCookieAttrs(o: Cookies.Options): (attrs: seq<Cookies.Attr>)
    ensures Cookies.InOrder(attrs, Cookies.CookieRank)
    ensures forall k :: k in Cookies.KindsOf(attrs) <==> SetCookieAttr(o, k).Some?
    ensures forall i :: 0 <= i < |attrs| ==> SetCookieAttr(o, attrs[i].kind) == Some(attrs[i].value)
  {
    Cookies.CollectInOrder(Cookies.CookieKinds, AttrOf(o), Cookies.CookieRank);
    Cookies.CookieKindsComplete();
    Cookies.Collect(Cookies.CookieKinds, AttrOf(o))
  }

  function AttrOf(o: Cookies.Options): Cookies.AttrKind -> Option<Option<string>> {
    k => SetCookieAttr(o, k)
  }

  /** The line `setCookie` writes; only the value is encoded. */
  function SetCookieLine(name: string, value: string, o: Cookies.Options, encode: string -> string): (line: string)
    ensures StartsWith(line, name + "=" + encode(value))
  {
    name + "=" + encode(value) + Cookies.RenderAttrs(SetCookieAttrs(o))
  }

  /** The line, spelled out: the head, then each attribute the options
      keep, in the order Path, Domain, Max-Age, Expires, HttpOnly, Secure,
      SameSite. */
  lemma SetCookieLineText(name: string, value: string, o: Cookies.Options, encode: string -> string)
    ensures SetCookieLine(name, value, o, encode) == name + "=" + encode(value)
      + (Cookies.AttrPiece(Cookies.PathAttr, SetCookieAttr(o, Cookies.PathAttr))
      + (Cookies.AttrPiece(Cookies.DomainAttr, SetCookieAttr(o, Cookies.DomainAttr))
      + (Cookies.AttrPiece(Cookies.MaxAgeAttr, SetCookieAttr(o, Cookies.MaxAgeAttr))
      + (Cookies.AttrPiece(Cookies.ExpiresAttr, SetCookieAttr(o, Cookies.ExpiresAttr))
      + (Cookies.AttrPiece(Cookies.HttpOnlyAttr, SetCookieAttr(o, Cookies.HttpOnlyAttr))
      + (Cookies.AttrPiece(Cookies.SecureAttr, SetCookieAttr(o, Cookies.SecureAttr))
      + Cookies.AttrPiece(Cookies.SameSiteAttr, SetCookieAttr(o, Cookies.SameSiteAttr))))))))
  {
    Cookies.RenderSeven(Cookies.CookieKinds, AttrOf(o));
  }

  /** The response the context writes to: `header` sets (replaces). */
  datatype Response = Response(status: int, headers: H.Bag, body: string)

  function SetCookie(res: Response, name: string, value: string, o: Cookies.Options, encode: string -> string): (r: Response)
    ensures H.Get(r.headers, "Set-Cookie") == Some(SetCookieLine(name, value, o, encode))
    ensures r.status == res.status && r.body == res.body
  {
    H.SetThenRead(res.headers, "Set-Cookie", SetCookieLine(name, value, o, encode), "Set-Cookie");
    res.(headers := H.Set(res.headers, "Set-Cookie", SetCookieLine(name, value, o, encode)))
  }

  /** The options `clearCookie` passes. */
  const ClearOptions := Cookies.Options(None, None, Some(0), Some(Cookies.Epoch), None, None, None)

  /** `clearCookie(name)`: an empty value with Max-Age 0 and an Expires at
      the epoch, and nothing else. */
  function ClearCookie(res: Response, name: string, encode: string -> string): (r: Response)
    ensures H.Get(r.headers, "Set-Cookie") == Some(name + "=" + encode("") + ClearSuffix)
  {
    ClearAttrs();
    SetCookie(res, name, "", ClearOptions, encode)
  }

  const ClearSuffix := "; Max-Age=0; Expires=" + Cookies.Epoch

  lemma ClearAttrs()
    ensures Cookies.RenderAttrs(SetCookieAttrs(ClearOptions)) == ClearSuffix
  {
    ClearCollect();
    ClearRender();
  }

  lemma ClearRender()
    ensures Cookies.RenderAttrs([Cookies.Attr(Cookies.MaxAgeAttr, Some("0")), Cookies.Attr(Cookies.ExpiresAttr, Some(Cookies.Epoch))])
      == ClearSuffix
  {
    var a := Cookies.Attr(Cookies.MaxAgeAttr, Some("0"));
    var b := Cookies.Attr(Cookies.ExpiresAttr, Some(Cookies.Epoch));
    Cookies.RenderPair(a, b);
    assert Cookies.AttrName(Cookies.MaxAgeAttr) == "Max-Age";
    assert Cookies.AttrName(Cookies.ExpiresAttr) == "Expires";
    MaxAgeThenExpires(Cookies.Epoch);
  }

  /** The rendered pair, for any date. */
  lemma MaxAgeThenExpires(date: string)
    ensures "; " + "Max-Age" + "=" + "0" + ("; " + "Expires" + "=" + date) == "; Max-Age=0; Expires=" + date
  {
  }

  lemma ClearCollect()
    ensures SetCookieAttrs(ClearOptions) ==
      [Cookies.Attr(Cookies.MaxAgeAttr, Some("0")), Cookies.Attr(Cookies.ExpiresAttr, Some(Cookies.Epoch))]
  {
    var ks := Cookies.CookieKinds;
    var val := AttrOf(ClearOptions);
    assert ks[0] == Cookies.PathAttr && val(Cookies.PathAttr).None?;
    Cookies.CollectSkip(ks, val);
    assert ks[1..][0] == Cookies.DomainAttr && val(Cookies.DomainAttr).None?;
    Cookies.CollectSkip(ks[1..], val);
    assert ks[1..][1..] == ks[2..];
    ClearFromMaxAge();
  }

  lemma ClearFromMaxAge()
    ensures Cookies.Collect(Cookies.CookieKinds[2..], AttrOf(ClearOptions)) ==
      [Cookies.Attr(Cookies.MaxAgeAttr, Some("0")), Cookies.Attr(Cookies.ExpiresAttr, Some(Cookies.Epoch))]
  {
    var ks := Cookies.CookieKinds;
    var val := AttrOf(ClearOptions);
    assert val(Cookies.MaxAgeAttr) == Some(Some("0")) by {
      assert IntToString(0) == "0";
    }
    assert ks[2..][0] == Cookies.MaxAgeAttr;
    Cookies.CollectTake(ks[2..], val);
    assert ks[2..][1..] == ks[3..];
    ClearFromExpires();
  }

  lemma ClearFromExpires()
    ensures Cookies.Collect(Cookies.CookieKinds[3..], AttrOf(ClearOptions)) ==
      [Cookies.Attr(Cookies.ExpiresAttr, Some(Cookies.Epoch))]
  {
    var ks := Cookies.CookieKinds;
    var val := AttrOf(ClearOptions);
    assert ks[6..][1..] == [];
    assert Cookies.Collect(ks[6..], val) == [];
    assert ks[5..][1..] == ks[6..];
    assert Cookies.Collect(ks[5..], val) == [];
    assert ks[4..][1..] == ks[5..];
    assert Cookies.Collect(ks[4..], val) == [];
    assert ks[3..][1..] == ks[4..];
  }

  /** Each `setCookie` replaces the header, so only the last line stays. */
  lemma OnlyLastCookieSurvives(res: Response, n1: string, v1: string, o1: Cookies.Options,
                               n2: string, v2: string, o2: Cookies.Options, encode: string -> string)
    ensures H.Get(SetCookie(SetCookie(res, n1, v1, o1, encode), n2, v2, o2, encode).headers, "Set-Cookie")
      == Some(SetCookieLine(n2, v2, o2, encode))
  {
  }
}

/** The router of primitives.ts: static paths in a path → method map,
    dynamic ones in the shared trie (a parameter node is named when it is
    created), a greedy walk, and an unbounded cache of fully walked
    lookups. */
module PrimitivesRouter {
  import opened Wrappers
  import opened Text
  import opened Trie

  datatype Found = Found(handler: Option<HandlerRef>, params: map<string, string>)

  const NotFound := Found(None, map[])

  datatype Router = Router(nodes: Nodes, statics: map<string, map<string, HandlerRef>>, cache: map<string, Found>)

  const Empty := Router(Root, map[], map[])

  predicate Valid(r: Router) {
    WellFormed(r.nodes)
  }

  predicate IsStaticPath(path: string) {
    ':' !in path && '*' !in path
  }

  function NodeOf(path: string): Key {
    Edges(Segments(path, '/'))
  }

  /** `add(method, path, handler)`: never throws; a second handler for the
      same method and path replaces the first. */
  function Add(r: Router, verb: string, path: string, h: HandlerRef): (out: Router)
    requires Valid(r)
    ensures Valid(out) && out.cache == r.cache
    ensures IsStaticPath(path) ==>
      && out.nodes == r.nodes
      && path in out.statics && out.statics[path] == (if path in r.statics then r.statics[path] else map[])[verb := h]
      && forall p :: p != path ==> (p in out.statics <==> p in r.statics) && (p in r.statics ==> out.statics[p] == r.statics[p])
    ensures !IsStaticPath(path) ==>
      && out.statics == r.statics
      && NodeOf(path) in out.nodes && verb in out.nodes[NodeOf(path)].handlers
      && out.nodes[NodeOf(path)].handlers[verb] == h
  {
    if IsStaticPath(path) then
      var m := if path in r.statics then r.statics[path] else map[];
      r.(statics := r.statics[path := m[verb := h]])
    else
      var g := Grow(r.nodes, [], Segments(path, '/'), OnCreation);
      GrowWellFormed(r.nodes, [], Segments(path, '/'), OnCreation);
      var t := g.0;
      var k := g.1;
      assert k == NodeOf(path) by {
        assert [] + Edges(Segments(path, '/')) == Edges(Segments(path, '/'));
      }
      r.(nodes := t[k := t[k].(handlers := t[k].handlers[verb := h])])
  }

  /** Re-adding a static route overwrites silently. */
  lemma StaticReaddOverwrites(r: Router, verb: string, path: string, h1: HandlerRef, h2: HandlerRef)
    requires Valid(r) && IsStaticPath(path)
    ensures var r2 := Add(Add(r, verb, path, h1), verb, path, h2);
      r2.statics[path][verb] == h2
  {
  }

  /** The lookup `find` does: the static path entry (possibly without a
      handler for the method) before anything else, then the cache, then
      the greedy walk, whose completed lookups are cached under
      "METHOD path". A walk that dead-ends is not cached. */
  function Find(r: Router, verb: string, path: string): (out: (Router, Found))
    requires Valid(r)
    ensures Valid(out.0) && out.0.nodes == r.nodes && out.0.statics == r.statics
    ensures path in r.statics ==>
      out == (r, Found(if verb in r.statics[path] then Some(r.statics[path][verb]) else None, map[]))
    ensures path !in r.statics && verb + " " + path in r.cache ==> out == (r, r.cache[verb + " " + path])
    ensures path !in r.statics && verb + " " + path !in r.cache ==>
      (out.0 == r <==> GreedyWalk(r.nodes, [], Segments(path, '/'), 0, map[], true).None?)
    ensures path !in r.statics && out.0 != r ==> out.0.cache == r.cache[verb + " " + path := out.1]
    ensures path !in r.statics && verb + " " + path !in r.cache ==>
      match GreedyWalk(r.nodes, [], Segments(path, '/'), 0, map[], true)
      case None => out.1 == NotFound
      case Some((k, params)) =>
        k in r.nodes && out.1 == Found(if verb in r.nodes[k].handlers then Some(r.nodes[k].handlers[verb]) else None, params)
  {
    var key := verb + " " + path;
    if path in r.statics then
      (r, Found(if verb in r.statics[path] then Some(r.statics[path][verb]) else None, map[]))
    else if key in r.cache then (r, r.cache[key])
    else
      GreedyWalkMatches(r.nodes, [], Segments(path, '/'), 0, map[], true);
      match GreedyWalk(r.nodes, [], Segments(path, '/'), 0, map[], true)
      case None => (r, NotFound)
      case Some((k, params)) =>
        var res := Found(if verb in r.nodes[k].handlers then Some(r.nodes[k].handlers[verb]) else None, params);
        assert r.cache[key := res] != r.cache by { assert key !in r.cache; }
        (r.(cache := r.cache[key := res]), res)
  }

  /** A static route just added is found by its own path with its
      handler and no params. */
  lemma AddedStaticIsFound(r: Router, verb: string, path: string, h: HandlerRef)
    requires Valid(r) && IsStaticPath(path)
    ensures Find(Add(r, verb, path, h), verb, path).1 == Found(Some(h), map[])
  {
  }

  /** A cached lookup answers later requests even after the route table
      changes: the cache is never invalidated by `add`. */
  lemma CacheOutlivesAdd(r: Router, verb: string, path: string, h: HandlerRef, verb2: string, path2: string)
    requires Valid(r) && path !in r.statics && !IsStaticPath(path2)
    requires verb + " " + path in r.cache
    ensures Find(Add(r, verb2, path2, h), verb, path).1 == r.cache[verb + " " + path]
  {
  }
}
