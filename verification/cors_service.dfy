/** The CORS service of src/CORSService.ts: which Access-Control-* headers
    a request receives, and how a preflight (OPTIONS) request is answered
    (the CORS protocol of section 3.2 of the WHATWG Fetch Standard). The
    decision is a list of header writes; `Before` performs them through
    the functional response writers. */
module CorsService {
  import opened Wrappers
  import opened Text
  import opened SystemErrors
  import opened HttpContext
  import StdResponse
  import H = Headers

  /** The `origin` option. `Exact("*")` is the default wildcard; `Flag`
      is a boolean (`true` reflects any origin); `Matcher` stands for a
      RegExp's `test` or a user function, both opaque here. */
  datatype Origin =
    | Exact(origin: string)
    | OneOf(origins: seq<string>)
    | Flag(allowAll: bool)
    | Matcher(test: string -> bool)

  /** A `string | string[]` option; an array is joined with ",". */
  datatype Listing = Single(text: string) | Joined(items: seq<string>) {
    function Text(): string {
      match this
      case Single(t) => t
      case Joined(xs) => Join(xs, ",")
    }
    /** `.length > 0`: the string's length or the array's. */
    predicate NonEmpty() {
      match this
      case Single(t) => |t| > 0
      case Joined(xs) => |xs| > 0
    }
  }

  datatype Config = Config(
    origin: Origin,
    methods: Listing,
    allowedHeaders: Listing,
    exposedHeaders: Listing,
    credentials: bool,
    maxAge: int,
    optionsSuccessStatus: int)

  /** The options as passed to the constructor; `None` is undefined. */
  datatype Options = Options(
    origin: Option<Origin>,
    methods: Option<Listing>,
    allowedHeaders: Option<Listing>,
    exposedHeaders: Option<Listing>,
    credentials: Option<bool>,
    maxAge: Option<int>,
    optionsSuccessStatus: Option<int>)

  const DefaultMethods := "GET,HEAD,PUT,PATCH,POST,DELETE"

  /** The constructor's defaults. */
  function Resolve(o: Options): (cfg: Config)
    ensures o.origin.None? ==> cfg.origin == Exact("*")
    ensures o.methods.None? ==> cfg.methods == Single(DefaultMethods)
    ensures o.allowedHeaders.None? ==> cfg.allowedHeaders == Joined([])
    ensures o.exposedHeaders.None? ==> cfg.exposedHeaders == Joined([])
    ensures cfg.credentials == o.credentials.GetOr(false)
    ensures cfg.maxAge == o.maxAge.GetOr(86400)
    ensures cfg.optionsSuccessStatus == o.optionsSuccessStatus.GetOr(204)
  {
    Config(o.origin.GetOr(Exact("*")), o.methods.GetOr(Single(DefaultMethods)),
           o.allowedHeaders.GetOr(Joined([])), o.exposedHeaders.GetOr(Joined([])),
           o.credentials.GetOr(false), o.maxAge.GetOr(86400), o.optionsSuccessStatus.GetOr(204))
  }

  predicate IsWildcard(o: Origin) {
    o.Exact? && o.origin == "*"
  }

  /** `isOriginAllowed(origin, allowed)`. */
  predicate IsOriginAllowed(origin: string, allowed: Origin) {
    match allowed
    case Exact(s) => s == "*" || origin == s
    case OneOf(xs) => origin in xs
    case Flag(b) => b
    case Matcher(test) => test(origin)
  }

  /** The membership rule for lists and the equality rule for strings. */
  lemma OriginRules(origin: string, s: string, xs: seq<string>)
    ensures s != "*" ==> (IsOriginAllowed(origin, Exact(s)) <==> origin == s)
    ensures IsOriginAllowed(origin, OneOf(xs)) <==> exists i :: 0 <= i < |xs| && xs[i] == origin
    ensures IsOriginAllowed(origin, Flag(true)) && !IsOriginAllowed(origin, Flag(false))
  {
  }

  const VaryName := "Vary"
  const AllowOriginName := "Access-Control-Allow-Origin"
  const AllowCredentialsName := "Access-Control-Allow-Credentials"
  const ExposeName := "Access-Control-Expose-Headers"
  const AllowMethodsName := "Access-Control-Allow-Methods"
  const AllowHeadersName := "Access-Control-Allow-Headers"
  const MaxAgeName := "Access-Control-Max-Age"

  /** The value of the last write to exactly `name` in a plan. */
  function Lookup(hs: seq<(string, string)>, name: string): Option<string>
    decreases |hs|
  {
    if hs == [] then None
    else if Lookup(hs[1..], name).Some? then Lookup(hs[1..], name)
    else if hs[0].0 == name then Some(hs[0].1)
    else None
  }

  /** The Allow-Origin value ("" for none) and whether Vary is set. */
  function OriginDecision(cfg: Config, reqOrigin: string): (string, bool) {
    if IsWildcard(cfg.origin) then (if cfg.credentials then reqOrigin else "*", false)
    else if IsOriginAllowed(reqOrigin, cfg.origin) then (reqOrigin, true)
    else ("", false)
  }

  /** One optional write. */
  function Opt(cond: bool, name: string, value: string): seq<(string, string)> {
    if cond then [(name, value)] else []
  }

  /** The field names a plan writes. */
  function NamesOf(hs: seq<(string, string)>): set<string> {
    set i | 0 <= i < |hs| :: hs[i].0
  }

  lemma OptLookup(cond: bool, name: string, value: string, n: string)
    ensures Lookup(Opt(cond, name, value), n) == (if cond && name == n then Some(value) else None)
    ensures NamesOf(Opt(cond, name, value)) <= {name}
  {
    if cond {
      assert Opt(cond, name, value)[1..] == [];
    }
  }

  /** A name a plan never writes is looked up as none. */
  lemma {:induction false} LookupAbsent(hs: seq<(string, string)>, n: string)
    requires n !in NamesOf(hs)
    ensures Lookup(hs, n) == None
    decreases |hs|
  {
    if hs != [] {
      assert NamesOf(hs[1..]) <= NamesOf(hs) by {
        forall k | k in NamesOf(hs[1..]) ensures k in NamesOf(hs) {
          var i :| 0 <= i < |hs[1..]| && hs[1..][i].0 == k;
          assert hs[i + 1].0 == k;
        }
      }
      LookupAbsent(hs[1..], n);
    }
  }

  lemma NamesAppend(a: seq<(string, string)>, b: seq<(string, string)>)
    ensures NamesOf(a + b) == NamesOf(a) + NamesOf(b)
  {
    forall k | k in NamesOf(a + b) ensures k in NamesOf(a) + NamesOf(b) {
      var i :| 0 <= i < |a + b| && (a + b)[i].0 == k;
      if i >= |a| { assert b[i - |a|].0 == k; }
    }
    forall k | k in NamesOf(a) + NamesOf(b) ensures k in NamesOf(a + b) {
      if k in NamesOf(a) {
        var i :| 0 <= i < |a| && a[i].0 == k;
        assert (a + b)[i].0 == k;
      } else {
        var i :| 0 <= i < |b| && b[i].0 == k;
        assert (a + b)[|a| + i].0 == k;
      }
    }
  }

  const PreflightNames := {AllowMethodsName, AllowHeadersName, MaxAgeName}

  /** The preflight-only writes. */
  function PreflightPlan(cfg: Config, reqHeaders: string): (hs: seq<(string, string)>)
    ensures NamesOf(hs) <= PreflightNames
    ensures Lookup(hs, AllowMethodsName) == Some(cfg.methods.Text())
    ensures cfg.allowedHeaders == Joined([]) ==>
      Lookup(hs, AllowHeadersName) == (if reqHeaders == "" then None else Some(reqHeaders))
    ensures cfg.allowedHeaders != Joined([]) ==>
      Lookup(hs, AllowHeadersName) == (if cfg.allowedHeaders.Text() == "" then None else Some(cfg.allowedHeaders.Text()))
    ensures Lookup(hs, MaxAgeName) == (if cfg.maxAge == 0 then None else Some(IntToString(cfg.maxAge)))
  {
    var headersVal := if cfg.allowedHeaders == Joined([]) then reqHeaders else cfg.allowedHeaders.Text();
    var a := Opt(true, AllowMethodsName, cfg.methods.Text());
    var b := Opt(headersVal != "", AllowHeadersName, headersVal);
    var c := Opt(cfg.maxAge != 0, MaxAgeName, IntToString(cfg.maxAge));
    forall n ensures Lookup(a + b + c, n) == (if Lookup(c, n).Some? then Lookup(c, n)
                                             else if Lookup(b, n).Some? then Lookup(b, n) else Lookup(a, n)) {
      LookupAppend(a + b, c, n);
      LookupAppend(a, b, n);
    }
    OptLookup(true, AllowMethodsName, cfg.methods.Text(), AllowMethodsName);
    OptLookup(true, AllowMethodsName, cfg.methods.Text(), AllowHeadersName);
    OptLookup(true, AllowMethodsName, cfg.methods.Text(), MaxAgeName);
    OptLookup(headersVal != "", AllowHeadersName, headersVal, AllowMethodsName);
    OptLookup(headersVal != "", AllowHeadersName, headersVal, AllowHeadersName);
    OptLookup(headersVal != "", AllowHeadersName, headersVal, MaxAgeName);
    OptLookup(cfg.maxAge != 0, MaxAgeName, IntToString(cfg.maxAge), AllowMethodsName);
    OptLookup(cfg.maxAge != 0, MaxAgeName, IntToString(cfg.maxAge), AllowHeadersName);
    OptLookup(cfg.maxAge != 0, MaxAgeName, IntToString(cfg.maxAge), MaxAgeName);
    NamesAppend(a, b);
    NamesAppend(a + b, c);
    a + b + c
  }

  /** The header writes of `before`, in call order. */
  function Plan(cfg: Config, reqOrigin: string, reqHeaders: string, preflight: bool): (hs: seq<(string, string)>)
    ensures IsWildcard(cfg.origin) && !cfg.credentials ==> Lookup(hs, AllowOriginName) == Some("*")
    ensures IsWildcard(cfg.origin) && cfg.credentials ==>
      Lookup(hs, AllowOriginName) == (if reqOrigin == "" then None else Some(reqOrigin))
    ensures !IsWildcard(cfg.origin) && IsOriginAllowed(reqOrigin, cfg.origin) ==>
      Lookup(hs, VaryName) == Some("Origin")
      && Lookup(hs, AllowOriginName) == (if reqOrigin == "" then None else Some(reqOrigin))
    ensures (IsWildcard(cfg.origin) || !IsOriginAllowed(reqOrigin, cfg.origin)) ==> Lookup(hs, VaryName) == None
    ensures !IsWildcard(cfg.origin) && !IsOriginAllowed(reqOrigin, cfg.origin) ==> Lookup(hs, AllowOriginName) == None
    ensures Lookup(hs, AllowCredentialsName) == (if cfg.credentials then Some("true") else None)
    ensures Lookup(hs, ExposeName) == (if cfg.exposedHeaders.NonEmpty() then Some(cfg.exposedHeaders.Text()) else None)
    ensures forall n :: n in PreflightNames ==> Lookup(hs, n) == (if preflight then Lookup(PreflightPlan(cfg, reqHeaders), n) else None)
    ensures NamesOf(hs) <= PlanNames
  {
    var (allow, vary) := OriginDecision(cfg, reqOrigin);
    var a := Opt(vary, VaryName, "Origin");
    var b := Opt(allow != "", AllowOriginName, allow);
    var c := Opt(cfg.credentials, AllowCredentialsName, "true");
    var d := Opt(cfg.exposedHeaders.NonEmpty(), ExposeName, cfg.exposedHeaders.Text());
    var e := if preflight then PreflightPlan(cfg, reqHeaders) else [];
    PlanLookups(a, b, c, d, e);
    OptLookup(vary, VaryName, "Origin", VaryName);
    OptLookup(allow != "", AllowOriginName, allow, AllowOriginName);
    OptLookup(cfg.credentials, AllowCredentialsName, "true", AllowCredentialsName);
    OptLookup(cfg.exposedHeaders.NonEmpty(), ExposeName, cfg.exposedHeaders.Text(), ExposeName);
    a + b + c + d + e
  }

  const PlanNames: set<string> :=
    {VaryName, AllowOriginName, AllowCredentialsName, ExposeName, AllowMethodsName, AllowHeadersName, MaxAgeName}

  /** Each name is looked up in the one slot that writes it. */
  lemma PlanLookups(a: seq<(string, string)>, b: seq<(string, string)>, c: seq<(string, string)>,
                    d: seq<(string, string)>, e: seq<(string, string)>)
    requires NamesOf(a) <= {VaryName} && NamesOf(b) <= {AllowOriginName}
    requires NamesOf(c) <= {AllowCredentialsName} && NamesOf(d) <= {ExposeName}
    requires NamesOf(e) <= PreflightNames
    ensures Lookup(a + b + c + d + e, VaryName) == Lookup(a, VaryName)
    ensures Lookup(a + b + c + d + e, AllowOriginName) == Lookup(b, AllowOriginName)
    ensures Lookup(a + b + c + d + e, AllowCredentialsName) == Lookup(c, AllowCredentialsName)
    ensures Lookup(a + b + c + d + e, ExposeName) == Lookup(d, ExposeName)
    ensures forall n :: n in PreflightNames ==> Lookup(a + b + c + d + e, n) == Lookup(e, n)
    ensures NamesOf(a + b + c + d + e) <= PlanNames
  {
    NameLengths();
    PlanLookupAt(a, b, c, d, e, VaryName);
    PlanLookupAt(a, b, c, d, e, AllowOriginName);
    PlanLookupAt(a, b, c, d, e, AllowCredentialsName);
    PlanLookupAt(a, b, c, d, e, ExposeName);
    forall n | n in PreflightNames ensures Lookup(a + b + c + d + e, n) == Lookup(e, n) {
      PlanLookupAt(a, b, c, d, e, n);
    }
    PlanNamesBound(a, b, c, d, e);
  }

  lemma PlanNamesBound(a: seq<(string, string)>, b: seq<(string, string)>, c: seq<(string, string)>,
                       d: seq<(string, string)>, e: seq<(string, string)>)
    requires NamesOf(a) <= {VaryName} && NamesOf(b) <= {AllowOriginName}
    requires NamesOf(c) <= {AllowCredentialsName} && NamesOf(d) <= {ExposeName}
    requires NamesOf(e) <= PreflightNames
    ensures NamesOf(a + b + c + d + e) <= PlanNames
  {
    NamesAppend(a, b);
    NamesAppend(a + b, c);
    NamesAppend(a + b + c, d);
    NamesAppend(a + b + c + d, e);
  }

  /** The header names differ in length, except the two preflight lists. */
  lemma NameLengths()
    ensures |VaryName| == 4 && |AllowOriginName| == 27 && |AllowCredentialsName| == 32
    ensures |ExposeName| == 29 && |AllowMethodsName| == 28 && |AllowHeadersName| == 28 && |MaxAgeName| == 22
  {
  }

  /** One name in the five slots: found in the last slot that holds it. */
  lemma PlanLookupAt(a: seq<(string, string)>, b: seq<(string, string)>, c: seq<(string, string)>,
                     d: seq<(string, string)>, e: seq<(string, string)>, n: string)
    ensures Lookup(a + b + c + d + e, n)
         == (if Lookup(e, n).Some? then Lookup(e, n) else if Lookup(d, n).Some? then Lookup(d, n)
             else if Lookup(c, n).Some? then Lookup(c, n) else if Lookup(b, n).Some? then Lookup(b, n)
             else Lookup(a, n))
    ensures n !in NamesOf(a) ==> Lookup(a, n) == None
    ensures n !in NamesOf(b) ==> Lookup(b, n) == None
    ensures n !in NamesOf(c) ==> Lookup(c, n) == None
    ensures n !in NamesOf(d) ==> Lookup(d, n) == None
    ensures n !in NamesOf(e) ==> Lookup(e, n) == None
  {
    LookupAppend(a + b + c + d, e, n);
    LookupAppend(a + b + c, d, n);
    LookupAppend(a + b, c, n);
    LookupAppend(a, b, n);
    if n !in NamesOf(a) { LookupAbsent(a, n); }
    if n !in NamesOf(b) { LookupAbsent(b, n); }
    if n !in NamesOf(c) { LookupAbsent(c, n); }
    if n !in NamesOf(d) { LookupAbsent(d, n); }
    if n !in NamesOf(e) { LookupAbsent(e, n); }
  }

  /** Looking up in a concatenation: the back first. */
  lemma {:induction false} LookupAppend(a: seq<(string, string)>, b: seq<(string, string)>, n: string)
    ensures Lookup(a + b, n) == (if Lookup(b, n).Some? then Lookup(b, n) else Lookup(a, n))
    decreases |a|
  {
    if a == [] {
      assert a + b == b;
    } else {
      assert (a + b)[1..] == a[1..] + b;
      LookupAppend(a[1..], b, n);
    }
  }

  /** The request header `name`, "" when absent (`header(c, name) || ""`). */
  function RequestHeader<J>(c: Ctx<J>, name: string): string {
    H.ViewGet(c.req.headers, name).GetOr("")
  }

  /** The seven field names are distinct fields, whatever the case. */
  lemma PlanNamesDistinct()
    ensures forall x, y :: x in PlanNames && y in PlanNames && x != y ==> !H.SameField(x, y)
  {
    forall x, y | x in PlanNames && y in PlanNames && x != y
      ensures !H.SameField(x, y)
    {
      if |x| == |y| {
        assert {x, y} == {AllowMethodsName, AllowHeadersName};
        assert H.Norm(x)[21] != H.Norm(y)[21];
      } else {
        assert |H.Norm(x)| != |H.Norm(y)|;
      }
    }
  }

  /** Over the plan's field names, the last write to the same field is
      the last write to the same name. */
  lemma {:induction false} PlanReadsBack(hs: seq<(string, string)>, n: string)
    requires NamesOf(hs) <= PlanNames
    requires n in PlanNames
    ensures StdResponse.LastFor(hs, n) == Lookup(hs, n)
    decreases |hs|
  {
    if hs != [] {
      assert NamesOf(hs) == {hs[0].0} + NamesOf(hs[1..]) by {
        NamesAppend([hs[0]], hs[1..]);
        assert [hs[0]] + hs[1..] == hs;
      }
      PlanReadsBack(hs[1..], n);
      PlanNamesDistinct();
      assert H.SameField(hs[0].0, n) <==> hs[0].0 == n;
    }
  }

  /** The writes `before` makes for this request. */
  function RequestPlan<J>(c: Ctx<J>, cfg: Config): seq<(string, string)> {
    Plan(cfg, RequestHeader(c, "Origin"), RequestHeader(c, "Access-Control-Request-Headers"), c.verb == "OPTIONS")
  }

  /** `before(c)`. */
  function Before<J>(c: Ctx<J>, cfg: Config): (r: Result<Ctx<J>, Failure>)
    ensures ConfigurableCheck(c).None? && StdResponse.NoLineBreaks(RequestPlan(c, cfg)) ==> r.Ok?
    ensures r.Ok? ==> (forall n :: n in PlanNames && Lookup(RequestPlan(c, cfg), n).Some? ==>
                        H.Get(r.value.res.headers, n) == Lookup(RequestPlan(c, cfg), n))
    ensures r.Ok? ==> (forall n :: n in PlanNames && Lookup(RequestPlan(c, cfg), n).None? ==>
                        H.GetAll(r.value.res.headers, n) == H.GetAll(c.res.headers, n))
    ensures r.Ok? && c.verb == "OPTIONS" ==> IsDone(r.value) && r.value.res.status == cfg.optionsSuccessStatus
    ensures r.Ok? && c.verb != "OPTIONS" ==> r.value.state == c.state && r.value.res.status == c.res.status
  {
    var hs := Plan(cfg, RequestHeader(c, "Origin"), RequestHeader(c, "Access-Control-Request-Headers"), c.verb == "OPTIONS");
    var c1 :- StdResponse.SetHeaders(c, hs);
    assert forall n :: n in PlanNames ==> StdResponse.LastFor(hs, n) == Lookup(hs, n) by {
      forall n | n in PlanNames ensures StdResponse.LastFor(hs, n) == Lookup(hs, n) {
        PlanReadsBack(hs, n);
      }
    }
    // A preflight plan always writes Allow-Methods, so once the writes
    // succeeded the status may be set as well.
    if c.verb == "OPTIONS" then Ok(Finalize(c1.(res := c1.res.(status := cfg.optionsSuccessStatus))))
    else Ok(c1)
  }
}
