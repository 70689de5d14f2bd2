/** The fixed-window limiter of src/std/RateLimitService.ts. The shared
    store is threaded through as a value; the clock reading, the key the
    key generator produces (by default `StdRequest.ClientIP`) and the
    UTC date text of a timestamp are parameters. */
module RateLimitService {
  import opened Wrappers
  import opened Text
  import opened SystemErrors
  import opened HttpContext
  import StdResponse
  import H = Headers

  /** A client's window: requests counted so far and when it ends (ms). */
  datatype Record = Record(count: int, resetTime: int)

  type Store = map<string, Record>

  datatype Config = Config(limit: int, windowMs: int, message: string, statusCode: int, standardHeaders: bool)

  /** The options as passed to the constructor; `None` is undefined. */
  datatype Options = Options(limit: Option<int>, windowMs: Option<int>, message: Option<string>,
                             statusCode: Option<int>, standardHeaders: Option<bool>)

  /** The constructor's `??` defaults. */
  function Resolve(o: Options): (cfg: Config)
    ensures cfg.limit == o.limit.GetOr(100) && cfg.windowMs == o.windowMs.GetOr(60000)
    ensures cfg.message == o.message.GetOr("Too many requests, please try again later.")
    ensures cfg.statusCode == o.statusCode.GetOr(429) && cfg.standardHeaders == o.standardHeaders.GetOr(true)
  {
    Config(o.limit.GetOr(100), o.windowMs.GetOr(60000), o.message.GetOr("Too many requests, please try again later."),
           o.statusCode.GetOr(429), o.standardHeaders.GetOr(true))
  }

  /** The store key: the limit and window, then the client key, so two
      limiters with different settings never share a record. */
  function StorageKey(limit: int, windowMs: int, clientKey: string): string {
    IntToString(limit) + ":" + IntToString(windowMs) + ":" + clientKey
  }

  /** Where the first colon of `s` is (|s| when there is none). */
  function FirstColon(s: string): (i: nat)
    ensures i <= |s|
    ensures forall k :: 0 <= k < i ==> s[k] != ':'
    ensures i < |s| ==> s[i] == ':'
  {
    if |s| == 0 || s[0] == ':' then 0 else 1 + FirstColon(s[1..])
  }

  lemma {:induction false} FirstColonAfter(a: string, rest: string)
    requires ':' !in a
    ensures FirstColon(a + ":" + rest) == |a|
  {
    var s := a + ":" + rest;
    assert s[|a|] == ':';
    assert forall k :: 0 <= k < |a| ==> s[k] == a[k];
  }

  lemma NoColon(i: int)
    ensures ':' !in IntToString(i)
  {
    var s := IntToString(i);
    assert forall k :: 0 <= k < |s| ==> s[k] != ':';
  }

  /** Splitting at the first colon recovers the text before it and after it. */
  lemma ColonSplit(a: string, rest: string, b: string, rest': string)
    requires ':' !in a && ':' !in b
    requires a + ":" + rest == b + ":" + rest'
    ensures a == b && rest == rest'
  {
    FirstColonAfter(a, rest);
    FirstColonAfter(b, rest');
    var s := a + ":" + rest;
    assert a == s[..|a|];
    assert b == s[..|b|];
    assert rest == s[|a| + 1..];
    assert rest' == (b + ":" + rest')[|b| + 1..];
  }

  /** Distinct settings or clients never share a record. */
  lemma StorageKeyInjective(l1: int, w1: int, k1: string, l2: int, w2: int, k2: string)
    requires StorageKey(l1, w1, k1) == StorageKey(l2, w2, k2)
    ensures l1 == l2 && w1 == w2 && k1 == k2
  {
    var a1, a2 := IntToString(l1), IntToString(l2);
    var b1, b2 := IntToString(w1), IntToString(w2);
    assert StorageKey(l1, w1, k1) == a1 + ":" + (b1 + ":" + k1);
    assert StorageKey(l2, w2, k2) == a2 + ":" + (b2 + ":" + k2);
    NoColon(l1); NoColon(l2); NoColon(w1); NoColon(w2);
    ColonSplit(a1, b1 + ":" + k1, a2, b2 + ":" + k2);
    ColonSplit(b1, k1, b2, k2);
    IntToStringInjective(l1, l2);
    IntToStringInjective(w1, w2);
  }

  /** One request under `key` at time `now`: a missing or expired record
      (its reset time strictly before `now`) restarts the window, then the
      count goes up by one. No other record changes. */
  function Hit(s: Store, key: string, now: int, windowMs: int): (r: Store)
    ensures key in r && r.Keys == s.Keys + {key}
    ensures key !in s || s[key].resetTime < now ==> r[key] == Record(1, now + windowMs)
    ensures key in s && s[key].resetTime >= now ==> r[key] == s[key].(count := s[key].count + 1)
    ensures forall k :: k in s && k != key ==> r[k] == s[k]
  {
    var rec := if key !in s || s[key].resetTime < now then Record(0, now + windowMs) else s[key];
    s[key := rec.(count := rec.count + 1)]
  }

  /** A run of requests under one key at the given times. */
  function Hits(s: Store, key: string, times: seq<int>, windowMs: int): Store
    decreases |times|
  {
    if times == [] then s else Hits(Hit(s, key, times[0], windowMs), key, times[1..], windowMs)
  }

  /** Whether the request is over the limit. */
  predicate Blocked(s: Store, cfg: Config, now: int, key: string) {
    Hit(s, key, now, cfg.windowMs)[key].count > cfg.limit
  }

  /** Inside one window the record counts every request and keeps the
      reset time of the request that opened it. */
  lemma {:induction false} HitsCount(s: Store, key: string, start: int, times: seq<int>, windowMs: int)
    requires key in s && s[key].resetTime == start + windowMs
    requires forall i :: 0 <= i < |times| ==> times[i] <= start + windowMs
    ensures var r := Hits(s, key, times, windowMs);
      key in r && r[key] == s[key].(count := s[key].count + |times|)
    decreases |times|
  {
    if times != [] {
      var s1 := Hit(s, key, times[0], windowMs);
      HitsCount(s1, key, start, times[1..], windowMs);
    }
  }

  /** After the first `i > 0` requests of a fresh window the record
      counts `i` and ends a window after the first of them. */
  lemma OpenedWindow(s: Store, key: string, times: seq<int>, i: nat, w: int)
    requires 0 < i <= |times|
    requires key !in s || s[key].resetTime < times[0]
    requires forall j :: 0 <= j < |times| ==> times[j] <= times[0] + w
    ensures var r := Hits(s, key, times[..i], w);
      key in r && r[key] == Record(i, times[0] + w)
  {
    var s1 := Hit(s, key, times[0], w);
    var rest := times[1..i];
    assert times[..i] == [times[0]] + rest;
    assert Hits(s, key, times[..i], w) == Hits(s1, key, rest, w);
    assert forall j :: 0 <= j < |rest| ==> rest[j] == times[j + 1];
    HitsCount(s1, key, times[0], rest, w);
  }

  /** A fresh window: a client with no live record gets exactly `limit`
      requests through while the window lasts; the next is refused. */
  lemma FirstLimitPass(s: Store, cfg: Config, key: string, times: seq<int>, i: nat)
    requires |times| > 0 && i < |times|
    requires key !in s || s[key].resetTime < times[0]
    requires forall j :: 0 <= j < |times| ==> times[j] <= times[0] + cfg.windowMs
    ensures Blocked(Hits(s, key, times[..i], cfg.windowMs), cfg, times[i], key) <==> i >= cfg.limit
  {
    if i == 0 {
      assert times[..0] == [];
    } else {
      OpenedWindow(s, key, times, i, cfg.windowMs);
    }
  }

  /** Once a window has ended, the next request starts a new one. */
  lemma WindowRestarts(s: Store, cfg: Config, key: string, now: int)
    requires key in s && s[key].resetTime < now
    ensures Hit(s, key, now, cfg.windowMs)[key] == Record(1, now + cfg.windowMs)
    ensures Blocked(s, cfg, now, key) <==> cfg.limit < 1
  {
  }

  /** `RateLimitService.prune()`: drops the records whose window ended
      before `now`. */
  function Prune(s: Store, now: int): (r: Store)
    ensures forall k :: k in r <==> k in s && s[k].resetTime >= now
    ensures forall k :: k in r ==> r[k] == s[k]
  {
    map k | k in s && s[k].resetTime >= now :: s[k]
  }

  /** Pruning never changes what a later request sees. */
  lemma PruneInvisible(s: Store, key: string, pruneAt: int, now: int, windowMs: int)
    requires pruneAt <= now
    ensures Hit(Prune(s, pruneAt), key, now, windowMs)[key] == Hit(s, key, now, windowMs)[key]
  {
  }

  const LimitName := "X-RateLimit-Limit"
  const RemainingName := "X-RateLimit-Remaining"
  const ResetName := "X-RateLimit-Reset"

  /** The standard headers for a record. */
  function Report(cfg: Config, rec: Record, utc: int -> string): seq<(string, string)> {
    [(LimitName, IntToString(cfg.limit)),
     (RemainingName, IntToString(if cfg.limit - rec.count > 0 then cfg.limit - rec.count else 0)),
     (ResetName, utc(rec.resetTime))]
  }

  /** Each of the three header writes is read back under its own name. */
  lemma ReportReadsBack(cfg: Config, rec: Record, utc: int -> string)
    ensures var hs := Report(cfg, rec, utc);
      StdResponse.LastFor(hs, LimitName) == Some(hs[0].1)
      && StdResponse.LastFor(hs, RemainingName) == Some(hs[1].1)
      && StdResponse.LastFor(hs, ResetName) == Some(hs[2].1)
  {
    var hs := Report(cfg, rec, utc);
    assert H.Norm(LimitName)[12] != H.Norm(ResetName)[12];
    assert !H.SameField(ResetName, LimitName) && !H.SameField(RemainingName, LimitName);
    assert !H.SameField(ResetName, RemainingName);
    assert hs[2..] == [hs[2]] && hs[1..][1..] == hs[2..] && hs[2..][1..] == [];
    assert StdResponse.LastFor(hs[2..], ResetName) == Some(hs[2].1);
    assert StdResponse.LastFor(hs[2..], RemainingName) == None;
    assert StdResponse.LastFor(hs[2..], LimitName) == None;
    assert StdResponse.LastFor(hs[1..], RemainingName) == Some(hs[1].1);
    assert StdResponse.LastFor(hs[1..], LimitName) == None;
  }

  /** `before(c)`: the store after the request, and the context. */
  function Before<J>(c: Ctx<J>, cfg: Config, s: Store, now: int, clientKey: string,
                     utc: int -> string, render: Fields -> string): (out: (Store, Result<Ctx<J>, Failure>))
    ensures out.0 == Hit(s, StorageKey(cfg.limit, cfg.windowMs, clientKey), now, cfg.windowMs)
    ensures var rec := out.0[StorageKey(cfg.limit, cfg.windowMs, clientKey)];
      && (out.1.Ok? && cfg.standardHeaders ==>
            (H.Get(out.1.value.res.headers, LimitName) == Some(IntToString(cfg.limit))
             && H.Get(out.1.value.res.headers, RemainingName) == Some(IntToString(if rec.count < cfg.limit then cfg.limit - rec.count else 0))
             && H.Get(out.1.value.res.headers, ResetName) == Some(utc(rec.resetTime))))
      && (out.1.Ok? && rec.count > cfg.limit ==>
            (IsDone(out.1.value) && out.1.value.res.status == cfg.statusCode
             && out.1.value.res.payload == TextPayload(render(ErrorObject("RATE_LIMITED", cfg.message, [])))))
      && (out.1.Ok? && rec.count <= cfg.limit ==> out.1.value == c.(res := c.res.(headers := out.1.value.res.headers)))
      && (!cfg.standardHeaders ==> (out.1.Err? <==> rec.count > cfg.limit && BodyCheck(c).Some?))
      && (!cfg.standardHeaders && rec.count <= cfg.limit ==> out.1 == Ok(c))
  {
    var key := StorageKey(cfg.limit, cfg.windowMs, clientKey);
    var s' := Hit(s, key, now, cfg.windowMs);
    var rec := s'[key];
    var c1 := if cfg.standardHeaders then StdResponse.SetHeaders(c, Report(cfg, rec, utc)) else Ok(c);
    ReportedHeaders(c, cfg, rec, utc);
    if c1.Err? then (s', c1)
    else if rec.count > cfg.limit then
      RejectKeepsReport(c1.value, cfg, render);
      (s', StdResponse.ErrorJson(c1.value, cfg.statusCode, "RATE_LIMITED", cfg.message, [], render))
    else (s', c1)
  }

  /** Writing the report makes its three headers readable. */
  lemma ReportedHeaders<J>(c: Ctx<J>, cfg: Config, rec: Record, utc: int -> string)
    ensures var c1 := StdResponse.SetHeaders(c, Report(cfg, rec, utc));
      c1.Ok? ==>
        && H.Get(c1.value.res.headers, LimitName) == Some(IntToString(cfg.limit))
        && H.Get(c1.value.res.headers, RemainingName) == Some(IntToString(if rec.count < cfg.limit then cfg.limit - rec.count else 0))
        && H.Get(c1.value.res.headers, ResetName) == Some(utc(rec.resetTime))
  {
    ReportReadsBack(cfg, rec, utc);
  }

  /** The refusal only sets Content-Type, so the report stays readable. */
  lemma RejectKeepsReport<J>(c1: Ctx<J>, cfg: Config, render: Fields -> string)
    ensures var r := StdResponse.ErrorJson(c1, cfg.statusCode, "RATE_LIMITED", cfg.message, [], render);
      r.Ok? ==>
        && H.Get(r.value.res.headers, LimitName) == H.Get(c1.res.headers, LimitName)
        && H.Get(r.value.res.headers, RemainingName) == H.Get(c1.res.headers, RemainingName)
        && H.Get(r.value.res.headers, ResetName) == H.Get(c1.res.headers, ResetName)
  {
    var r := StdResponse.ErrorJson(c1, cfg.statusCode, "RATE_LIMITED", cfg.message, [], render);
    if r.Ok? {
      var ct := H.Norm("Content-Type");
      assert ct[0] == 'c';
      assert H.Norm(LimitName)[0] == 'x' && H.Norm(RemainingName)[0] == 'x' && H.Norm(ResetName)[0] == 'x';
      assert r.value.res.headers == H.Set(c1.res.headers, "Content-Type", JsonMime);
    }
  }

  /** Two clients of the same limiter keep separate counts. */
  lemma ClientsIndependent<J>(c: Ctx<J>, cfg: Config, s: Store, now: int, a: string, b: string,
                              utc: int -> string, render: Fields -> string)
    requires a != b
    requires StorageKey(cfg.limit, cfg.windowMs, b) in s
    ensures var k := StorageKey(cfg.limit, cfg.windowMs, b);
      Before(c, cfg, s, now, a, utc, render).0[k] == s[k]
  {
    if StorageKey(cfg.limit, cfg.windowMs, a) == StorageKey(cfg.limit, cfg.windowMs, b) {
      StorageKeyInjective(cfg.limit, cfg.windowMs, a, cfg.limit, cfg.windowMs, b);
    }
  }
}
