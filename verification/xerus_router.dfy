/** The current router (src/Xerus.ts): registration into the shared trie,
    the backtracking `search`, and `find` with its flat map of static
    routes and its bounded, recency-ordered cache of resolved routes. */
module XerusRouter {
  import opened Wrappers
  import opened Text
  import opened Trie
  import opened RecencyCache
  import opened SystemErrors

  /** `MAX_CACHE_SIZE`. */
  const MaxCacheSize: nat := 500

  /** The four compiled WebSocket callbacks of a `WSHandler`. */
  datatype WsSlots = WsSlots(open: Option<HandlerRef>, message: Option<HandlerRef>,
                             close: Option<HandlerRef>, drain: Option<HandlerRef>)

  /** What `register` is given: an HTTP handler or a compiled WS handler. */
  datatype Registration = Http(handler: HandlerRef) | Ws(slots: WsSlots)

  /** A resolved route: the request method's handler, the node's WS handler, and
      the bound parameters. */
  datatype Resolved = Resolved(handler: Option<HandlerRef>, ws: Option<WsSlots>, params: map<string, string>)

  const Unresolved := Resolved(None, None, map[])

  datatype Router = Router(
    nodes: Nodes,                       // the trie, keyed by edge path
    ws: map<Key, WsSlots>,              // `node.wsHandler`
    routes: map<string, HandlerRef>,    // `routes`: "METHOD path" of static registrations
    cache: Cache<Resolved>)             // `resolvedRoutes`

  const Empty := Router(Root, map[], map[], Cache([]))

  /** The shape every router reachable from `Empty` keeps. */
  predicate Valid(r: Router) {
    WellFormed(r.nodes) && r.ws.Keys <= r.nodes.Keys && RecencyCache.Valid(r.cache, MaxCacheSize)
  }

  /** A new WS handler's callbacks override the ones already registered,
      slot by slot; an absent callback leaves the old one. */
  function MergeWs(prev: WsSlots, added: WsSlots): (m: WsSlots)
    ensures m.open == (if added.open.Some? then added.open else prev.open)
    ensures m.message == (if added.message.Some? then added.message else prev.message)
    ensures m.close == (if added.close.Some? then added.close else prev.close)
    ensures m.drain == (if added.drain.Some? then added.drain else prev.drain)
  {
    WsSlots(
      if added.open.Some? then added.open else prev.open,
      if added.message.Some? then added.message else prev.message,
      if added.close.Some? then added.close else prev.close,
      if added.drain.Some? then added.drain else prev.drain)
  }

  const NoSlots := WsSlots(None, None, None, None)

  /** Merging is associative, so registering handlers one after another
      gives the slots of their merge; merging in a handler without
      callbacks changes nothing, and merging the same handler twice is
      merging it once. */
  lemma MergeWsLaws(a: WsSlots, b: WsSlots, c: WsSlots)
    ensures MergeWs(MergeWs(a, b), c) == MergeWs(a, MergeWs(b, c))
    ensures MergeWs(a, NoSlots) == a && MergeWs(NoSlots, a) == a
    ensures MergeWs(MergeWs(a, b), b) == MergeWs(a, b)
  {
  }

  /** The result of `register`: the router afterwards (the trie grows even
      when registration then throws) and the error thrown, if any. */
  datatype Registered = Registered(router: Router, error: Option<Failure>)

  /** The node a path is registered at. */
  function NodeOf(path: string): Key {
    Edges(Segments(path, '/'))
  }

  /** A path with neither ":" nor "*" also goes into the flat map. */
  predicate IsStaticPath(path: string) {
    ':' !in path && '*' !in path
  }

  /** `register(method, path, handler)`. */
  function Register(r: Router, verb: string, path: string, reg: Registration): (out: Registered)
    requires Valid(r)
    ensures Valid(out.router)
    ensures NodeOf(path) in out.router.nodes
    ensures out.error.Some? <==> reg.Http? && NodeOf(path) in r.nodes && verb in r.nodes[NodeOf(path)].handlers
    ensures out.error.Some? ==> out.error.value == SystemErr(RouteAlreadyRegistered,
      "Route " + verb + " " + path + " has already been registered")
    ensures reg.Http? && out.error.None? ==>
      verb in out.router.nodes[NodeOf(path)].handlers && out.router.nodes[NodeOf(path)].handlers[verb] == reg.handler
    ensures out.error.Some? ==> out.router.nodes[NodeOf(path)].handlers == r.nodes[NodeOf(path)].handlers
    ensures r.nodes.Keys <= out.router.nodes.Keys
    ensures forall k :: k in r.nodes && k != NodeOf(path) ==> out.router.nodes[k].handlers == r.nodes[k].handlers
    ensures forall m :: m != verb && NodeOf(path) in r.nodes ==>
      (m in out.router.nodes[NodeOf(path)].handlers <==> m in r.nodes[NodeOf(path)].handlers)
    ensures reg.Ws? ==> (NodeOf(path) in out.router.ws && out.router.ws[NodeOf(path)] ==
      (if NodeOf(path) in r.ws then MergeWs(r.ws[NodeOf(path)], reg.slots) else reg.slots))
    ensures reg.Http? ==> out.router.ws == r.ws
    ensures out.router.cache == r.cache
    ensures reg.Http? && out.error.None? && IsStaticPath(path) ==>
      out.router.routes == r.routes[verb + " " + path := reg.handler]
    ensures !(reg.Http? && out.error.None? && IsStaticPath(path)) ==> out.router.routes == r.routes
  {
    var g := Grow(r.nodes, [], Segments(path, '/'), FillIfEmpty);
    GrowWellFormed(r.nodes, [], Segments(path, '/'), FillIfEmpty);
    var t := g.0;
    var k := g.1;
    assert k == NodeOf(path);
    match reg
    case Ws(slots) =>
      var merged := if k in r.ws then MergeWs(r.ws[k], slots) else slots;
      Registered(r.(nodes := t, ws := r.ws[k := merged]), None)
    case Http(h) =>
      if verb in t[k].handlers then
        Registered(r.(nodes := t), Some(SystemErr(RouteAlreadyRegistered,
          "Route " + verb + " " + path + " has already been registered")))
      else
        var t2 := t[k := t[k].(handlers := t[k].handlers[verb := h])];
        var routes := if IsStaticPath(path) then r.routes[verb + " " + path := h] else r.routes;
        Registered(Router(t2, r.ws, routes, r.cache), None)
  }

  /** Node `k` answers the request method `verb`: it has a handler for it or a WS handler. */
  predicate Accepts(r: Router, k: Key, verb: string) {
    k in r.nodes && (verb in r.nodes[k].handlers || k in r.ws)
  }

  /** A search result: the node reached and the parameters bound on the
      way. */
  datatype Hit = Hit(node: Key, params: map<string, string>)

  /** `search(node, parts, index, method, params)`: depth first, the exact
      child, then the parameter child, then an accepting wildcard child;
      a branch that finds nothing gives way to the next. */
  function Search(r: Router, at: Key, parts: seq<string>, idx: nat, verb: string,
                  params: map<string, string>): (res: Option<Hit>)
    requires at in r.nodes && idx <= |parts|
    ensures res.Some? ==> Accepts(r, res.value.node, verb)
    decreases |parts| - idx
  {
    var wk := at + [Wild];
    if idx == |parts| then
      if Accepts(r, at, verb) then Some(Hit(at, params))
      else if Accepts(r, wk, verb) then Some(Hit(wk, params))
      else None
    else
      var part := parts[idx];
      var ek := at + [ExactEdge(part)];
      var pk := at + [Param];
      var exact := if ek in r.nodes then Search(r, ek, parts, idx + 1, verb, params) else None;
      if exact.Some? then exact
      else
        var bound := if pk in r.nodes && r.nodes[pk].paramKey != "" then params[r.nodes[pk].paramKey := part] else params;
        var viaParam := if pk in r.nodes then Search(r, pk, parts, idx + 1, verb, bound) else None;
        if viaParam.Some? then viaParam
        else if Accepts(r, wk, verb) then Some(Hit(wk, params))
        else None
  }

  /** The routes below `at` that could answer the request from segment
      `idx` on: the path `rest` leads to an accepting node and matches the
      remaining segments. */
  predicate Candidate(r: Router, at: Key, rest: Key, verb: string, parts: seq<string>, idx: nat)
    requires idx <= |parts|
  {
    Accepts(r, at + rest, verb) && MatchRest(rest, parts, idx)
  }

  /** Whether `search` succeeds depends only on the trie, not on the
      parameters bound so far. */
  lemma {:induction false} SearchIgnoresParams(r: Router, at: Key, parts: seq<string>, idx: nat, verb: string,
                                               p1: map<string, string>, p2: map<string, string>)
    requires at in r.nodes && idx <= |parts|
    ensures Search(r, at, parts, idx, verb, p1).Some? == Search(r, at, parts, idx, verb, p2).Some?
    ensures Search(r, at, parts, idx, verb, p1).Some? ==>
      Search(r, at, parts, idx, verb, p1).value.node == Search(r, at, parts, idx, verb, p2).value.node
    decreases |parts| - idx
  {
    if idx < |parts| {
      var part := parts[idx];
      var ek := at + [ExactEdge(part)];
      var pk := at + [Param];
      if ek in r.nodes {
        SearchIgnoresParams(r, ek, parts, idx + 1, verb, p1, p2);
      }
      if pk in r.nodes {
        var name := r.nodes[pk].paramKey;
        var b1 := if name != "" then p1[name := part] else p1;
        var b2 := if name != "" then p2[name := part] else p2;
        SearchIgnoresParams(r, pk, parts, idx + 1, verb, b1, b2);
      }
    }
  }

  /** What a candidate looks like one edge down: the empty rest only once
      every segment is used, a wildcard only as the last edge, a literal
      only as the exact child of the current segment, and otherwise a
      candidate of the child. */
  lemma CandidateDown(r: Router, at: Key, rest: Key, verb: string, parts: seq<string>, idx: nat)
    requires WellFormed(r.nodes) && idx <= |parts|
    ensures Candidate(r, at, rest, verb, parts, idx) ==>
      && (rest == [] ==> idx == |parts|)
      && (|rest| > 0 && rest[0] == Wild ==> rest == [Wild])
      && (|rest| > 0 && rest[0] != Wild ==>
            && idx < |parts|
            && (rest[0].Lit? ==> rest[0] == ExactEdge(parts[idx]))
            && at + [rest[0]] in r.nodes
            && Candidate(r, at + [rest[0]], rest[1..], verb, parts, idx + 1))
  {
    if Candidate(r, at, rest, verb, parts, idx) && |rest| > 0 && rest[0] != Wild {
      var k := at + rest;
      assert k[..|at| + 1] == at + [rest[0]];
      assert (at + [rest[0]]) + rest[1..] == k;
      assert k[|at|] == rest[0];
    }
  }

  /** A candidate of the child reached through a matching edge is a
      candidate here. */
  lemma CandidateUp(r: Router, at: Key, e: Edge, sub: Key, verb: string, parts: seq<string>, idx: nat)
    requires idx < |parts|
    ensures (e == Param || e == Lit(parts[idx]) || e == ExactEdge(parts[idx])) && Candidate(r, at + [e], sub, verb, parts, idx + 1) ==>
      Candidate(r, at, [e] + sub, verb, parts, idx)
  {
    assert (at + [e]) + sub == at + ([e] + sub);
    assert ([e] + sub)[1..] == sub;
  }

  lemma BeforeCons(e: Edge, a: Key, b: Key)
    ensures Before([e] + a, [e] + b) == Before(a, b)
  {
    assert ([e] + a)[1..] == a && ([e] + b)[1..] == b;
  }

  lemma BeforeRank(a: Key, b: Key)
    requires |a| > 0 && |b| > 0 && Rank(a[0]) < Rank(b[0])
    ensures Before(a, b)
  {
  }

  /** No route below `at` matches the remaining segments. */
  ghost predicate NoCandidate(r: Router, at: Key, verb: string, parts: seq<string>, idx: nat)
    requires idx <= |parts|
  {
    forall rest :: !Candidate(r, at, rest, verb, parts, idx)
  }

  /** Node `n` lies below `at`, matches, and takes precedence over every
      other match below `at`. */
  ghost predicate IsFirst(r: Router, at: Key, n: Key, verb: string, parts: seq<string>, idx: nat)
    requires idx <= |parts|
  {
    && |at| <= |n| && n[..|at|] == at
    && Candidate(r, at, n[|at|..], verb, parts, idx)
    && forall rest :: Candidate(r, at, rest, verb, parts, idx) ==> rest == n[|at|..] || Before(n[|at|..], rest)
  }

  /** `search` finds a route exactly when one exists below `at`, and the
      one it finds takes precedence over every other: at the first segment
      where two matching routes differ, an exact segment beats a parameter
      and a parameter beats a wildcard, and a route that ends beats one
      that goes on to a wildcard. */
  lemma {:induction false} SearchFindsFirst(r: Router, at: Key, parts: seq<string>, idx: nat, verb: string,
                                            params: map<string, string>)
    requires WellFormed(r.nodes) && at in r.nodes && idx <= |parts|
    ensures Search(r, at, parts, idx, verb, params).None? <==> NoCandidate(r, at, verb, parts, idx)
    ensures Search(r, at, parts, idx, verb, params).Some? ==>
      IsFirst(r, at, Search(r, at, parts, idx, verb, params).value.node, verb, parts, idx)
    decreases |parts| - idx, 1
  {
    if idx == |parts| {
      SearchEnd(r, at, parts, verb, params);
    } else {
      SearchStep(r, at, parts, idx, verb, params);
    }
  }

  /** The base case: with every segment used, the node itself, else its
      accepting wildcard child. */
  lemma SearchEnd(r: Router, at: Key, parts: seq<string>, verb: string, params: map<string, string>)
    requires WellFormed(r.nodes) && at in r.nodes
    ensures Search(r, at, parts, |parts|, verb, params).None? <==> NoCandidate(r, at, verb, parts, |parts|)
    ensures Search(r, at, parts, |parts|, verb, params).Some? ==>
      IsFirst(r, at, Search(r, at, parts, |parts|, verb, params).value.node, verb, parts, |parts|)
  {
    var idx := |parts|;
    forall rest {
      CandidateDown(r, at, rest, verb, parts, idx);
    }
    var wk := at + [Wild];
    assert wk[..|at|] == at && wk[|at|..] == [Wild];
    assert at + [Wild] == wk;
    assert Candidate(r, at, [Wild], verb, parts, idx) == Accepts(r, wk, verb);
    assert at[|at|..] == [] && at[..|at|] == at && at + [] == at;
    assert Candidate(r, at, [], verb, parts, idx) == Accepts(r, at, verb);
  }

  /** The inductive step, for a segment still to match. */
  lemma {:induction false} SearchStep(r: Router, at: Key, parts: seq<string>, idx: nat, verb: string,
                                      params: map<string, string>)
    requires WellFormed(r.nodes) && at in r.nodes && idx < |parts|
    ensures Search(r, at, parts, idx, verb, params).None? <==> NoCandidate(r, at, verb, parts, idx)
    ensures Search(r, at, parts, idx, verb, params).Some? ==>
      IsFirst(r, at, Search(r, at, parts, idx, verb, params).value.node, verb, parts, idx)
    decreases |parts| - idx, 0
  {
    var part := parts[idx];
    var ek := at + [ExactEdge(part)];
    var pk := at + [Param];
    var bound := if pk in r.nodes && r.nodes[pk].paramKey != "" then params[r.nodes[pk].paramKey := part] else params;
    if ek in r.nodes {
      SearchFindsFirst(r, ek, parts, idx + 1, verb, params);
    }
    if pk in r.nodes {
      SearchFindsFirst(r, pk, parts, idx + 1, verb, bound);
      SearchIgnoresParams(r, pk, parts, idx + 1, verb, params, bound);
    }
    var exact := if ek in r.nodes then Search(r, ek, parts, idx + 1, verb, params) else None;
    var viaParam := if pk in r.nodes then Search(r, pk, parts, idx + 1, verb, bound) else None;
    if exact.Some? {
      var n := exact.value.node;
      FirstViaExact(r, at, n, verb, parts, idx);
      assert Candidate(r, at, n[|at|..], verb, parts, idx);
    } else if viaParam.Some? {
      var n := viaParam.value.node;
      FirstViaParam(r, at, n, verb, parts, idx);
      assert Candidate(r, at, n[|at|..], verb, parts, idx);
    } else {
      FirstViaWild(r, at, verb, parts, idx);
    }
  }

  /** The route the exact child yields comes first here too. */
  lemma FirstViaExact(r: Router, at: Key, n: Key, verb: string, parts: seq<string>, idx: nat)
    requires WellFormed(r.nodes) && idx < |parts|
    requires IsFirst(r, at + [ExactEdge(parts[idx])], n, verb, parts, idx + 1)
    ensures IsFirst(r, at, n, verb, parts, idx)
  {
    var ee := ExactEdge(parts[idx]);
    Descend(r, at, ee, n, verb, parts, idx);
    var sub := n[|at| + 1..];
    forall rest | Candidate(r, at, rest, verb, parts, idx)
      ensures rest == n[|at|..] || Before(n[|at|..], rest)
    {
      CandidateDown(r, at, rest, verb, parts, idx);
      if rest[0] == ee {
        BeforeCons(ee, sub, rest[1..]);
        assert rest == [ee] + rest[1..];
      } else {
        BeforeRank([ee] + sub, rest);
      }
    }
  }

  /** With nothing below the exact child, the route the parameter child
      yields comes first. */
  lemma FirstViaParam(r: Router, at: Key, n: Key, verb: string, parts: seq<string>, idx: nat)
    requires WellFormed(r.nodes) && idx < |parts|
    requires at + [ExactEdge(parts[idx])] in r.nodes ==>
      NoCandidate(r, at + [ExactEdge(parts[idx])], verb, parts, idx + 1)
    requires IsFirst(r, at + [Param], n, verb, parts, idx + 1)
    ensures IsFirst(r, at, n, verb, parts, idx)
  {
    Descend(r, at, Param, n, verb, parts, idx);
    var sub := n[|at| + 1..];
    forall rest | Candidate(r, at, rest, verb, parts, idx)
      ensures rest == n[|at|..] || Before(n[|at|..], rest)
    {
      CandidateDown(r, at, rest, verb, parts, idx);
      if rest[0] == Param {
        BeforeCons(Param, sub, rest[1..]);
        assert rest == [Param] + rest[1..];
      } else {
        BeforeRank([Param] + sub, rest);
      }
    }
  }

  /** With nothing below the exact or the parameter child, only the
      wildcard child can match. */
  lemma FirstViaWild(r: Router, at: Key, verb: string, parts: seq<string>, idx: nat)
    requires WellFormed(r.nodes) && idx < |parts|
    requires at + [ExactEdge(parts[idx])] in r.nodes ==>
      NoCandidate(r, at + [ExactEdge(parts[idx])], verb, parts, idx + 1)
    requires at + [Param] in r.nodes ==> NoCandidate(r, at + [Param], verb, parts, idx + 1)
    ensures Accepts(r, at + [Wild], verb) ==> IsFirst(r, at, at + [Wild], verb, parts, idx)
    ensures !Accepts(r, at + [Wild], verb) ==> NoCandidate(r, at, verb, parts, idx)
  {
    var wk := at + [Wild];
    assert wk[..|at|] == at && wk[|at|..] == [Wild];
    assert Candidate(r, at, [Wild], verb, parts, idx) == Accepts(r, wk, verb);
    forall rest | Candidate(r, at, rest, verb, parts, idx)
      ensures rest == [Wild]
    {
      CandidateDown(r, at, rest, verb, parts, idx);
    }
  }

  /** The route found below child `at + [e]` is, seen from `at`, the edge
      `e` followed by the rest of its path, and it is a candidate here. */
  lemma Descend(r: Router, at: Key, e: Edge, n: Key, verb: string, parts: seq<string>, idx: nat)
    requires idx < |parts| && (e == Param || e == Lit(parts[idx]) || e == ExactEdge(parts[idx]))
    requires |at + [e]| <= |n| && n[..|at| + 1] == at + [e]
    requires Candidate(r, at + [e], n[|at| + 1..], verb, parts, idx + 1)
    ensures |at| <= |n| && n[..|at|] == at
    ensures n[|at|..] == [e] + n[|at| + 1..]
    ensures Candidate(r, at, n[|at|..], verb, parts, idx)
  {
    assert n[..|at|] == n[..|at| + 1][..|at|];
    assert n[|at|] == n[..|at| + 1][|at|];
    CandidateUp(r, at, e, n[|at| + 1..], verb, parts, idx);
  }

  /** What `search` from the root resolves a normalised path to, or the
      empty result when nothing matches. */
  function SearchRoot(r: Router, verb: string, norm: string): (res: Resolved)
    requires WellFormed(r.nodes)
  {
    match Search(r, [], Segments(norm, '/'), 0, verb, map[])
    case None => Unresolved
    case Some(h) =>
      Resolved(
        if verb in r.nodes[h.node].handlers then Some(r.nodes[h.node].handlers[verb]) else None,
        if h.node in r.ws then Some(r.ws[h.node]) else None,
        h.params)
  }

  /** Searching from the root resolves to nothing exactly when no
      registered route matches; otherwise the route found takes precedence
      over every other match. */
  lemma SearchRootFirst(r: Router, verb: string, norm: string)
    requires WellFormed(r.nodes)
    ensures var res := SearchRoot(r, verb, norm);
      (res.handler.None? && res.ws.None?) <==> NoCandidate(r, [], verb, Segments(norm, '/'), 0)
    ensures var h := Search(r, [], Segments(norm, '/'), 0, verb, map[]);
      h.Some? ==> IsFirst(r, [], h.value.node, verb, Segments(norm, '/'), 0)
  {
    SearchFindsFirst(r, [], Segments(norm, '/'), 0, verb, map[]);
  }

  /** `find`'s outcome: the router afterwards (only the cache changes) and
      the resolved route. */
  datatype Found = Found(router: Router, result: Resolved)

  /** The cache key of a request. */
  function CacheKey(verb: string, path: string): string {
    verb + " " + NormalizePath(path)
  }

  /** `find(method, path)`: a static registration under the exact key
      first, then the cache (a hit becomes the most recent entry), then a
      search whose result, found or not, is cached. */
  function Find(r: Router, verb: string, path: string): (f: Found)
    requires Valid(r)
    ensures Valid(f.router)
    ensures f.router.nodes == r.nodes && f.router.ws == r.ws && f.router.routes == r.routes
    ensures CacheKey(verb, path) in r.routes ==>
      f == Found(r, Resolved(Some(r.routes[CacheKey(verb, path)]), None, map[]))
    ensures CacheKey(verb, path) !in r.routes ==> Get(f.router.cache, CacheKey(verb, path)) == Some(f.result)
    ensures CacheKey(verb, path) !in r.routes && Get(r.cache, CacheKey(verb, path)).Some? ==>
      && f.result == Get(r.cache, CacheKey(verb, path)).value
      && |f.router.cache.entries| == |r.cache.entries|
      && f.router.cache.entries[|f.router.cache.entries| - 1] == (CacheKey(verb, path), f.result)
      && forall q :: Get(f.router.cache, q) == Get(r.cache, q)
    ensures CacheKey(verb, path) !in r.routes && Get(r.cache, CacheKey(verb, path)).None? ==>
      f.result == SearchRoot(r, verb, NormalizePath(path))
  {
    var key := CacheKey(verb, path);
    if key in r.routes then Found(r, Resolved(Some(r.routes[key]), None, map[]))
    else match Get(r.cache, key)
      case Some(v) => Found(r.(cache := Touch(r.cache, key, v)), v)
      case None =>
        var res := SearchRoot(r, verb, NormalizePath(path));
        Found(r.(cache := Admit(r.cache, key, res, MaxCacheSize)), res)
  }

  /** `find` ignores trailing slashes, and the empty path is "/". */
  lemma FindIgnoresTrailingSlash(r: Router, verb: string, path: string)
    requires Valid(r)
    ensures Find(r, verb, path + "/") == Find(r, verb, path)
    ensures Find(r, verb, "") == Find(r, verb, "/")
  {
    assert (path + "/")[..|path|] == path;
    assert StripTrailingSlashes(path + "/") == StripTrailingSlashes(path);
    assert StripTrailingSlashes("/") == StripTrailingSlashes("");
  }

  /** On a full cache, a new key evicts exactly the oldest entry. */
  lemma FindEvictsOldest(r: Router, verb: string, path: string)
    requires Valid(r) && |r.cache.entries| == MaxCacheSize
    requires CacheKey(verb, path) !in r.routes && Get(r.cache, CacheKey(verb, path)).None?
    ensures Find(r, verb, path).router.cache.entries ==
      r.cache.entries[1..] + [(CacheKey(verb, path), Find(r, verb, path).result)]
  {
    var res := SearchRoot(r, verb, NormalizePath(path));
    AdmitFullEvictsOldest(r.cache, CacheKey(verb, path), res, MaxCacheSize);
  }

  /** A request no route matches resolves to no handler, and that miss is
      cached like any other result. */
  lemma FindMissIsCached(r: Router, verb: string, path: string)
    requires Valid(r) && CacheKey(verb, path) !in r.routes && Get(r.cache, CacheKey(verb, path)).None?
    requires NoCandidate(r, [], verb, Segments(NormalizePath(path), '/'), 0)
    ensures Find(r, verb, path).result == Unresolved
    ensures Get(Find(r, verb, path).router.cache, CacheKey(verb, path)) == Some(Unresolved)
  {
    SearchRootFirst(r, verb, NormalizePath(path));
  }

  /** A static route registered under its normalised path is then found
      for that method, with or without a trailing slash, straight from the
      flat map and with no parameters. */
  lemma RegisteredStaticIsFound(r: Router, verb: string, path: string, h: HandlerRef)
    requires Valid(r) && IsStaticPath(path) && NormalizePath(path) == path
    requires Register(r, verb, path, Http(h)).error.None?
    ensures var r1 := Register(r, verb, path, Http(h)).router;
      && Find(r1, verb, path) == Found(r1, Resolved(Some(h), None, map[]))
      && Find(r1, verb, path + "/") == Found(r1, Resolved(Some(h), None, map[]))
  {
    var r1 := Register(r, verb, path, Http(h)).router;
    assert CacheKey(verb, path) == verb + " " + path;
    FindIgnoresTrailingSlash(r1, verb, path);
  }

  /** Registering the same method at the same node a second time keeps
      the first handler and reports ROUTE_ALREADY_REGISTERED. */
  lemma RegisterTwiceKeepsFirst(r: Router, verb: string, path: string, h1: HandlerRef, h2: HandlerRef)
    requires Valid(r)
    ensures var first := Register(r, verb, path, Http(h1));
      first.error.None? ==>
        var second := Register(first.router, verb, path, Http(h2));
        && second.error == Some(SystemErr(RouteAlreadyRegistered,
             "Route " + verb + " " + path + " has already been registered"))
        && second.router.nodes[NodeOf(path)].handlers[verb] == h1
  {
  }
}
