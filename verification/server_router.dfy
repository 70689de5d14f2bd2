/** The router of the earlier server generation (src/server/Xerus.ts):
    static paths in a flat map, dynamic ones in the shared trie walked
    greedily with no backtracking, and a first-in first-out cache of
    resolved dynamic routes holding only hits. */
module ServerRouter {
  import opened Wrappers
  import opened Text
  import opened Trie
  import opened RecencyCache
  import opened SystemErrors

  /** `MAX_CACHE_SIZE`. */
  const MaxCacheSize: nat := 100

  /** A lookup result: the handler, if any, and the bound parameters. */
  datatype Found = Found(handler: Option<HandlerRef>, params: map<string, string>)

  const NotFound := Found(None, map[])

  datatype Router = Router(
    nodes: Nodes,                       // the trie, keyed by edge path
    routes: map<string, HandlerRef>,    // `routes`: "METHOD path" of static registrations
    cache: Cache<Found>)                // `resolvedRoutes`

  const Empty := Router(Root, map[], Cache([]))

  /** The shape every router reachable from `Empty` keeps: among others,
      the cache holds only routes that resolved to a handler. */
  predicate Valid(r: Router) {
    && WellFormed(r.nodes)
    && RecencyCache.Valid(r.cache, MaxCacheSize)
    && forall e :: e in r.cache.entries ==> e.1.handler.Some?
  }

  lemma EmptyValid()
    ensures Valid(Empty)
  {
  }

  /** Neither ":" nor "*": the path goes into the flat map. */
  predicate IsStaticPath(path: string) {
    ':' !in path && '*' !in path
  }

  function RouteKey(verb: string, path: string): string {
    verb + " " + path
  }

  function NodeOf(path: string): Key {
    Edges(Segments(path, '/'))
  }

  function AlreadyRegistered(verb: string, path: string): Failure {
    SystemErr(RouteAlreadyRegistered, "Route " + verb + " " + path + " has already been registered")
  }

  /** The router after `register` (for a dynamic path the trie grows even
      when registration then throws) and the error thrown, if any. */
  datatype Registered = Registered(router: Router, error: Option<Failure>)

  /** `register(method, path, handler, middlewares)`. */
  function Register(r: Router, verb: string, path: string, h: HandlerRef): (out: Registered)
    requires Valid(r)
    ensures Valid(out.router) && out.router.cache == r.cache
    ensures IsStaticPath(path) ==>
      && out.router.nodes == r.nodes
      && (out.error.Some? <==> RouteKey(verb, path) in r.routes)
      && (out.error.Some? ==> out.router.routes == r.routes)
      && (out.error.None? ==> out.router.routes == r.routes[RouteKey(verb, path) := h])
    ensures !IsStaticPath(path) ==>
      && out.router.routes == r.routes
      && NodeOf(path) in out.router.nodes
      && (out.error.Some? <==> NodeOf(path) in r.nodes && verb in r.nodes[NodeOf(path)].handlers)
      && (out.error.Some? ==> out.router.nodes[NodeOf(path)].handlers == r.nodes[NodeOf(path)].handlers)
      && (out.error.None? ==>
            out.router.nodes[NodeOf(path)].handlers ==
            (if NodeOf(path) in r.nodes then r.nodes[NodeOf(path)].handlers else map[])[verb := h])
    ensures out.error.Some? ==> out.error.value == AlreadyRegistered(verb, path)
  {
    var key := RouteKey(verb, path);
    if IsStaticPath(path) then
      if key in r.routes then Registered(r, Some(AlreadyRegistered(verb, path)))
      else Registered(r.(routes := r.routes[key := h]), None)
    else
      var g := Grow(r.nodes, [], Segments(path, '/'), FillIfEmpty);
      GrowWellFormed(r.nodes, [], Segments(path, '/'), FillIfEmpty);
      var t := g.0;
      var k := g.1;
      assert k == NodeOf(path) by {
        assert [] + Edges(Segments(path, '/')) == Edges(Segments(path, '/'));
      }
      if verb in t[k].handlers then Registered(r.(nodes := t), Some(AlreadyRegistered(verb, path)))
      else Registered(r.(nodes := t[k := t[k].(handlers := t[k].handlers[verb := h])]), None)
  }

  /** The greedy walk from the root: exact child, else the parameter child
      (bound only under a non-empty name), else the wildcard child, which
      ends the walk. */
  function Walk(r: Router, path: string): (w: Option<(Key, map<string, string>)>)
    requires Valid(r)
    ensures w.Some? ==> w.value.0 in r.nodes && MatchRest(w.value.0, Segments(path, '/'), 0)
  {
    GreedyWalkMatches(r.nodes, [], Segments(path, '/'), 0, map[], false);
    var w := GreedyWalk(r.nodes, [], Segments(path, '/'), 0, map[], false);
    assert w.Some? ==> w.value.0[0..] == w.value.0;
    w
  }

  /** `find`'s outcome: the router afterwards (only the cache changes) and
      the result. */
  datatype Lookup = Lookup(router: Router, result: Found)

  /** `find(method, path)`: the flat map first, then the cache, then the
      trie; only a route that resolved to a handler is cached, evicting the
      oldest entry when the cache is full. */
  /** The trie lookup `find` falls back to for a key neither in the flat
      map nor in the cache; a hit is admitted to the cache. */
  function Resolve(r: Router, verb: string, path: string): (f: Lookup)
    requires Valid(r)
    ensures Valid(f.router)
    ensures f.router.nodes == r.nodes && f.router.routes == r.routes
    ensures f.result.handler.None? ==> f == Lookup(r, NotFound)
    ensures f.result.handler.Some? ==> Get(f.router.cache, RouteKey(verb, path)) == Some(f.result)
    ensures f.result.handler.Some? <==> var w := Walk(r, path); w.Some? && verb in r.nodes[w.value.0].handlers
  {
    match Walk(r, path)
    case None => Lookup(r, NotFound)
    case Some((k, params)) =>
      if verb !in r.nodes[k].handlers then Lookup(r, NotFound)
      else
        var res := Found(Some(r.nodes[k].handlers[verb]), params);
        var c := Admit(r.cache, RouteKey(verb, path), res, MaxCacheSize);
        AdmitOnlyAdds(r.cache, RouteKey(verb, path), res, MaxCacheSize);
        Lookup(r.(cache := c), res)
  }

  /** `find(method, path)`: the flat map first, then the cache, then the
      trie; only a route that resolved to a handler is cached, evicting the
      oldest entry when the cache is full. */
  function Find(r: Router, verb: string, path: string): (f: Lookup)
    requires Valid(r)
    ensures Valid(f.router)
    ensures f.router.nodes == r.nodes && f.router.routes == r.routes
    ensures RouteKey(verb, path) in r.routes ==>
      f == Lookup(r, Found(Some(r.routes[RouteKey(verb, path)]), map[]))
    ensures RouteKey(verb, path) !in r.routes && Get(r.cache, RouteKey(verb, path)).Some? ==>
      f == Lookup(r, Get(r.cache, RouteKey(verb, path)).value)
    ensures RouteKey(verb, path) !in r.routes && Get(r.cache, RouteKey(verb, path)).None? ==>
      f == Resolve(r, verb, path)
    ensures f.result.handler.None? ==> f == Lookup(r, NotFound)
  {
    var key := RouteKey(verb, path);
    if key in r.routes then Lookup(r, Found(Some(r.routes[key]), map[]))
    else match Get(r.cache, key)
      case Some(v) =>
        GetIsEntry(r.cache, key);
        Lookup(r, v)
      case None => Resolve(r, verb, path)
  }

  lemma {:induction false} GetIsEntry(c: Cache<Found>, k: string)
    ensures Get(c, k).Some? ==> (k, Get(c, k).value) in c.entries
    decreases |c.entries|
  {
    if |c.entries| > 0 && c.entries[0].0 != k {
      GetIsEntry(Cache(c.entries[1..]), k);
    }
  }

  /** Admitting a value adds it and otherwise keeps only old entries. */
  lemma AdmitOnlyAdds(c: Cache<Found>, k: string, v: Found, cap: nat)
    requires cap >= 1
    ensures forall e :: e in Admit(c, k, v, cap).entries ==> e in c.entries || e == (k, v)
  {
    var d := if |c.entries| >= cap then EvictOldest(c) else c;
    assert forall e :: e in d.entries ==> e in c.entries;
    SetOnlyAdds(d, k, v);
  }

  lemma {:induction false} SetOnlyAdds(c: Cache<Found>, k: string, v: Found)
    ensures forall e :: e in Set(c, k, v).entries ==> e in c.entries || e == (k, v)
    decreases |c.entries|
  {
    if |c.entries| > 0 && c.entries[0].0 != k {
      var tail := Cache(c.entries[1..]);
      SetOnlyAdds(tail, k, v);
      assert Set(c, k, v).entries == [c.entries[0]] + Set(tail, k, v).entries;
      assert forall e :: e in tail.entries ==> e in c.entries;
    }
  }

  /** Asking again gives the same answer: a hit is cached (or static), a
      miss leaves the router as it was. */
  lemma FindAgain(r: Router, verb: string, path: string)
    requires Valid(r)
    ensures var f := Find(r, verb, path); Find(f.router, verb, path).result == f.result
  {
  }

  /** The trie of routes GET /a/b and GET /:x/c. */
  function TwoRoutes(h1: HandlerRef, h2: HandlerRef): Nodes {
    map[[] := EmptyNode, [Lit("a")] := EmptyNode,
        [Lit("a"), Lit("b")] := Node(map["GET" := h1], ""),
        [Param] := Node(map[], "x"),
        [Param, Lit("c")] := Node(map["GET" := h2], "")]
  }

  lemma TwoRoutesWellFormed(h1: HandlerRef, h2: HandlerRef)
    ensures WellFormed(TwoRoutes(h1, h2))
  {
    var t := TwoRoutes(h1, h2);
    assert !StartsWith("a", ":") by { assert "a"[..1][0] != ":"[0]; }
    assert !StartsWith("b", ":") by { assert "b"[..1][0] != ":"[0]; }
    assert !StartsWith("c", ":") by { assert "c"[..1][0] != ":"[0]; }
    forall k, i | k in t && 0 <= i <= |k| ensures k[..i] in t {
      if |k| == 2 && i == 1 { assert k[..1] == [k[0]]; }
      if i == 0 { assert k[..0] == []; }
      if i == |k| { assert k[..i] == k; }
    }
  }

  /** The walk never backtracks: with routes GET /a/b and GET /:x/c, the
      request /a/c follows the literal "a" and dead-ends, although the
      parameter route matches it. */
  lemma GreedyMissesParamRoute(h1: HandlerRef, h2: HandlerRef)
    ensures WellFormed(TwoRoutes(h1, h2))
    ensures [Param, Lit("c")] in TwoRoutes(h1, h2) && MatchRest([Param, Lit("c")], ["a", "c"], 0)
    ensures GreedyWalk(TwoRoutes(h1, h2), [], ["a", "c"], 0, map[], false).None?
  {
    TwoRoutesWellFormed(h1, h2);
    var t := TwoRoutes(h1, h2);
    assert [Lit("a")] + [ExactEdge("c")] !in t by {
      assert [Lit("a")] + [ExactEdge("c")] == [Lit("a"), Lit("c")];
      assert [Lit("a"), Lit("c")] != [Lit("a"), Lit("b")] by {
        assert [Lit("a"), Lit("c")][1] != [Lit("a"), Lit("b")][1];
      }
      assert [Lit("a"), Lit("c")] != [Param, Lit("c")] by {
        assert [Lit("a"), Lit("c")][0] != [Param, Lit("c")][0];
      }
    }
    assert [Lit("a")] + [Param] !in t by {
      assert ([Lit("a")] + [Param])[0] != [Param, Lit("c")][0];
      assert ([Lit("a")] + [Param])[1] != [Lit("a"), Lit("b")][1];
    }
    assert [Lit("a")] + [Wild] !in t by {
      assert ([Lit("a")] + [Wild])[0] != [Param, Lit("c")][0];
      assert ([Lit("a")] + [Wild])[1] != [Lit("a"), Lit("b")][1];
    }
    assert [] + [ExactEdge("a")] == [Lit("a")];
    assert GreedyWalk(t, [Lit("a")], ["a", "c"], 1, map[], false).None?;
    assert MatchRest([Lit("c")], ["a", "c"], 1);
    assert [Param, Lit("c")][1..] == [Lit("c")];
  }
}
