/** The brace-pattern generation of the framework (src/index.ts): routes
    keyed by "METHOD path", dynamic keys with `{name}` segments matched by
    segment count and literal segments, middleware groups chosen at
    registration, the dispatch order of `handleRequest`, and the context
    that `respond` turns into a response. */
module BraceXerus {
  import opened Wrappers
  import opened Text

  /** A plain object used as a dictionary: entries in insertion order,
      which is the order `for ... in` visits them. */
  type Entries<T> = seq<(string, T)>

  function KeysOf<T>(e: Entries<T>): (ks: seq<string>)
    ensures |ks| == |e| && forall i :: 0 <= i < |e| ==> ks[i] == e[i].0
  {
    seq(|e|, i requires 0 <= i < |e| => e[i].0)
  }

  /** `obj[k]`: the entry's value, or undefined. */
  function Lookup<T>(e: Entries<T>, k: string): (r: Option<T>)
    ensures r.None? <==> k !in KeysOf(e)
    ensures r.Some? ==> (k, r.value) in e
  {
    if |e| == 0 then None
    else if e[0].0 == k then Some(e[0].1)
    else
      var r := Lookup(e[1..], k);
      assert KeysOf(e) == [e[0].0] + KeysOf(e[1..]);
      r
  }

  /** `obj[k] = v`: an existing key keeps its place, a new one goes last. */
  function Put<T>(e: Entries<T>, k: string, v: T): (r: Entries<T>)
    ensures k in KeysOf(e) ==> KeysOf(r) == KeysOf(e)
    ensures k !in KeysOf(e) ==> KeysOf(r) == KeysOf(e) + [k]
    ensures Lookup(r, k) == Some(v)
    ensures forall j :: j != k ==> Lookup(r, j) == Lookup(e, j)
  {
    if |e| == 0 then [(k, v)]
    else if e[0].0 == k then
      PutHere(e, k, v);
      [(k, v)] + e[1..]
    else
      var rest := Put(e[1..], k, v);
      PutCons(e, k, v, rest);
      [e[0]] + rest
  }

  /** The step of `Put` past a first entry with another key. */
  lemma PutCons<T>(e: Entries<T>, k: string, v: T, rest: Entries<T>)
    requires |e| > 0 && e[0].0 != k
    requires k in KeysOf(e[1..]) ==> KeysOf(rest) == KeysOf(e[1..])
    requires k !in KeysOf(e[1..]) ==> KeysOf(rest) == KeysOf(e[1..]) + [k]
    requires Lookup(rest, k) == Some(v)
    requires forall j :: j != k ==> Lookup(rest, j) == Lookup(e[1..], j)
    ensures var r := [e[0]] + rest;
      && (k in KeysOf(e) ==> KeysOf(r) == KeysOf(e))
      && (k !in KeysOf(e) ==> KeysOf(r) == KeysOf(e) + [k])
      && Lookup(r, k) == Some(v)
      && (forall j :: j != k ==> Lookup(r, j) == Lookup(e, j))
  {
    PutConsKeys(e, k, rest);
    PutConsLookup(e, k, v, rest);
  }

  /** The step of `Put` at a first entry with the same key. */
  lemma PutHere<T>(e: Entries<T>, k: string, v: T)
    requires |e| > 0 && e[0].0 == k
    ensures var r := [(k, v)] + e[1..];
      && KeysOf(r) == KeysOf(e)
      && Lookup(r, k) == Some(v)
      && (forall j :: j != k ==> Lookup(r, j) == Lookup(e, j))
  {
    var r := [(k, v)] + e[1..];
    assert r[1..] == e[1..];
    KeysCons(r);
    KeysCons(e);
  }

  lemma PutConsKeys<T>(e: Entries<T>, k: string, rest: Entries<T>)
    requires |e| > 0 && e[0].0 != k
    requires k in KeysOf(e[1..]) ==> KeysOf(rest) == KeysOf(e[1..])
    requires k !in KeysOf(e[1..]) ==> KeysOf(rest) == KeysOf(e[1..]) + [k]
    ensures var r := [e[0]] + rest;
      && (k in KeysOf(e) ==> KeysOf(r) == KeysOf(e))
      && (k !in KeysOf(e) ==> KeysOf(r) == KeysOf(e) + [k])
  {
    var r := [e[0]] + rest;
    assert r[1..] == rest;
    KeysCons(r);
    KeysCons(e);
  }

  lemma PutConsLookup<T>(e: Entries<T>, k: string, v: T, rest: Entries<T>)
    requires |e| > 0 && e[0].0 != k
    requires Lookup(rest, k) == Some(v)
    requires forall j :: j != k ==> Lookup(rest, j) == Lookup(e[1..], j)
    ensures var r := [e[0]] + rest;
      && Lookup(r, k) == Some(v)
      && (forall j :: j != k ==> Lookup(r, j) == Lookup(e, j))
  {
    var r := [e[0]] + rest;
    assert r[1..] == rest;
    forall j | j != k ensures Lookup(r, j) == Lookup(e, j) {
      if j != e[0].0 {
        assert Lookup(r, j) == Lookup(rest, j);
      }
    }
  }

  lemma KeysCons<T>(e: Entries<T>)
    requires |e| > 0
    ensures KeysOf(e) == [e[0].0] + KeysOf(e[1..])
  {
  }

  /** A registered route: the middleware chosen at registration, then the
      handler. */
  datatype Chain<H, M> = Chain(middleware: seq<M>, handler: H)

  datatype App<H, M> = App(routes: Entries<Chain<H, M>>, prefixMiddleware: Entries<seq<M>>, staticDir: string)

  /** The constructor: no routes, no groups, static files under
      "/static". */
  function NewApp<H, M>(): App<H, M> {
    App([], [], "/static")
  }

  /** `use(prefix, ...middleware)`: the group for the prefix is replaced,
      not extended. */
  function Use<H, M>(app: App<H, M>, prefix: string, mws: seq<M>): (out: App<H, M>)
    ensures Lookup(out.prefixMiddleware, prefix) == Some(mws)
    ensures forall p :: p != prefix ==> Lookup(out.prefixMiddleware, p) == Lookup(app.prefixMiddleware, p)
    ensures out.routes == app.routes && out.staticDir == app.staticDir
  {
    app.(prefixMiddleware := Put(app.prefixMiddleware, prefix, mws))
  }

  /** The group of the first key, in insertion order, that `path` starts
      with; none when no key does. */
  function FirstPrefixGroup<M>(groups: Entries<seq<M>>, path: string): (r: seq<M>)
    ensures (forall i :: 0 <= i < |groups| ==> !StartsWith(path, groups[i].0)) ==> r == []
    ensures (exists i :: 0 <= i < |groups| && StartsWith(path, groups[i].0)) ==>
      exists i :: 0 <= i < |groups| && StartsWith(path, groups[i].0) && r == groups[i].1
        && forall j :: 0 <= j < i ==> !StartsWith(path, groups[j].0)
  {
    if |groups| == 0 then []
    else if StartsWith(path, groups[0].0) then groups[0].1
    else
      var r := FirstPrefixGroup(groups[1..], path);
      FirstGroupShift(groups, path, r);
      r
  }

  lemma FirstGroupShift<M>(groups: Entries<seq<M>>, path: string, r: seq<M>)
    requires |groups| > 0 && !StartsWith(path, groups[0].0)
    requires (forall i :: 0 <= i < |groups[1..]| ==> !StartsWith(path, groups[1..][i].0)) ==> r == []
    requires (exists i :: 0 <= i < |groups[1..]| && StartsWith(path, groups[1..][i].0)) ==>
      exists i :: 0 <= i < |groups[1..]| && StartsWith(path, groups[1..][i].0) && r == groups[1..][i].1
        && forall j :: 0 <= j < i ==> !StartsWith(path, groups[1..][j].0)
    ensures (forall i :: 0 <= i < |groups| ==> !StartsWith(path, groups[i].0)) ==> r == []
    ensures (exists i :: 0 <= i < |groups| && StartsWith(path, groups[i].0)) ==>
      exists i :: 0 <= i < |groups| && StartsWith(path, groups[i].0) && r == groups[i].1
        && forall j :: 0 <= j < i ==> !StartsWith(path, groups[j].0)
  {
    var tail := groups[1..];
    if forall i :: 0 <= i < |groups| ==> !StartsWith(path, groups[i].0) {
      forall i | 0 <= i < |tail| ensures !StartsWith(path, tail[i].0) {
        assert tail[i] == groups[i + 1];
      }
    }
    if exists i :: 0 <= i < |groups| && StartsWith(path, groups[i].0) {
      var i0 :| 0 <= i0 < |groups| && StartsWith(path, groups[i0].0);
      assert i0 > 0 && tail[i0 - 1] == groups[i0];
      var i :| 0 <= i < |tail| && StartsWith(path, tail[i].0) && r == tail[i].1
        && forall j :: 0 <= j < i ==> !StartsWith(path, tail[j].0);
      assert groups[i + 1] == tail[i];
      forall j | 0 <= j < i + 1 ensures !StartsWith(path, groups[j].0) {
        if j > 0 { assert groups[j] == tail[j - 1]; }
      }
    }
  }

  /** `wrapWithMiddleware(path, handler, ...middleware)`: the "*" group,
      then the group of the first prefix `path` starts with, then the
      route's own middleware. */
  function Wrap<H, M>(app: App<H, M>, path: string, handler: H, mws: seq<M>): (c: Chain<H, M>)
    ensures c.handler == handler
    ensures c.middleware == Lookup(app.prefixMiddleware, "*").GetOr([])
      + FirstPrefixGroup(app.prefixMiddleware, path) + mws
  {
    Chain(Lookup(app.prefixMiddleware, "*").GetOr([]) + FirstPrefixGroup(app.prefixMiddleware, path) + mws, handler)
  }

  /** `at(key, handler, ...middleware)`; `get`/`post`/`put`/`delete` pass
      "METHOD path" as the key. The chain is fixed now: a later `use`
      does not reach routes registered before it. */
  function At<H, M>(app: App<H, M>, key: string, handler: H, mws: seq<M>): (out: App<H, M>)
    ensures Lookup(out.routes, key) == Some(Wrap(app, key, handler, mws))
    ensures forall k :: k != key ==> Lookup(out.routes, k) == Lookup(app.routes, k)
    ensures out.prefixMiddleware == app.prefixMiddleware && out.staticDir == app.staticDir
  {
    app.(routes := Put(app.routes, key, Wrap(app, key, handler, mws)))
  }

  function Route<H, M>(app: App<H, M>, verb: string, path: string, handler: H, mws: seq<M>): App<H, M> {
    At(app, verb + " " + path, handler, mws)
  }

  /** Only one prefix group joins a chain: the first in registration order
      that the key starts with, even when later ones match too. */
  lemma OnlyFirstGroup<H, M>(app: App<H, M>, key: string, handler: H, mws: seq<M>, i: nat)
    requires i < |app.prefixMiddleware| && StartsWith(key, app.prefixMiddleware[i].0)
    requires forall j :: 0 <= j < i ==> !StartsWith(key, app.prefixMiddleware[j].0)
    ensures Wrap(app, key, handler, mws).middleware
      == Lookup(app.prefixMiddleware, "*").GetOr([]) + app.prefixMiddleware[i].1 + mws
  {
    var g := app.prefixMiddleware;
    var r := FirstPrefixGroup(g, key);
    var k :| 0 <= k < |g| && StartsWith(key, g[k].0) && r == g[k].1
      && forall j :: 0 <= j < k ==> !StartsWith(key, g[j].0);
    assert k == i;
  }

  /** A route key starts with its method, so a group whose prefix is a
      bare path ("/api") never joins a route registered through `get`,
      `post`, `put` or `delete`. */
  lemma PathPrefixMissesMethodKeys<H, M>(app: App<H, M>, verb: string, path: string, handler: H, mws: seq<M>)
    requires verb != "" && verb[0] != '/'
    requires forall i :: 0 <= i < |app.prefixMiddleware| ==>
      app.prefixMiddleware[i].0 != "" && app.prefixMiddleware[i].0[0] == '/'
    ensures Wrap(app, verb + " " + path, handler, mws).middleware == Lookup(app.prefixMiddleware, "*").GetOr([]) + mws
  {
    var key := verb + " " + path;
    assert key[0] == verb[0];
    forall i | 0 <= i < |app.prefixMiddleware| ensures !StartsWith(key, app.prefixMiddleware[i].0) {
      var p := app.prefixMiddleware[i].0;
    }
    assert FirstPrefixGroup(app.prefixMiddleware, key) == [];
  }

  /** What one run of a chain calls, in order. */
  datatype Step<H, M> = RanMiddleware(m: M) | RanHandler(h: H)

  /** The run of `executeMiddleware`: each middleware in turn, the next
      one only when the current one calls `next`, and the handler after
      the last. `callsNext` says whether a middleware calls `next`. */
  function Run<H, M>(mws: seq<M>, h: H, callsNext: M -> bool): (trace: seq<Step<H, M>>)
    ensures (forall i :: 0 <= i < |mws| ==> callsNext(mws[i])) ==> |trace| == |mws| + 1 && trace[|mws|] == RanHandler(h)
    ensures forall i :: 0 <= i < |trace| && i < |mws| ==> trace[i] == RanMiddleware(mws[i])
    ensures RanHandler(h) in trace ==> forall i :: 0 <= i < |mws| ==> callsNext(mws[i])
    ensures |trace| <= |mws| + 1
    decreases |mws|
  {
    if |mws| == 0 then [RanHandler(h)]
    else if callsNext(mws[0]) then
      var rest := Run(mws[1..], h, callsNext);
      RunCons(mws, h, callsNext, rest);
      [RanMiddleware(mws[0])] + rest
    else [RanMiddleware(mws[0])]
  }

  lemma RunCons<H, M>(mws: seq<M>, h: H, callsNext: M -> bool, rest: seq<Step<H, M>>)
    requires |mws| > 0 && callsNext(mws[0])
    requires (forall i :: 0 <= i < |mws[1..]| ==> callsNext(mws[1..][i])) ==> |rest| == |mws[1..]| + 1 && rest[|mws[1..]|] == RanHandler(h)
    requires forall i :: 0 <= i < |rest| && i < |mws[1..]| ==> rest[i] == RanMiddleware(mws[1..][i])
    requires RanHandler(h) in rest ==> forall i :: 0 <= i < |mws[1..]| ==> callsNext(mws[1..][i])
    requires |rest| <= |mws[1..]| + 1
    ensures var t := [RanMiddleware(mws[0])] + rest;
      && ((forall i :: 0 <= i < |mws| ==> callsNext(mws[i])) ==> |t| == |mws| + 1 && t[|mws|] == RanHandler(h))
      && (forall i :: 0 <= i < |t| && i < |mws| ==> t[i] == RanMiddleware(mws[i]))
      && (RanHandler(h) in t ==> forall i :: 0 <= i < |mws| ==> callsNext(mws[i]))
      && |t| <= |mws| + 1
  {
    var t := [RanMiddleware(mws[0])] + rest;
    var tail := mws[1..];
    if forall i :: 0 <= i < |mws| ==> callsNext(mws[i]) {
      forall i | 0 <= i < |tail| ensures callsNext(tail[i]) { assert tail[i] == mws[i + 1]; }
    }
    forall i | 0 <= i < |t| && i < |mws| ensures t[i] == RanMiddleware(mws[i]) {
      if i > 0 { assert t[i] == rest[i - 1] && tail[i - 1] == mws[i]; }
    }
    if RanHandler(h) in t {
      assert RanHandler(h) in rest;
      forall i | 0 <= i < |mws| ensures callsNext(mws[i]) {
        if i > 0 { assert mws[i] == tail[i - 1]; }
      }
    }
  }

  /** A middleware that does not call `next` ends the run: nothing after
      it runs, the handler included. */
  lemma StopperEndsRun<H, M>(mws: seq<M>, h: H, callsNext: M -> bool, k: nat)
    requires k < |mws| && !callsNext(mws[k])
    requires forall i :: 0 <= i < k ==> callsNext(mws[i])
    ensures Run(mws, h, callsNext) == seq(k + 1, i requires 0 <= i <= k => RanMiddleware(mws[i]))
    decreases k
  {
    if k > 0 {
      StopperEndsRun(mws[1..], h, callsNext, k - 1);
      var rest := Run(mws[1..], h, callsNext);
      assert Run(mws, h, callsNext) == [RanMiddleware(mws[0])] + rest;
    }
  }

  /** A segment naming a value: it holds both braces. */
  predicate IsBrace(seg: string) {
    Includes(seg, "{") && Includes(seg, "}")
  }

  /** `seg.slice(1, -1)`. */
  function BraceName(seg: string): string {
    if |seg| >= 2 then seg[1..|seg| - 1] else ""
  }

  /** The literal segments of a key, paired with the request's segments
      at the same places (the `filter` and `newPathParts` of the
      matcher). */
  function Literals(kp: seq<string>, pp: seq<string>): (r: (seq<string>, seq<string>))
    requires |kp| == |pp|
    ensures |r.0| == |r.1|
    ensures r.0 == r.1 <==> forall i :: 0 <= i < |kp| && !IsBrace(kp[i]) ==> kp[i] == pp[i]
    ensures |r.0| > 0 <==> exists i :: 0 <= i < |kp| && !IsBrace(kp[i])
  {
    if |kp| == 0 then ([], [])
    else
      var rest := Literals(kp[1..], pp[1..]);
      LiteralsCons(kp, pp, rest);
      if IsBrace(kp[0]) then rest else ([kp[0]] + rest.0, [pp[0]] + rest.1)
  }

  lemma LiteralsCons(kp: seq<string>, pp: seq<string>, rest: (seq<string>, seq<string>))
    requires |kp| == |pp| > 0
    requires |rest.0| == |rest.1|
    requires rest.0 == rest.1 <==> forall i :: 0 <= i < |kp[1..]| && !IsBrace(kp[1..][i]) ==> kp[1..][i] == pp[1..][i]
    requires |rest.0| > 0 <==> exists i :: 0 <= i < |kp[1..]| && !IsBrace(kp[1..][i])
    ensures var r := if IsBrace(kp[0]) then rest else ([kp[0]] + rest.0, [pp[0]] + rest.1);
      && |r.0| == |r.1|
      && (r.0 == r.1 <==> forall i :: 0 <= i < |kp| && !IsBrace(kp[i]) ==> kp[i] == pp[i])
      && (|r.0| > 0 <==> exists i :: 0 <= i < |kp| && !IsBrace(kp[i]))
  {
    var r := if IsBrace(kp[0]) then rest else ([kp[0]] + rest.0, [pp[0]] + rest.1);
    assert forall i :: 0 < i < |kp| ==> kp[i] == kp[1..][i - 1] && pp[i] == pp[1..][i - 1];
    if !IsBrace(kp[0]) {
      assert r.0 == r.1 <==> kp[0] == pp[0] && rest.0 == rest.1 by {
        if r.0 == r.1 { assert r.0[0] == r.1[0] && r.0[1..] == rest.0 && r.1[1..] == rest.1; }
      }
    }
    if exists i :: 0 <= i < |kp[1..]| && !IsBrace(kp[1..][i]) {
      var i :| 0 <= i < |kp[1..]| && !IsBrace(kp[1..][i]);
      assert !IsBrace(kp[i + 1]);
    }
    if exists i :: 0 < i < |kp| && !IsBrace(kp[i]) {
      var i :| 0 < i < |kp| && !IsBrace(kp[i]);
      assert !IsBrace(kp[1..][i - 1]);
    }
  }

  /** A dynamic key matches "METHOD path" when it holds a brace, has the
      same number of "/"-segments, has at least one literal segment, and
      all its literal segments equal the request's. */
  predicate KeyMatches(key: string, methodPath: string) {
    var kp := Split(key, '/');
    var pp := Split(methodPath, '/');
    (Includes(key, "{") || Includes(key, "}"))
    && |kp| == |pp|
    && (exists i :: 0 <= i < |kp| && !IsBrace(kp[i]))
    && forall i :: 0 <= i < |kp| && !IsBrace(kp[i]) ==> kp[i] == pp[i]
  }

  /** The index each name was recorded at while `filter` walked the key's
      segments from `i` on: later segments overwrite earlier ones. */
  function Bind(kp: seq<string>, i: nat, ctx: map<string, int>): (r: map<string, int>)
    requires i <= |kp|
    ensures forall n :: n in r <==> n in ctx || exists j :: i <= j < |kp| && IsBrace(kp[j]) && BraceName(kp[j]) == n
    decreases |kp| - i
  {
    if i == |kp| then ctx
    else
      var r := Bind(kp, i + 1, if IsBrace(kp[i]) then ctx[BraceName(kp[i]) := i] else ctx);
      BindStep(kp, i, ctx, r);
      r
  }

  lemma BindStep(kp: seq<string>, i: nat, ctx: map<string, int>, r: map<string, int>)
    requires i < |kp|
    requires var c := if IsBrace(kp[i]) then ctx[BraceName(kp[i]) := i] else ctx;
      forall n :: n in r <==> n in c || exists j :: i + 1 <= j < |kp| && IsBrace(kp[j]) && BraceName(kp[j]) == n
    ensures forall n :: n in r <==> n in ctx || exists j :: i <= j < |kp| && IsBrace(kp[j]) && BraceName(kp[j]) == n
  {
    forall n | exists j :: i <= j < |kp| && IsBrace(kp[j]) && BraceName(kp[j]) == n ensures n in r {
      var j :| i <= j < |kp| && IsBrace(kp[j]) && BraceName(kp[j]) == n;
      if j > i { assert exists j' :: i + 1 <= j' < |kp| && IsBrace(kp[j']) && BraceName(kp[j']) == n; }
    }
  }

  /** A name takes the index of its last brace segment. */
  lemma {:induction false} BindLastWins(kp: seq<string>, i: nat, ctx: map<string, int>, j: nat)
    requires i <= j < |kp| && IsBrace(kp[j])
    requires forall l :: j < l < |kp| && IsBrace(kp[l]) ==> BraceName(kp[l]) != BraceName(kp[j])
    ensures BraceName(kp[j]) in Bind(kp, i, ctx) && Bind(kp, i, ctx)[BraceName(kp[j])] == j
    decreases |kp| - i
  {
    var c := if IsBrace(kp[i]) then ctx[BraceName(kp[i]) := i] else ctx;
    if i < j {
      BindLastWins(kp, i + 1, c, j);
    } else {
      BindKeeps(kp, i + 1, c, BraceName(kp[j]));
    }
  }

  /** A name no later segment holds keeps its index. */
  lemma {:induction false} BindKeeps(kp: seq<string>, i: nat, ctx: map<string, int>, n: string)
    requires i <= |kp| && n in ctx
    requires forall l :: i <= l < |kp| && IsBrace(kp[l]) ==> BraceName(kp[l]) != n
    ensures n in Bind(kp, i, ctx) && Bind(kp, i, ctx)[n] == ctx[n]
    decreases |kp| - i
  {
    if i < |kp| {
      var c := if IsBrace(kp[i]) then ctx[BraceName(kp[i]) := i] else ctx;
      BindKeeps(kp, i + 1, c, n);
    }
  }

  /** `searchObjectForDynamicPath(routes, methodPath, c)`: the first key
      in order that matches, or ""; with the names every examined key of
      the right length recorded into the context on the way, matched or
      not. */
  function Search(keys: seq<string>, methodPath: string, ctx: map<string, int>): (r: (string, map<string, int>))
    ensures r.0 != "" ==> (exists i :: 0 <= i < |keys| && keys[i] == r.0 && KeyMatches(r.0, methodPath)
                             && forall j :: 0 <= j < i ==> !KeyMatches(keys[j], methodPath))
    ensures r.0 == "" ==> forall i :: 0 <= i < |keys| && keys[i] != "" ==> !KeyMatches(keys[i], methodPath)
    ensures r.0 != "" ==> exists prior :: r.1 == Bind(Split(r.0, '/'), 0, prior)
    decreases |keys|
  {
    if |keys| == 0 then ("", ctx)
    else
      var key := keys[0];
      var kp := Split(key, '/');
      var pp := Split(methodPath, '/');
      if !Includes(key, "{") && !Includes(key, "}") then
        var r := Search(keys[1..], methodPath, ctx);
        SearchSkip(keys, methodPath, r);
        r
      else if |kp| != |pp| then
        var r := Search(keys[1..], methodPath, ctx);
        SearchSkip(keys, methodPath, r);
        r
      else
        var bound := Bind(kp, 0, ctx);
        var lits := Literals(kp, pp);
        if |lits.0| > 0 && lits.0 == lits.1 then
          (assert key != "" by { assert Includes(key, "{") || Includes(key, "}"); }
           (key, bound))
        else
          var r := Search(keys[1..], methodPath, bound);
          SearchSkip(keys, methodPath, r);
          r
  }

  lemma SearchSkip(keys: seq<string>, methodPath: string, r: (string, map<string, int>))
    requires |keys| > 0 && !KeyMatches(keys[0], methodPath)
    requires r.0 != "" ==> (exists i :: 0 <= i < |keys[1..]| && keys[1..][i] == r.0 && KeyMatches(r.0, methodPath)
                              && forall j :: 0 <= j < i ==> !KeyMatches(keys[1..][j], methodPath))
    requires r.0 == "" ==> forall i :: 0 <= i < |keys[1..]| && keys[1..][i] != "" ==> !KeyMatches(keys[1..][i], methodPath)
    ensures r.0 != "" ==> (exists i :: 0 <= i < |keys| && keys[i] == r.0 && KeyMatches(r.0, methodPath)
                             && forall j :: 0 <= j < i ==> !KeyMatches(keys[j], methodPath))
    ensures r.0 == "" ==> forall i :: 0 <= i < |keys| && keys[i] != "" ==> !KeyMatches(keys[i], methodPath)
  {
    var tail := keys[1..];
    if r.0 != "" {
      var i :| 0 <= i < |tail| && tail[i] == r.0 && KeyMatches(r.0, methodPath)
        && forall j :: 0 <= j < i ==> !KeyMatches(tail[j], methodPath);
      assert keys[i + 1] == r.0;
      forall j | 0 <= j < i + 1 ensures !KeyMatches(keys[j], methodPath) {
        if j > 0 { assert keys[j] == tail[j - 1]; }
      }
    } else {
      forall i | 0 <= i < |keys| && keys[i] != "" ensures !KeyMatches(keys[i], methodPath) {
        if i > 0 { assert keys[i] == tail[i - 1]; }
      }
    }
  }

  /** The response fields the context fills in. */
  datatype Ctx = Ctx(status: int, body: string, headers: map<string, string>, isReady: bool, urlContext: map<string, int>)

  function NewCtx(): Ctx {
    Ctx(200, "", map[], false, map[])
  }

  /** `respond()`: an unready context answers 500 "response body not
      set"; a ready one answers with what it holds. */
  datatype Answer = Answer(status: int, body: string, headers: map<string, string>)

  function Respond(c: Ctx): (a: Answer)
    ensures !c.isReady ==> a == Answer(500, "response body not set", map[])
    ensures c.isReady ==> a == Answer(c.status, c.body, c.headers)
  {
    if !c.isReady then Answer(500, "response body not set", map[]) else Answer(c.status, c.body, c.headers)
  }

  function SetHeader(c: Ctx, k: string, v: string): Ctx {
    c.(headers := c.headers[k := v])
  }

  function Status(c: Ctx, code: int): Ctx {
    c.(status := code, isReady := true)
  }

  function WriteText(c: Ctx, message: string): (out: Ctx)
    ensures out.isReady && out.body == message && out.status == c.status
    ensures out.headers == c.headers["Content-Type" := "text/plain"]
  {
    SetHeader(c.(body := message), "Content-Type", "text/plain").(isReady := true)
  }

  /** `json(obj)` with the object already serialised. */
  function Json(c: Ctx, rendered: string): (out: Ctx)
    ensures out.isReady && out.body == rendered && out.status == c.status
    ensures out.headers == c.headers["Content-Type" := "application/json"]
  {
    SetHeader(c, "Content-Type", "application/json").(body := rendered, isReady := true)
  }

  /** `redirect(path)`: Location, then status 303. */
  function Redirect(c: Ctx, path: string): (out: Ctx)
    ensures out.isReady && out.status == 303 && out.body == c.body
    ensures "Location" in out.headers && out.headers["Location"] == path
  {
    Status(SetHeader(c, "Location", path), 303)
  }

  /** `html(str)` as written: it sets the content type and readiness but
      never stores `str`. */
  function HtmlAsWritten(c: Ctx, str: string): (out: Ctx)
    ensures out.isReady && out.body == c.body
  {
    SetHeader(c, "Content-Type", "text/html").(isReady := true)
  }

  /** The page passed to `html` never reaches the response. */
  lemma HtmlAsWrittenDropsBody()
    ensures Respond(HtmlAsWritten(NewCtx(), "<h1>hi</h1>")).body == ""
  {
  }

  /** `html(str)` as its name and argument mean it: the page becomes the
      body. */
  function Html(c: Ctx, str: string): (out: Ctx)
    ensures out.isReady && out.body == str && out.status == c.status
    ensures out.headers == c.headers["Content-Type" := "text/html"]
  {
    SetHeader(c.(body := str), "Content-Type", "text/html").(isReady := true)
  }

  /** With the corrected `html`, the page is what `respond` sends. */
  lemma HtmlResponds(c: Ctx, str: string)
    ensures Respond(Html(c, str)).body == str && Respond(Html(c, str)).status == c.status
  {
  }

  /** The default not-found handler. */
  function NotFound(c: Ctx): (out: Ctx)
    ensures Respond(out) == Answer(404, "404 not found", c.headers["Content-Type" := "text/plain"])
  {
    WriteText(Status(c, 404), "404 not found")
  }

  /** `dyn(key)`: the pathname segment at the index recorded for the
      name; undefined when none was recorded or it lies past the end. */
  function Dyn(c: Ctx, pathname: string, key: string): (r: Option<string>)
    ensures r.Some? ==> (key in c.urlContext && 0 <= c.urlContext[key] < |Split(pathname, '/')|
                         && r.value == Split(pathname, '/')[c.urlContext[key]])
    ensures r.None? <==> key !in c.urlContext || !(0 <= c.urlContext[key] < |Split(pathname, '/')|)
  {
    if key !in c.urlContext then None
    else
      var parts := Split(pathname, '/');
      var i := c.urlContext[key];
      if 0 <= i < |parts| then Some(parts[i]) else None
  }

  /** Where `handleRequest` sends a request: static files (the static
      directory or the favicon) first, then the exact "METHOD path" key,
      then the dynamic key the matcher picks, then not-found. */
  datatype Target = StaticFile | Exact(key: string) | Dynamic(key: string) | Missing

  function Dispatch<H, M>(app: App<H, M>, verb: string, pathname: string): (r: (Target, map<string, int>))
    ensures StartsWith(pathname, app.staticDir + "/") || pathname == "/favicon.ico" ==> r.0 == StaticFile
    ensures r.0.Exact? <==> (!(StartsWith(pathname, app.staticDir + "/") || pathname == "/favicon.ico")
                             && verb + " " + pathname in KeysOf(app.routes))
    ensures r.0.Exact? ==> r.0.key == verb + " " + pathname
    ensures r.0.Dynamic? ==> (r.0.key in KeysOf(app.routes)
                              && verb + " " + pathname !in KeysOf(app.routes)
                              && r == (Dynamic(Search(KeysOf(app.routes), verb + " " + pathname, map[]).0), Search(KeysOf(app.routes), verb + " " + pathname, map[]).1))
  {
    var mp := verb + " " + pathname;
    if StartsWith(pathname, app.staticDir + "/") || pathname == "/favicon.ico" then (StaticFile, map[])
    else if Lookup(app.routes, mp).Some? then (Exact(mp), map[])
    else
      var s := Search(KeysOf(app.routes), mp, map[]);
      if Lookup(app.routes, s.0).Some? then (Dynamic(s.0), s.1) else (Missing, s.1)
  }

  /** A dynamic dispatch goes to the first key that matches: no earlier
      key in registration order matches the request. */
  lemma DynamicIsFirstMatch<H, M>(app: App<H, M>, verb: string, pathname: string)
    requires Dispatch(app, verb, pathname).0.Dynamic? && Dispatch(app, verb, pathname).0.key != ""
    ensures var keys := KeysOf(app.routes); var k := Dispatch(app, verb, pathname).0.key;
      KeyMatches(k, verb + " " + pathname)
      && exists i :: 0 <= i < |keys| && keys[i] == k && forall j :: 0 <= j < i ==> !KeyMatches(keys[j], verb + " " + pathname)
  {
  }

  /** A request nothing matches reaches not-found. */
  lemma UnmatchedIsMissing<H, M>(app: App<H, M>, verb: string, pathname: string)
    requires !(StartsWith(pathname, app.staticDir + "/") || pathname == "/favicon.ico")
    requires verb + " " + pathname !in KeysOf(app.routes) && "" !in KeysOf(app.routes)
    requires forall i :: 0 <= i < |app.routes| ==> !KeyMatches(app.routes[i].0, verb + " " + pathname)
    ensures Dispatch(app, verb, pathname).0 == Missing
  {
  }

  /** A method without "/" and a rooted pathname split alike after the
      first segment, so indices recorded against "METHOD path" address
      the pathname's segments. */
  lemma MethodPathSegments(verb: string, rest: string)
    requires '/' !in verb
    ensures var mp := Split(verb + " " + "/" + rest, '/'); var pp := Split("/" + rest, '/');
      |mp| == |pp| && mp[1..] == pp[1..]
  {
    assert '/' !in verb + " " by {
      forall k | 0 <= k < |verb + " "| ensures (verb + " ")[k] != '/' {
        if k < |verb| { assert (verb + " ")[k] == verb[k]; }
      }
    }
    assert verb + " " + "/" + rest == (verb + " ") + ['/'] + rest;
    SplitHead(verb + " ", rest, '/');
    assert "/" + rest == "" + ['/'] + rest;
    SplitHead("", rest, '/');
  }

  /** After a dynamic match, `dyn(name)` reads the request segment at
      the place of the matched key's (last) `{name}` segment. */
  lemma DynReadsMatchedSegment(keys: seq<string>, verb: string, rest: string, j: nat)
    requires '/' !in verb
    requires Search(keys, verb + " " + "/" + rest, map[]).0 != ""
    requires var kp := Split(Search(keys, verb + " " + "/" + rest, map[]).0, '/');
      0 < j < |kp| && IsBrace(kp[j])
      && forall l :: j < l < |kp| && IsBrace(kp[l]) ==> BraceName(kp[l]) != BraceName(kp[j])
    ensures var s := Search(keys, verb + " " + "/" + rest, map[]); var parts := Split("/" + rest, '/');
      j < |parts| && Dyn(Ctx(200, "", map[], false, s.1), "/" + rest, BraceName(Split(s.0, '/')[j])) == Some(parts[j])
  {
    var mp := verb + " " + "/" + rest;
    var s := Search(keys, mp, map[]);
    var kp := Split(s.0, '/');
    var name := BraceName(kp[j]);
    assert s.1[name] == j && |kp| == |Split(mp, '/')| by {
      var prior :| s.1 == Bind(kp, 0, prior);
      BindLastWins(kp, 0, prior, j);
      var i :| 0 <= i < |keys| && keys[i] == s.0 && KeyMatches(s.0, mp);
    }
    MethodPathSegments(verb, rest);
    DynAt(Ctx(200, "", map[], false, s.1), "/" + rest, name);
  }

  lemma DynAt(c: Ctx, pathname: string, key: string)
    requires key in c.urlContext && 0 <= c.urlContext[key] < |Split(pathname, '/')|
    ensures Dyn(c, pathname, key) == Some(Split(pathname, '/')[c.urlContext[key]])
  {
  }
}
