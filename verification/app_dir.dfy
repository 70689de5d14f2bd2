/** The app-directory router's file ordering and middleware selection
    (src/filerouter/AppDir.ts): route files are visited by "/"-depth and
    then by path text, and a request's middleware is gathered from every
    route file whose endpoint prefixes the requested one. */
module AppDir {
  import opened Text

  /** `a.split('/').length`. */
  function Depth(p: string): nat {
    |Split(p, '/')|
  }

  /** The comparison of path texts, by UTF-16 code unit (the tie-break of
      `sortFilePaths`). */
  predicate LexLe(a: string, b: string)
    decreases |a|
  {
    if |a| == 0 then true
    else if |b| == 0 then false
    else if a[0] != b[0] then a[0] < b[0]
    else LexLe(a[1..], b[1..])
  }

  lemma {:induction false} LexTotal(a: string, b: string)
    ensures LexLe(a, b) || LexLe(b, a)
    decreases |a|
  {
    if |a| > 0 && |b| > 0 && a[0] == b[0] {
      LexTotal(a[1..], b[1..]);
    }
  }

  lemma {:induction false} LexReflexive(a: string)
    ensures LexLe(a, a)
    decreases |a|
  {
    if |a| > 0 {
      LexReflexive(a[1..]);
    }
  }

  /** The order of `sortFilePaths`: shallower first, then by text. */
  predicate Before(a: string, b: string) {
    Depth(a) < Depth(b) || (Depth(a) == Depth(b) && LexLe(a, b))
  }

  lemma BeforeTotal(a: string, b: string)
    ensures Before(a, b) || Before(b, a)
  {
    LexTotal(a, b);
  }

  predicate Sorted(ps: seq<string>) {
    forall i :: 0 <= i < |ps| - 1 ==> Before(ps[i], ps[i + 1])
  }

  /** One step of the insertion sort: `x` goes before the first path it
      is ordered before. */
  function Insert(x: string, ps: seq<string>): (r: seq<string>)
    requires Sorted(ps)
    ensures Sorted(r)
    ensures multiset(r) == multiset(ps) + multiset{x}
    ensures |r| == |ps| + 1 && (r[0] == x || (|ps| > 0 && r[0] == ps[0]))
  {
    if |ps| == 0 then [x]
    else if Before(x, ps[0]) then [x] + ps
    else
      var rest := Insert(x, ps[1..]);
      BeforeTotal(x, ps[0]);
      assert ps == [ps[0]] + ps[1..];
      InsertCons(x, ps, rest);
      [ps[0]] + rest
  }

  lemma InsertCons(x: string, ps: seq<string>, rest: seq<string>)
    requires |ps| > 0 && Sorted(ps) && Before(ps[0], x) && Sorted(rest)
    requires |rest| > 0 && (rest[0] == x || (|ps| > 1 && rest[0] == ps[1]))
    ensures Sorted([ps[0]] + rest)
  {
    var r := [ps[0]] + rest;
    forall i | 0 <= i < |r| - 1 ensures Before(r[i], r[i + 1]) {
      if i > 0 { assert r[i] == rest[i - 1] && r[i + 1] == rest[i]; }
    }
  }

  /** `sortFilePaths`: the same paths, in `Before` order. */
  function SortFilePaths(ps: seq<string>): (r: seq<string>)
    ensures Sorted(r)
    ensures multiset(r) == multiset(ps)
  {
    if |ps| == 0 then []
    else
      assert ps == [ps[0]] + ps[1..];
      Insert(ps[0], SortFilePaths(ps[1..]))
  }

  /** `MiddlwareStradegy`: an isolated middleware applies only at its own
      endpoint, a cascading one also below it. */
  datatype Strategy = Cascade | Isolate

  datatype MiddlewareExport<M> = MiddlewareExport(strategy: Strategy, middleware: M)

  datatype FileType = Init | Route

  /** An app file: its path, its endpoint, its type and the middleware
      its module attaches to GET. */
  datatype AppFile<M> = AppFile(filePath: string, endpoint: string, fileType: FileType, getMiddleware: seq<MiddlewareExport<M>>)

  /** `loadEndpoint`: "/" for the app directory itself, "/" + the
      relative directory otherwise. */
  function LoadEndpoint(rel: string): (e: string)
    ensures StartsWith(e, "/")
    ensures rel != "" ==> e[1..] == rel
  {
    if rel != "" then "/" + rel else "/"
  }

  /** The paths of the route files, in file order. */
  function RoutePaths<M(!new)>(files: seq<AppFile<M>>): (ps: seq<string>)
    ensures forall p :: p in ps <==> exists f :: f in files && f.fileType == Route && f.filePath == p
  {
    if |files| == 0 then []
    else
      var rest := RoutePaths(files[1..]);
      assert forall f :: f in files <==> f == files[0] || f in files[1..];
      if files[0].fileType == Route then [files[0].filePath] + rest else rest
  }

  /** The route files at one path, in file order (the inner loop). */
  function RouteFilesAt<M(!new)>(files: seq<AppFile<M>>, p: string): (r: seq<AppFile<M>>)
    ensures forall f :: f in r <==> f in files && f.fileType == Route && f.filePath == p
  {
    if |files| == 0 then []
    else
      var rest := RouteFilesAt(files[1..], p);
      assert forall f :: f in files <==> f == files[0] || f in files[1..];
      if files[0].fileType == Route && files[0].filePath == p then [files[0]] + rest else rest
  }

  /** The visits for a list of paths: for each path, every route file at
      it. */
  function VisitPaths<M(!new)>(files: seq<AppFile<M>>, ps: seq<string>): (r: seq<AppFile<M>>)
    ensures forall f :: f in r <==> f in files && f.fileType == Route && f.filePath in ps
  {
    if |ps| == 0 then []
    else
      var rest := VisitPaths(files, ps[1..]);
      assert forall p :: p in ps <==> p == ps[0] || p in ps[1..];
      RouteFilesAt(files, ps[0]) + rest
  }

  /** `iterRouteAppFiles`: the route files, in sorted path order. */
  function IterRouteAppFiles<M(!new)>(files: seq<AppFile<M>>): (r: seq<AppFile<M>>)
    ensures forall f :: f in r <==> f in files && f.fileType == Route
  {
    var ps := RoutePaths(files);
    var sorted := SortFilePaths(ps);
    assert forall p :: p in sorted <==> p in ps by {
      forall p ensures p in sorted <==> p in ps {
        assert p in sorted <==> multiset(sorted)[p] > 0;
        assert p in ps <==> multiset(ps)[p] > 0;
      }
    }
    VisitPaths(files, sorted)
  }

  /** Visiting sorted, present paths yields files in sorted path order. */
  lemma {:induction false} VisitSorted<M(!new)>(files: seq<AppFile<M>>, ps: seq<string>)
    requires Sorted(ps)
    requires forall i :: 0 <= i < |ps| ==> |RouteFilesAt(files, ps[i])| > 0
    ensures var r := VisitPaths(files, ps);
      forall i :: 0 <= i < |r| - 1 ==> Before(r[i].filePath, r[i + 1].filePath)
    ensures |ps| > 0 ==> VisitPaths(files, ps)[0].filePath == ps[0]
  {
    if |ps| > 0 {
      var g := RouteFilesAt(files, ps[0]);
      var rest := VisitPaths(files, ps[1..]);
      var r := g + rest;
      assert forall i :: 0 <= i < |ps[1..]| ==> ps[1..][i] == ps[i + 1];
      VisitSorted(files, ps[1..]);
      assert g[0] in g;
      forall i | 0 <= i < |r| - 1 ensures Before(r[i].filePath, r[i + 1].filePath) {
        assert r[i] in g ==> r[i].filePath == ps[0];
        if i + 1 < |g| {
          assert r[i] == g[i] && r[i + 1] == g[i + 1] && g[i] in g && g[i + 1] in g;
          LexReflexive(ps[0]);
        } else if i + 1 == |g| {
          assert r[i] == g[i] && g[i] in g;
          assert r[i + 1] == rest[0];
        } else {
          assert r[i] == rest[i - |g|] && r[i + 1] == rest[i + 1 - |g|];
        }
      }
    }
  }

  /** `iterRouteAppFiles` visits shallower route files first, and files
      of equal depth by path text. */
  lemma IterSorted<M(!new)>(files: seq<AppFile<M>>)
    ensures var r := IterRouteAppFiles(files);
      forall i :: 0 <= i < |r| - 1 ==> Before(r[i].filePath, r[i + 1].filePath)
  {
    var ps := RoutePaths(files);
    var sorted := SortFilePaths(ps);
    forall i | 0 <= i < |sorted| ensures |RouteFilesAt(files, sorted[i])| > 0 {
      assert sorted[i] in multiset(sorted);
      assert sorted[i] in ps;
      var f :| f in files && f.fileType == Route && f.filePath == sorted[i];
      assert f in RouteFilesAt(files, sorted[i]);
    }
    VisitSorted(files, sorted);
  }

  /** What one route file gives a request for `method` at `endpoint`:
      nothing unless its endpoint prefixes the requested one and the
      method is GET; all its middleware at its own endpoint, only the
      cascading ones below it. */
  function Contribution<M(!new)>(f: AppFile<M>, verb: string, endpoint: string): (r: seq<M>)
    ensures |r| <= |f.getMiddleware|
  {
    if !StartsWith(endpoint, f.endpoint) || verb != "GET" then []
    else if endpoint == f.endpoint then Middlewares(f.getMiddleware, false)
    else Middlewares(f.getMiddleware, true)
  }

  /** The middleware of the exports, optionally keeping only the
      cascading ones, in order. */
  function Middlewares<M(!new)>(xs: seq<MiddlewareExport<M>>, cascadeOnly: bool): (r: seq<M>)
    ensures |r| <= |xs|
    ensures forall m :: m in r <==> exists i :: 0 <= i < |xs| && xs[i].middleware == m && (!cascadeOnly || xs[i].strategy == Cascade)
    ensures !cascadeOnly ==> |r| == |xs| && forall i :: 0 <= i < |xs| ==> r[i] == xs[i].middleware
  {
    if |xs| == 0 then []
    else
      var rest := Middlewares(xs[1..], cascadeOnly);
      MiddlewaresCons(xs, cascadeOnly, rest);
      if !cascadeOnly || xs[0].strategy == Cascade then [xs[0].middleware] + rest else rest
  }

  lemma MiddlewaresCons<M(!new)>(xs: seq<MiddlewareExport<M>>, cascadeOnly: bool, rest: seq<M>)
    requires |xs| > 0
    requires forall m :: m in rest <==> exists i :: 0 <= i < |xs[1..]| && xs[1..][i].middleware == m && (!cascadeOnly || xs[1..][i].strategy == Cascade)
    ensures var r := if !cascadeOnly || xs[0].strategy == Cascade then [xs[0].middleware] + rest else rest;
      forall m :: m in r <==> exists i :: 0 <= i < |xs| && xs[i].middleware == m && (!cascadeOnly || xs[i].strategy == Cascade)
  {
    forall i | 0 <= i < |xs| && (!cascadeOnly || xs[i].strategy == Cascade)
      ensures xs[i].middleware in (if !cascadeOnly || xs[0].strategy == Cascade then [xs[0].middleware] + rest else rest)
    {
      if i > 0 { assert xs[1..][i - 1] == xs[i]; }
    }
    forall m | m in rest ensures exists i :: 0 <= i < |xs| && xs[i].middleware == m && (!cascadeOnly || xs[i].strategy == Cascade) {
      var i :| 0 <= i < |xs[1..]| && xs[1..][i].middleware == m && (!cascadeOnly || xs[1..][i].strategy == Cascade);
      assert xs[i + 1] == xs[1..][i];
    }
  }

  /** Filtering the exports of two runs is filtering each, in order: the
      kept middleware stay in export order. */
  lemma {:induction false} MiddlewaresAppend<M(!new)>(a: seq<MiddlewareExport<M>>, b: seq<MiddlewareExport<M>>, cascadeOnly: bool)
    ensures Middlewares(a + b, cascadeOnly) == Middlewares(a, cascadeOnly) + Middlewares(b, cascadeOnly)
    decreases |a|
  {
    if |a| == 0 {
      assert a + b == b;
    } else {
      var ab := a + b;
      assert ab[0] == a[0] && ab[1..] == a[1..] + b;
      var head := if !cascadeOnly || a[0].strategy == Cascade then [a[0].middleware] else [];
      MiddlewaresAppend(a[1..], b, cascadeOnly);
      calc {
        Middlewares(ab, cascadeOnly);
        head + Middlewares(a[1..] + b, cascadeOnly);
        head + (Middlewares(a[1..], cascadeOnly) + Middlewares(b, cascadeOnly));
        (head + Middlewares(a[1..], cascadeOnly)) + Middlewares(b, cascadeOnly);
      }
    }
  }

  /** The contributions of the visited files, concatenated in visit
      order. */
  function Gather<M(!new)>(visited: seq<AppFile<M>>, verb: string, endpoint: string): (r: seq<M>)
    ensures forall m :: m in r <==> exists i :: 0 <= i < |visited| && m in Contribution(visited[i], verb, endpoint)
  {
    if |visited| == 0 then []
    else
      var rest := Gather(visited[1..], verb, endpoint);
      GatherCons(visited, verb, endpoint, rest);
      Contribution(visited[0], verb, endpoint) + rest
  }

  lemma GatherCons<M(!new)>(visited: seq<AppFile<M>>, verb: string, endpoint: string, rest: seq<M>)
    requires |visited| > 0
    requires forall m :: m in rest <==> exists i :: 0 <= i < |visited[1..]| && m in Contribution(visited[1..][i], verb, endpoint)
    ensures forall m :: m in Contribution(visited[0], verb, endpoint) + rest <==>
      exists i :: 0 <= i < |visited| && m in Contribution(visited[i], verb, endpoint)
  {
    forall m | exists i :: 0 <= i < |visited| && m in Contribution(visited[i], verb, endpoint)
      ensures m in Contribution(visited[0], verb, endpoint) + rest
    {
      var i :| 0 <= i < |visited| && m in Contribution(visited[i], verb, endpoint);
      if i > 0 { assert visited[1..][i - 1] == visited[i]; }
    }
    forall m | m in rest ensures exists i :: 0 <= i < |visited| && m in Contribution(visited[i], verb, endpoint) {
      var i :| 0 <= i < |visited[1..]| && m in Contribution(visited[1..][i], verb, endpoint);
      assert visited[i + 1] == visited[1..][i];
    }
  }

  /** `loadMiddleware(method, endpoint)`. */
  function LoadMiddleware<M(!new)>(files: seq<AppFile<M>>, verb: string, endpoint: string): (r: seq<M>)
    ensures verb != "GET" ==> r == []
  {
    var visited := IterRouteAppFiles(files);
    var r := Gather(visited, verb, endpoint);
    assert verb != "GET" ==> r == [] by {
      if verb != "GET" { NoGetNothing(visited, verb, endpoint); }
    }
    r
  }

  lemma {:induction false} NoGetNothing<M(!new)>(visited: seq<AppFile<M>>, verb: string, endpoint: string)
    requires verb != "GET"
    ensures Gather(visited, verb, endpoint) == []
  {
    if |visited| > 0 {
      NoGetNothing(visited[1..], verb, endpoint);
    }
  }

  /** Gathering two runs of files is gathering each, in order. */
  lemma {:induction false} GatherAppend<M(!new)>(a: seq<AppFile<M>>, b: seq<AppFile<M>>, verb: string, endpoint: string)
    ensures Gather(a + b, verb, endpoint) == Gather(a, verb, endpoint) + Gather(b, verb, endpoint)
    decreases |a|
  {
    if |a| == 0 {
      assert a + b == b;
    } else {
      assert (a + b)[0] == a[0] && (a + b)[1..] == a[1..] + b;
      GatherAppend(a[1..], b, verb, endpoint);
    }
  }

  /** Where the block of the `i`-th visited file starts: after the blocks
      of the files visited before it. */
  function BlockStart<M(!new)>(files: seq<AppFile<M>>, verb: string, endpoint: string, i: nat): nat
    requires i <= |IterRouteAppFiles(files)|
  {
    |Gather(IterRouteAppFiles(files)[..i], verb, endpoint)|
  }

  /** The loaded list is the visited files' contributions laid end to end
      in visit order: everything before file `i`'s block comes from the
      files visited before it, and the block itself is that file's
      contribution, in export order. */
  lemma LoadOrder<M(!new)>(files: seq<AppFile<M>>, verb: string, endpoint: string, i: nat)
    requires i < |IterRouteAppFiles(files)|
    ensures var visited := IterRouteAppFiles(files);
      var start := BlockStart(files, verb, endpoint, i);
      var c := Contribution(visited[i], verb, endpoint);
      var r := LoadMiddleware(files, verb, endpoint);
      && start + |c| <= |r|
      && r[..start] == Gather(visited[..i], verb, endpoint)
      && r[start..start + |c|] == c
  {
    GatherBlock(IterRouteAppFiles(files), verb, endpoint, i);
  }

  lemma GatherBlock<M(!new)>(visited: seq<AppFile<M>>, verb: string, endpoint: string, i: nat)
    requires i < |visited|
    ensures var start := |Gather(visited[..i], verb, endpoint)|;
      var c := Contribution(visited[i], verb, endpoint);
      var r := Gather(visited, verb, endpoint);
      && start + |c| <= |r|
      && r[..start] == Gather(visited[..i], verb, endpoint)
      && r[start..start + |c|] == c
  {
    var c := Contribution(visited[i], verb, endpoint);
    var before, tail := visited[..i], [visited[i]] + visited[i + 1..];
    assert visited == before + tail;
    assert tail[1..] == visited[i + 1..];
    GatherAppend(before, tail, verb, endpoint);
    var g, h := Gather(before, verb, endpoint), Gather(tail, verb, endpoint);
    assert h == c + Gather(visited[i + 1..], verb, endpoint);
    var r := g + h;
    assert r[..|g|] == g;
    assert r[|g|..|g| + |c|] == c;
  }

  /** An earlier visited file's block ends before a later one's begins, so
      the middleware of shallower route files come first. */
  lemma EarlierBlockFirst<M(!new)>(files: seq<AppFile<M>>, verb: string, endpoint: string, j: nat, k: nat)
    requires j < k <= |IterRouteAppFiles(files)|
    ensures BlockStart(files, verb, endpoint, j) + |Contribution(IterRouteAppFiles(files)[j], verb, endpoint)|
      <= BlockStart(files, verb, endpoint, k)
  {
    var visited := IterRouteAppFiles(files);
    assert visited[..k] == visited[..j] + [visited[j]] + visited[j + 1..k];
    GatherAppend(visited[..j] + [visited[j]], visited[j + 1..k], verb, endpoint);
    GatherAppend(visited[..j], [visited[j]], verb, endpoint);
    assert Gather([visited[j]], verb, endpoint) == Contribution(visited[j], verb, endpoint) + [];
  }

  /** A middleware is loaded for a GET exactly when some route file whose
      endpoint prefixes the request's exports it, and it cascades or the
      endpoints are equal. */
  lemma LoadedIff<M(!new)>(files: seq<AppFile<M>>, endpoint: string, m: M)
    ensures m in LoadMiddleware(files, "GET", endpoint) <==> Exported(files, endpoint, m)
  {
    if m in LoadMiddleware(files, "GET", endpoint) {
      LoadedIsExported(files, endpoint, m);
    }
    if Exported(files, endpoint, m) {
      ExportedIsLoaded(files, endpoint, m);
    }
  }

  /** Some route file above or at `endpoint` exports `m` in a way that
      reaches `endpoint`. */
  ghost predicate Exported<M(!new)>(files: seq<AppFile<M>>, endpoint: string, m: M) {
    exists f, i :: f in files && f.fileType == Route && StartsWith(endpoint, f.endpoint)
      && 0 <= i < |f.getMiddleware| && f.getMiddleware[i].middleware == m
      && (endpoint == f.endpoint || f.getMiddleware[i].strategy == Cascade)
  }

  lemma LoadedIsExported<M(!new)>(files: seq<AppFile<M>>, endpoint: string, m: M)
    requires m in LoadMiddleware(files, "GET", endpoint)
    ensures Exported(files, endpoint, m)
  {
    var visited := IterRouteAppFiles(files);
    assert m in Gather(visited, "GET", endpoint);
    var k :| 0 <= k < |visited| && m in Contribution(visited[k], "GET", endpoint);
    var f := visited[k];
    assert f in visited;
    assert f in files && f.fileType == Route;
    var i := ContributionFrom(f, endpoint, m);
  }

  /** Where a contributed middleware comes from. */
  lemma ContributionFrom<M(!new)>(f: AppFile<M>, endpoint: string, m: M) returns (i: nat)
    requires m in Contribution(f, "GET", endpoint)
    ensures StartsWith(endpoint, f.endpoint)
    ensures i < |f.getMiddleware| && f.getMiddleware[i].middleware == m
    ensures endpoint == f.endpoint || f.getMiddleware[i].strategy == Cascade
  {
    var cascadeOnly := endpoint != f.endpoint;
    assert m in Middlewares(f.getMiddleware, cascadeOnly);
    i :| 0 <= i < |f.getMiddleware| && f.getMiddleware[i].middleware == m
      && (!cascadeOnly || f.getMiddleware[i].strategy == Cascade);
  }

  lemma ExportedIsLoaded<M(!new)>(files: seq<AppFile<M>>, endpoint: string, m: M)
    requires Exported(files, endpoint, m)
    ensures m in LoadMiddleware(files, "GET", endpoint)
  {
    var visited := IterRouteAppFiles(files);
    var f, i :| f in files && f.fileType == Route && StartsWith(endpoint, f.endpoint)
      && 0 <= i < |f.getMiddleware| && f.getMiddleware[i].middleware == m
      && (endpoint == f.endpoint || f.getMiddleware[i].strategy == Cascade);
    assert f in visited;
    var k :| 0 <= k < |visited| && visited[k] == f;
    assert m in Contribution(visited[k], "GET", endpoint);
  }

  /** An isolated middleware of an ancestor endpoint is never loaded for
      a deeper one (unless the same middleware is exported elsewhere). */
  lemma IsolatedStaysHome<M(!new)>(f: AppFile<M>, endpoint: string, i: nat)
    requires i < |f.getMiddleware| && f.getMiddleware[i].strategy == Isolate
    requires endpoint != f.endpoint
    requires forall j :: 0 <= j < |f.getMiddleware| && j != i ==> f.getMiddleware[j].middleware != f.getMiddleware[i].middleware
    ensures f.getMiddleware[i].middleware !in Contribution(f, "GET", endpoint)
  {
  }
}
