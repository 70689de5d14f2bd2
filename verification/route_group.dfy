/** Route groups (src/RouteGroup.ts): a prefix and middleware applied to
    every route mounted through the group, when the route's `onMount`
    runs. */
module RouteGroup {
  import opened Wrappers
  import opened Text
  import opened SystemErrors

  /** A route as the group sees it: its path, and its middleware list when
      the route class has a `use` method (`None` when it has none, as the
      framework's base route class does not). */
  datatype Route<M> = Route(path: string, middleware: Option<seq<M>>)

  datatype Group<M> = Group(prefix: string, middleware: seq<M>)

  /** The constructor: "/" is kept, any other prefix loses its trailing
      slashes. */
  function NormalizePrefix(p: string): (r: string)
    ensures p == "/" ==> r == "/"
    ensures p != "/" ==> r == StripTrailingSlashes(p)
  {
    if p == "/" then "/" else StripTrailingSlashes(p)
  }

  function NewGroup<M>(prefix: string, middleware: seq<M>): Group<M> {
    Group(NormalizePrefix(prefix), middleware)
  }

  /** A normalised prefix is "/" or does not end in a slash. */
  lemma NormalizedPrefixShape(p: string)
    ensures var r := NormalizePrefix(p); r == "/" || r == "" || r[|r| - 1] != '/'
    ensures NormalizePrefix(NormalizePrefix(p)) == NormalizePrefix(p)
  {
    var r := NormalizePrefix(p);
    if r != "/" {
      assert StripTrailingSlashes(r) == r;
    }
  }

  predicate NoDoubleSlash(s: string) {
    forall i :: 0 <= i < |s| - 1 ==> !(s[i] == '/' && s[i + 1] == '/')
  }

  /** The path a route gets under the prefix. */
  function Prefixed(prefix: string, path: string): (r: string)
    ensures prefix == "/" ==> r == path
    ensures prefix != "/" ==> NoDoubleSlash(r)
    ensures prefix != "/" && path == "/" ==> r == CollapseSlashes(prefix)
  {
    if prefix == "/" then path
    else if path == "/" then (assert prefix + "" == prefix; CollapseSlashes(prefix + ""))
    else CollapseSlashes(prefix + path)
  }

  /** A clean prefix and a clean path that starts with a slash are simply
      joined. */
  lemma PrefixedJoins(prefix: string, path: string)
    requires prefix != "/" && prefix != "" && prefix[|prefix| - 1] != '/' && NoDoubleSlash(prefix)
    requires path != "/" && |path| > 0 && path[0] == '/' && NoDoubleSlash(path)
    ensures Prefixed(prefix, path) == prefix + path
  {
    var s := prefix + path;
    forall i | 0 <= i < |s| - 1
      ensures !(s[i] == '/' && s[i + 1] == '/')
    {
      if i < |prefix| - 1 {
        assert s[i] == prefix[i] && s[i + 1] == prefix[i + 1];
      } else if i == |prefix| - 1 {
        assert s[i] == prefix[|prefix| - 1];
      } else {
        assert s[i] == path[i - |prefix|] && s[i + 1] == path[i + 1 - |prefix|];
      }
    }
    CollapseSlashesKeepsClean(s);
  }

  /** The grouped route's `onMount`: the route's own `onMount` (given as
      `baseOnMount`) first, then the prefix, then the group's middleware
      through `use` when there is any. Calling `use` on a route without
      one throws a TypeError. */
  function Mount<M>(g: Group<M>, r: Route<M>, baseOnMount: Route<M> -> Route<M>): (out: Result<Route<M>, Failure>)
    ensures var b := baseOnMount(r);
      && (out.Err? <==> |g.middleware| > 0 && b.middleware.None?)
      && (out.Ok? ==> out.value.path == Prefixed(g.prefix, b.path))
      && (out.Ok? && |g.middleware| == 0 ==> out.value.middleware == b.middleware)
      && (out.Ok? && |g.middleware| > 0 ==> out.value.middleware == Some(b.middleware.value + g.middleware))
  {
    var b := baseOnMount(r);
    var moved := b.(path := Prefixed(g.prefix, b.path));
    if |g.middleware| == 0 then Ok(moved)
    else match moved.middleware
      case None => Err(PlainError("this.use is not a function"))
      case Some(ms) => Ok(moved.(middleware := Some(ms + g.middleware)))
  }

  /** `mount(...routes)`: every route, in order; the first failure stops
      the rest. */
  function MountAll<M>(g: Group<M>, rs: seq<Route<M>>, baseOnMount: Route<M> -> Route<M>): (out: Result<seq<Route<M>>, Failure>)
    ensures out.Ok? ==> |out.value| == |rs|
    ensures out.Ok? ==> forall i :: 0 <= i < |rs| ==> Mount(g, rs[i], baseOnMount) == Ok(out.value[i])
    ensures out.Err? ==> exists i :: 0 <= i < |rs| && Mount(g, rs[i], baseOnMount).Err?
    decreases |rs|
  {
    if rs == [] then Ok([])
    else match Mount(g, rs[0], baseOnMount)
      case Err(e) => Err(e)
      case Ok(first) =>
        match MountAll(g, rs[1..], baseOnMount)
        case Err(e) => Err(e)
        case Ok(rest) => Ok([first] + rest)
  }

  /** A group without middleware only moves routes under the prefix. */
  lemma PlainGroupOnlyPrefixes<M>(prefix: string, r: Route<M>, baseOnMount: Route<M> -> Route<M>)
    ensures var g := NewGroup<M>(prefix, []);
      Mount(g, r, baseOnMount) == Ok(baseOnMount(r).(path := Prefixed(NormalizePrefix(prefix), baseOnMount(r).path)))
  {
  }
}
