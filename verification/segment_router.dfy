/** The file-router generation's route table (src/Router.ts): per method,
    a static collection keyed by endpoint and a dynamic collection of
    endpoints with ":" segments, searched in insertion order by segment
    count and segment-wise equality. */
module SegmentRouter {
  import opened Wrappers
  import opened Text
  import opened SystemErrors

  /** The methods the router has collections for; "OPTION" is the name the
      router itself uses. */
  datatype Verb = Get | Post | Patch | Delete | Update | Put | OptionVerb

  function VerbName(v: Verb): string {
    match v
    case Get => "GET"
    case Post => "POST"
    case Patch => "PATCH"
    case Delete => "DELETE"
    case Update => "UPDATE"
    case Put => "PUT"
    case OptionVerb => "OPTION"
  }

  /** The `switch` of `getRoute`: a method name names a collection or
      none. */
  function VerbOf(name: string): (v: Option<Verb>)
    ensures v.Some? ==> VerbName(v.value) == name
  {
    if name == "GET" then Some(Get)
    else if name == "POST" then Some(Post)
    else if name == "PATCH" then Some(Patch)
    else if name == "DELETE" then Some(Delete)
    else if name == "UPDATE" then Some(Update)
    else if name == "PUT" then Some(Put)
    else if name == "OPTION" then Some(OptionVerb)
    else None
  }

  /** Every collection is reachable by its own method name. */
  lemma VerbOfName(v: Verb)
    ensures VerbOf(VerbName(v)) == Some(v)
  {
  }

  /** One method's two collections. The dynamic one keeps insertion order,
      which is the order `for ... in` visits its keys. */
  datatype Table<R> = Table(statics: map<string, R>, dynamics: seq<(string, R)>)

  function DynamicKeys<R>(dyn: seq<(string, R)>): (ks: seq<string>)
    ensures |ks| == |dyn| && forall i :: 0 <= i < |dyn| ==> ks[i] == dyn[i].0
  {
    seq(|dyn|, i requires 0 <= i < |dyn| => dyn[i].0)
  }

  /** The router: the endpoints added so far, in order, and one table per
      method (a method without a table has empty collections). */
  datatype Router<R> = Router(routes: seq<string>, tables: map<Verb, Table<R>>)

  function TableOf<R>(r: Router<R>, v: Verb): Table<R> {
    if v in r.tables then r.tables[v] else Table(map[], [])
  }

  function NewRouter<R>(): Router<R> {
    Router([], map[])
  }

  predicate IsDynamic(endpoint: string) {
    Includes(endpoint, ":")
  }

  /** `addRoute`: a ":" endpoint goes to the dynamic collection when that
      does not have it yet; otherwise the endpoint goes to the static
      collection when that does not have it; otherwise it throws. Note that
      a dynamic endpoint added a second time falls through to the static
      collection. */
  function AddRouteAsWritten<R>(r: Router<R>, v: Verb, endpoint: string, route: R): (out: Result<Router<R>, Failure>)
    ensures var t := TableOf(r, v);
      out.Err? <==> endpoint in t.statics && (IsDynamic(endpoint) ==> endpoint in DynamicKeys(t.dynamics))
    ensures out.Ok? ==> out.value.routes == r.routes + [endpoint]
    ensures out.Ok? ==> forall w :: w != v ==> TableOf(out.value, w) == TableOf(r, w)
    ensures out.Err? ==> out.error == PlainError("Route already exists for " + VerbName(v) + " " + endpoint)
  {
    var t := TableOf(r, v);
    if IsDynamic(endpoint) && endpoint !in DynamicKeys(t.dynamics) then
      Ok(Router(r.routes + [endpoint], r.tables[v := t.(dynamics := t.dynamics + [(endpoint, route)])]))
    else if endpoint !in t.statics then
      Ok(Router(r.routes + [endpoint], r.tables[v := t.(statics := t.statics[endpoint := route])]))
    else
      Err(PlainError("Route already exists for " + VerbName(v) + " " + endpoint))
  }

  /** Adding the same ":" endpoint twice does not throw: the second copy
      lands in the static collection, where it can only be reached by the
      literal text of the pattern. */
  lemma DuplicateDynamicAccepted<R>(a: R, b: R)
    ensures var r1 := AddRouteAsWritten(NewRouter<R>(), Get, "/user/:id", a);
      r1.Ok? && AddRouteAsWritten(r1.value, Get, "/user/:id", b).Ok?
      && TableOf(AddRouteAsWritten(r1.value, Get, "/user/:id", b).value, Get).statics == map["/user/:id" := b]
  {
    assert OccursAt("/user/:id", ":", 6);
    var r1 := AddRouteAsWritten(NewRouter<R>(), Get, "/user/:id", a);
    assert DynamicKeys(TableOf(r1.value, Get).dynamics) == ["/user/:id"];
  }

  /** `addRoute` as its error message means it: an endpoint goes to the
      collection its shape selects, and adding it when that collection
      already has it throws. */
  function AddRoute<R>(r: Router<R>, v: Verb, endpoint: string, route: R): (out: Result<Router<R>, Failure>)
    ensures var t := TableOf(r, v);
      out.Err? <==> (if IsDynamic(endpoint) then endpoint in DynamicKeys(t.dynamics) else endpoint in t.statics)
    ensures out.Ok? ==> out.value.routes == r.routes + [endpoint]
    ensures out.Ok? ==> forall w :: w != v ==> TableOf(out.value, w) == TableOf(r, w)
    ensures out.Ok? && IsDynamic(endpoint) ==> TableOf(out.value, v) == TableOf(r, v).(dynamics := TableOf(r, v).dynamics + [(endpoint, route)])
    ensures out.Ok? && !IsDynamic(endpoint) ==> TableOf(out.value, v) == TableOf(r, v).(statics := TableOf(r, v).statics[endpoint := route])
    ensures out.Err? ==> out.error == PlainError("Route already exists for " + VerbName(v) + " " + endpoint)
  {
    var t := TableOf(r, v);
    if IsDynamic(endpoint) then
      if endpoint in DynamicKeys(t.dynamics) then Err(PlainError("Route already exists for " + VerbName(v) + " " + endpoint))
      else Ok(Router(r.routes + [endpoint], r.tables[v := t.(dynamics := t.dynamics + [(endpoint, route)])]))
    else if endpoint in t.statics then
      Err(PlainError("Route already exists for " + VerbName(v) + " " + endpoint))
    else
      Ok(Router(r.routes + [endpoint], r.tables[v := t.(statics := t.statics[endpoint := route])]))
  }

  /** The corrected `addRoute` refuses the second copy of a ":" endpoint. */
  lemma DuplicateDynamicRefused<R>(a: R, b: R)
    ensures var r1 := AddRoute(NewRouter<R>(), Get, "/user/:id", a);
      r1.Ok? && AddRoute(r1.value, Get, "/user/:id", b).Err?
  {
    assert OccursAt("/user/:id", ":", 6);
    var r1 := AddRoute(NewRouter<R>(), Get, "/user/:id", a);
    assert DynamicKeys(TableOf(r1.value, Get).dynamics) == ["/user/:id"];
  }

  /** A dynamic key matches a search path when both have the same number
      of "/"-segments and every key segment equals the path's or contains
      ":". */
  predicate SegmentsMatch(keyParts: seq<string>, pathParts: seq<string>) {
    |keyParts| == |pathParts|
    && forall i :: 0 <= i < |keyParts| ==> keyParts[i] == pathParts[i] || Includes(keyParts[i], ":")
  }

  predicate KeyMatches(key: string, path: string) {
    SegmentsMatch(Split(key, '/'), Split(path, '/'))
  }

  /** The index of the first dynamic key that matches, or -1. */
  function FirstMatch<R>(dyn: seq<(string, R)>, path: string): (i: int)
    ensures -1 <= i < |dyn|
    ensures i >= 0 ==> KeyMatches(dyn[i].0, path)
    ensures forall j :: 0 <= j < |dyn| && (i < 0 || j < i) ==> !KeyMatches(dyn[j].0, path)
  {
    if |dyn| == 0 then -1
    else if KeyMatches(dyn[0].0, path) then 0
    else
      var j := FirstMatch(dyn[1..], path);
      if j < 0 then -1 else j + 1
  }

  /** `findRoute`: the static entry for the exact path, else the first
      matching dynamic entry, else nothing. */
  function FindRoute<R>(t: Table<R>, path: string): (found: Option<R>)
    ensures path in t.statics ==> found == Some(t.statics[path])
    ensures path !in t.statics ==>
      (found.Some? <==> exists j :: 0 <= j < |t.dynamics| && KeyMatches(t.dynamics[j].0, path))
    ensures path !in t.statics && found.Some? ==>
      exists j :: 0 <= j < |t.dynamics| && found.value == t.dynamics[j].1 && KeyMatches(t.dynamics[j].0, path)
        && forall l :: 0 <= l < j ==> !KeyMatches(t.dynamics[l].0, path)
  {
    if path in t.statics then Some(t.statics[path])
    else
      var i := FirstMatch(t.dynamics, path);
      if i < 0 then None else Some(t.dynamics[i].1)
  }

  /** `getRoute(path, method)`: an unknown method finds nothing. */
  function GetRoute<R>(r: Router<R>, path: string, verb: string): (found: Option<R>)
    ensures VerbOf(verb).None? ==> found.None?
  {
    match VerbOf(verb)
    case None => None
    case Some(v) => FindRoute(TableOf(r, v), path)
  }

  /** A static endpoint just added is what its method finds for that
      exact path. */
  lemma AddedStaticFound<R>(r: Router<R>, v: Verb, endpoint: string, route: R)
    requires AddRoute(r, v, endpoint, route).Ok? && !IsDynamic(endpoint)
    ensures GetRoute(AddRoute(r, v, endpoint, route).value, endpoint, VerbName(v)) == Some(route)
  {
    VerbOfName(v);
  }

  /** A dynamic endpoint just added is found for any path it matches that
      no static entry and no earlier dynamic key claims. */
  lemma AddedDynamicFound<R>(r: Router<R>, v: Verb, endpoint: string, route: R, path: string)
    requires AddRoute(r, v, endpoint, route).Ok? && IsDynamic(endpoint)
    requires KeyMatches(endpoint, path) && path !in TableOf(r, v).statics
    requires forall j :: 0 <= j < |TableOf(r, v).dynamics| ==> !KeyMatches(TableOf(r, v).dynamics[j].0, path)
    ensures GetRoute(AddRoute(r, v, endpoint, route).value, path, VerbName(v)) == Some(route)
  {
    VerbOfName(v);
    var t := TableOf(r, v);
    var d := t.dynamics + [(endpoint, route)];
    var found := FindRoute(TableOf(AddRoute(r, v, endpoint, route).value, v), path);
    assert d[|t.dynamics|] == (endpoint, route);
    assert TableOf(AddRoute(r, v, endpoint, route).value, v).dynamics == d;
    var i := FirstMatch(d, path);
    assert i == |t.dynamics|;
  }

  /** Each method searches only its own collections. */
  lemma MethodsSeparate<R>(r: Router<R>, v: Verb, endpoint: string, route: R, path: string, w: Verb)
    requires AddRoute(r, v, endpoint, route).Ok? && w != v
    ensures GetRoute(AddRoute(r, v, endpoint, route).value, path, VerbName(w)) == GetRoute(r, path, VerbName(w))
  {
    VerbOfName(w);
  }

  /** A static entry wins over every dynamic key. */
  lemma StaticFirst<R>(t: Table<R>, path: string, route: R)
    requires path in t.statics
    ensures FindRoute(t.(dynamics := t.dynamics + [(path, route)]), path) == Some(t.statics[path])
  {
  }
}
