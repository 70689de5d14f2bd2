/** The first-generation framework of src/xerus.ts: header-record merging,
    its own Set-Cookie helpers, a trie keyed by the literal path segments,
    and the `next()` chain that runs a route's middleware and handler. */
module LegacyXerus {
  import opened Wrappers
  import opened Text
  import Cookies

  /** A plain `Record<string, string>`. */
  type Record = map<string, string>

  /** `merge(...records)`: spread left to right, so a later record's key
      replaces an earlier one's. */
  function Merge(rs: seq<Record>): (r: Record)
    ensures forall k :: k in r <==> exists i :: 0 <= i < |rs| && k in rs[i]
    decreases |rs|
  {
    if |rs| == 0 then map[]
    else
      var front := Merge(rs[..|rs| - 1]);
      assert forall i :: 0 <= i < |rs| - 1 ==> rs[..|rs| - 1][i] == rs[i];
      front + rs[|rs| - 1]
  }

  /** A key takes its value from the last record that has it. */
  lemma {:induction false} MergeLastWins(rs: seq<Record>, j: nat, k: string)
    requires j < |rs| && k in rs[j]
    requires forall l :: j < l < |rs| ==> k !in rs[l]
    ensures k in Merge(rs) && Merge(rs)[k] == rs[j][k]
    decreases |rs|
  {
    var front := rs[..|rs| - 1];
    if j < |rs| - 1 {
      assert front[j] == rs[j];
      forall l | j < l < |front| ensures k !in front[l] {
        assert front[l] == rs[l];
      }
      MergeLastWins(front, j, k);
    }
  }

  /** A base record spread first keeps a key no later record has. */
  lemma MergeOver(base: Record, rs: seq<Record>, key: string)
    requires key in base && forall i :: 0 <= i < |rs| ==> key !in rs[i]
    ensures key in Merge([base] + rs) && Merge([base] + rs)[key] == base[key]
  {
    var all := [base] + rs;
    assert forall i :: 0 < i < |all| ==> all[i] == rs[i - 1];
    MergeLastWins(all, 0, key);
  }

  /** The response `html` and `json` build. */
  datatype Response = Response(status: int, headers: Record, body: string)

  /** `html(body, status, ...records)` and `json(data, status, ...records)`
      with the body already rendered: the content type first, so a record
      with its own "content-type" overrides it. */
  function Respond(body: string, status: int, contentType: string, rs: seq<Record>): (r: Response)
    ensures r.status == status && r.body == body
    ensures (forall i :: 0 <= i < |rs| ==> "content-type" !in rs[i]) ==>
      "content-type" in r.headers && r.headers["content-type"] == contentType
  {
    ContentTypeKept(contentType, rs);
    Response(status, Merge([map["content-type" := contentType]] + rs), body)
  }

  lemma ContentTypeKept(contentType: string, rs: seq<Record>)
    ensures (forall i :: 0 <= i < |rs| ==> "content-type" !in rs[i]) ==>
      var m := Merge([map["content-type" := contentType]] + rs);
      "content-type" in m && m["content-type"] == contentType
  {
    if forall i :: 0 <= i < |rs| ==> "content-type" !in rs[i] {
      MergeOver(map["content-type" := contentType], rs, "content-type");
    }
  }

  function Html(body: string, status: int, rs: seq<Record>): Response {
    Respond(body, status, "text/html", rs)
  }

  function Json(rendered: string, status: int, rs: seq<Record>): Response {
    Respond(rendered, status, "application/json", rs)
  }

  /** What `makeCookie` writes for each option: texts only when not
      empty, Max-Age whenever it is given (even 0), the expiry date
      whenever there is one, and the flags only when true. */
  function MakeCookieAttr(o: Cookies.Options, k: Cookies.AttrKind): Option<Option<string>> {
    match k
    case PathAttr => if o.path.Some? && o.path.value != "" then Some(o.path) else None
    case DomainAttr => if o.domain.Some? && o.domain.value != "" then Some(o.domain) else None
    case MaxAgeAttr => if o.maxAge.Some? then Some(Some(IntToString(o.maxAge.value))) else None
    case ExpiresAttr => if o.expires.Some? then Some(o.expires) else None
    case SecureAttr => if o.secure == Some(true) then Some(None) else None
    case HttpOnlyAttr => if o.httpOnly == Some(true) then Some(None) else None
    case SameSiteAttr => if o.sameSite.Some? && o.sameSite.value != "" then Some(o.sameSite) else None
  }

  /** Path, Domain, Max-Age, Expires, Secure, HttpOnly, SameSite: Secure
      before HttpOnly, unlike the later serialisers. */
  const MakeCookieKinds := [Cookies.PathAttr, Cookies.DomainAttr, Cookies.MaxAgeAttr, Cookies.ExpiresAttr,
                            Cookies.SecureAttr, Cookies.HttpOnlyAttr, Cookies.SameSiteAttr]

  function MakeCookieRank(k: Cookies.AttrKind): nat {
    match k
    case PathAttr => 0
    case DomainAttr => 1
    case MaxAgeAttr => 2
    case ExpiresAttr => 3
    case SecureAttr => 4
    case HttpOnlyAttr => 5
    case SameSiteAttr => 6
  }

  lemma MakeCookieKindsComplete()
    ensures forall k: Cookies.AttrKind :: k in MakeCookieKinds
  {
    forall k: Cookies.AttrKind ensures k in MakeCookieKinds {
      assert MakeCookieKinds[MakeCookieRank(k)] == k;
    }
  }

  lemma MakeCookieKindsAscending()
    ensures Cookies.Ascending(MakeCookieKinds, MakeCookieRank)
  {
    forall i, j | 0 <= i < j < |MakeCookieKinds| ensures MakeCookieRank(MakeCookieKinds[i]) < MakeCookieRank(MakeCookieKinds[j]) {
      assert MakeCookieRank(MakeCookieKinds[i]) == i && MakeCookieRank(MakeCookieKinds[j]) == j;
    }
  }

  function MakeCookieAttrOf(o: Cookies.Options): Cookies.AttrKind -> Option<Option<string>> {
    k => MakeCookieAttr(o, k)
  }

  /** The attributes of a `makeCookie` line: exactly those the options
      keep, in its order. */
  function MakeCookieAttrs(o: Cookies.Options): (attrs: seq<Cookies.Attr>)
    ensures Cookies.InOrder(attrs, MakeCookieRank)
    ensures forall k :: k in Cookies.KindsOf(attrs) <==> MakeCookieAttr(o, k).Some?
    ensures forall i :: 0 <= i < |attrs| ==> MakeCookieAttr(o, attrs[i].kind) == Some(attrs[i].value)
  {
    MakeCookieKindsAscending();
    Cookies.CollectInOrder(MakeCookieKinds, MakeCookieAttrOf(o), MakeCookieRank);
    MakeCookieKindsComplete();
    Cookies.Collect(MakeCookieKinds, MakeCookieAttrOf(o))
  }

  /** `makeCookie(name, value, options)`: a one-entry record whose line
      starts with the encoded name and the encoded value. */
  function MakeCookie(name: string, value: string, o: Cookies.Options, encode: string -> string): (r: Record)
    ensures r.Keys == {"Set-Cookie"}
    ensures StartsWith(r["Set-Cookie"], encode(name) + "=" + encode(value))
  {
    var line := encode(name) + "=" + encode(value) + Cookies.RenderAttrs(MakeCookieAttrs(o));
    map["Set-Cookie" := line]
  }

  /** The line, spelled out: the encoded head, then each attribute the
      options keep, in the order Path, Domain, Max-Age, Expires, Secure,
      HttpOnly, SameSite. */
  lemma MakeCookieText(name: string, value: string, o: Cookies.Options, encode: string -> string)
    ensures MakeCookie(name, value, o, encode)["Set-Cookie"] == encode(name) + "=" + encode(value)
      + (Cookies.AttrPiece(Cookies.PathAttr, MakeCookieAttr(o, Cookies.PathAttr))
      + (Cookies.AttrPiece(Cookies.DomainAttr, MakeCookieAttr(o, Cookies.DomainAttr))
      + (Cookies.AttrPiece(Cookies.MaxAgeAttr, MakeCookieAttr(o, Cookies.MaxAgeAttr))
      + (Cookies.AttrPiece(Cookies.ExpiresAttr, MakeCookieAttr(o, Cookies.ExpiresAttr))
      + (Cookies.AttrPiece(Cookies.SecureAttr, MakeCookieAttr(o, Cookies.SecureAttr))
      + (Cookies.AttrPiece(Cookies.HttpOnlyAttr, MakeCookieAttr(o, Cookies.HttpOnlyAttr))
      + Cookies.AttrPiece(Cookies.SameSiteAttr, MakeCookieAttr(o, Cookies.SameSiteAttr))))))))
  {
    Cookies.RenderSeven(MakeCookieKinds, MakeCookieAttrOf(o));
  }

  /** Without options the line carries no attribute at all. */
  lemma MakeCookieBare(name: string, value: string, encode: string -> string)
    ensures MakeCookie(name, value, Cookies.NoOptions, encode)["Set-Cookie"] == encode(name) + "=" + encode(value)
  {
    NoOptionsNoAttrs();
    var head := encode(name) + "=" + encode(value);
    assert head + Cookies.RenderAttrs([]) == head;
  }

  lemma NoOptionsNoAttrs()
    ensures MakeCookieAttrs(Cookies.NoOptions) == []
  {
    var attrs := MakeCookieAttrs(Cookies.NoOptions);
    forall k ensures MakeCookieAttr(Cookies.NoOptions, k).None? {
      match k
      case PathAttr =>
      case DomainAttr =>
      case MaxAgeAttr =>
      case ExpiresAttr =>
      case SecureAttr =>
      case HttpOnlyAttr =>
      case SameSiteAttr =>
    }
  }

  /** `deleteCookie(name, path = "/")`. */
  function DeleteCookie(name: string, path: Option<string>, encode: string -> string): (r: Record)
    ensures r.Keys == {"Set-Cookie"}
    ensures path.None? ==> r["Set-Cookie"] == encode(name) + "=; Path=/; Expires=" + Cookies.Epoch
    ensures path.Some? ==> r["Set-Cookie"] == encode(name) + "=; Path=" + path.value + "; Expires=" + Cookies.Epoch
  {
    map["Set-Cookie" := encode(name) + "=; Path=" + path.GetOr("/") + "; Expires=" + Cookies.Epoch]
  }

  /** The options of an expiring cookie at `path`. */
  function ExpireAt(path: string): Cookies.Options {
    Cookies.Options(Some(path), None, None, Some(Cookies.Epoch), None, None, None)
  }

  lemma ExpireFromExpires(path: string)
    ensures Cookies.Collect(MakeCookieKinds[3..], MakeCookieAttrOf(ExpireAt(path)))
      == [Cookies.Attr(Cookies.ExpiresAttr, Some(Cookies.Epoch))]
  {
    var ks := MakeCookieKinds;
    var val := MakeCookieAttrOf(ExpireAt(path));
    assert ks[6..][1..] == [];
    assert Cookies.Collect(ks[6..], val) == [];
    assert ks[5..][1..] == ks[6..];
    assert Cookies.Collect(ks[5..], val) == [];
    assert ks[4..][1..] == ks[5..];
    assert Cookies.Collect(ks[4..], val) == [];
    assert ks[3..][1..] == ks[4..];
  }

  lemma ExpireFromMaxAge(path: string)
    ensures Cookies.Collect(MakeCookieKinds[2..], MakeCookieAttrOf(ExpireAt(path)))
      == [Cookies.Attr(Cookies.ExpiresAttr, Some(Cookies.Epoch))]
  {
    ExpireFromExpires(path);
    var ks := MakeCookieKinds;
    assert ks[2..][1..] == ks[3..];
    assert ks[2..][0] == Cookies.MaxAgeAttr;
  }

  lemma ExpireCollect(path: string)
    requires path != ""
    ensures MakeCookieAttrs(ExpireAt(path))
      == [Cookies.Attr(Cookies.PathAttr, Some(path)), Cookies.Attr(Cookies.ExpiresAttr, Some(Cookies.Epoch))]
  {
    ExpireFromDomain(path);
    var ks := MakeCookieKinds;
    var val := MakeCookieAttrOf(ExpireAt(path));
    assert ks[0] == Cookies.PathAttr;
    assert val(Cookies.PathAttr) == Some(Some(path));
    Cookies.CollectTake(ks, val);
  }

  lemma ExpireFromDomain(path: string)
    ensures Cookies.Collect(MakeCookieKinds[1..], MakeCookieAttrOf(ExpireAt(path)))
      == [Cookies.Attr(Cookies.ExpiresAttr, Some(Cookies.Epoch))]
  {
    ExpireFromMaxAge(path);
    var ks := MakeCookieKinds;
    var val := MakeCookieAttrOf(ExpireAt(path));
    assert ks[1..][1..] == ks[2..];
    assert ks[1..][0] == Cookies.DomainAttr;
    Cookies.CollectSkip(ks[1..], val);
  }

  /** Deleting is making an empty, already expired cookie at the path,
      for a non-empty path and an encoder that keeps "" empty; an empty
      path still writes "Path=" where `makeCookie` would leave it out. */
  lemma DeleteIsExpiredMakeCookie(name: string, path: string, encode: string -> string)
    requires path != "" && encode("") == ""
    ensures DeleteCookie(name, Some(path), encode) == MakeCookie(name, "", ExpireAt(path), encode)
  {
    ExpireRender(path);
    EmptyValueThenPath(encode(name), path, Cookies.Epoch);
    assert encode(name) + "=" + encode("") == encode(name) + "=";
  }

  lemma EmptyValueThenPath(head: string, path: string, date: string)
    ensures head + "=" + ("; Path=" + path + "; Expires=" + date) == head + "=; Path=" + path + "; Expires=" + date
  {
    assert "=" + "; Path=" == "=; Path=";
  }

  lemma ExpireRender(path: string)
    requires path != ""
    ensures Cookies.RenderAttrs(MakeCookieAttrs(ExpireAt(path))) == "; Path=" + path + "; Expires=" + Cookies.Epoch
  {
    ExpireCollect(path);
    ExpirePairRender(path);
  }

  lemma ExpirePairRender(path: string)
    ensures Cookies.RenderAttrs([Cookies.Attr(Cookies.PathAttr, Some(path)), Cookies.Attr(Cookies.ExpiresAttr, Some(Cookies.Epoch))])
      == "; Path=" + path + "; Expires=" + Cookies.Epoch
  {
    Cookies.RenderPair(Cookies.Attr(Cookies.PathAttr, Some(path)), Cookies.Attr(Cookies.ExpiresAttr, Some(Cookies.Epoch)));
    assert Cookies.AttrName(Cookies.PathAttr) == "Path";
    assert Cookies.AttrName(Cookies.ExpiresAttr) == "Expires";
  }

  /** A step from a node: the child under a segment's literal text
      (":name" segments included), or the node's separate wildcard child. */
  datatype Step = Child(name: string) | Wildcard

  type Key = seq<Step>

  /** A method's registration: its middleware and its final handler. */
  datatype Entry<M, H> = Entry(middleware: seq<M>, final: H)

  /** A node's handlers by method, and its children's names in the order
      they were created (the key order `Object.keys` reports). */
  datatype Node<M, H> = Node(handlers: map<string, Entry<M, H>>, order: seq<string>)

  type Trie<M, H> = map<Key, Node<M, H>>

  function Blank<M, H>(): Node<M, H> {
    Node(map[], [])
  }

  function Empty<M, H>(): Trie<M, H> {
    map[[] := Blank()]
  }

  predicate IsParamName(s: string) {
    StartsWith(s, ":")
  }

  /** A root, and every ancestor of a node present. */
  predicate WellFormed<M, H>(t: Trie<M, H>) {
    && [] in t
    && (forall k, i :: k in t && 0 <= i <= |k| ==> k[..i] in t)
  }

  lemma EmptyWellFormed<M, H>()
    ensures WellFormed(Empty<M, H>())
  {
  }

  /** The step a registered segment creates. */
  function StepOf(seg: string): Step {
    if seg == "*" then Wildcard else Child(seg)
  }

  function StepsOf(segs: seq<string>): (ks: Key)
    ensures |ks| == |segs| && forall i :: 0 <= i < |segs| ==> ks[i] == StepOf(segs[i])
  {
    seq(|segs|, i requires 0 <= i < |segs| => StepOf(segs[i]))
  }

  /** A new child `s` of `at`; a `Child` is listed last in the order. */
  function Added<M, H>(t: Trie<M, H>, at: Key, s: Step): Trie<M, H>
    requires at in t
  {
    if s.Wildcard? then t[at + [s] := Blank()]
    else t[at := t[at].(order := t[at].order + [s.name])][at + [s] := Blank()]
  }

  lemma AddedWellFormed<M, H>(t: Trie<M, H>, at: Key, s: Step)
    requires WellFormed(t) && at in t && at + [s] !in t
    ensures WellFormed(Added(t, at, s))
  {
    var next := at + [s];
    var r := Added(t, at, s);
    assert next[..|at|] == at;
    forall k, i | k in r && 0 <= i <= |k| ensures k[..i] in r {
      if k == next {
        if i <= |at| {
          assert next[..i] == at[..i];
        } else {
          assert k[..i] == k;
        }
      } else {
        assert k[..i] in t;
      }
    }
  }

  /** The trie with the child `s` of `at` present. */
  function AddChild<M, H>(t: Trie<M, H>, at: Key, s: Step): (r: Trie<M, H>)
    requires WellFormed(t) && at in t
    ensures WellFormed(r) && at + [s] in r
    ensures forall k :: k in t ==> k in r && r[k].handlers == t[k].handlers
    ensures forall k :: k in r && k !in t ==> k == at + [s]
  {
    if at + [s] in t then t
    else
      AddedWellFormed(t, at, s);
      Added(t, at, s)
  }

  /** The walk `register` does, creating missing children; returns the
      final node's key. */
  function Insert<M, H>(t: Trie<M, H>, at: Key, segs: seq<string>): (r: (Trie<M, H>, Key))
    requires WellFormed(t) && at in t
    ensures WellFormed(r.0) && r.1 == at + StepsOf(segs) && r.1 in r.0
    ensures forall k :: k in t ==> k in r.0 && r.0[k].handlers == t[k].handlers
    ensures forall k :: k in r.0 && k !in t ==> r.0[k].handlers == map[]
    decreases |segs|
  {
    if |segs| == 0 then
      assert at + StepsOf(segs) == at;
      (t, at)
    else
      var s := StepOf(segs[0]);
      var t1 := AddChild(t, at, s);
      assert at + StepsOf(segs) == (at + [s]) + StepsOf(segs[1..]);
      var r := Insert(t1, at + [s], segs[1..]);
      assert forall k :: k in r.0 && k !in t ==> k !in t1 || k == at + [s];
      r
  }

  /** `register(method, path, handler, middlewares)`: the handler of a
      method at a node is simply replaced. */
  function Register<M, H>(t: Trie<M, H>, verb: string, path: string, e: Entry<M, H>): (r: Trie<M, H>)
    requires WellFormed(t)
    ensures WellFormed(r)
    ensures var k := StepsOf(Segments(path, '/'));
      && k in r && r[k].handlers == (if k in t then t[k].handlers else map[])[verb := e]
      && forall j :: 0 <= j <= |k| ==> k[..j] in r
    ensures forall k :: k in t ==> k in r
    ensures forall k :: k in t && k != StepsOf(Segments(path, '/')) ==> r[k].handlers == t[k].handlers
  {
    var segs := Segments(path, '/');
    var (t1, k) := Insert(t, [], segs);
    assert [] + StepsOf(segs) == StepsOf(segs);
    assert segs[..|segs|] == segs;
    t1[k := t1[k].(handlers := t1[k].handlers[verb := e])]
  }

  /** The first child name that starts with ":", in creation order. */
  function FirstParam(order: seq<string>): (p: Option<string>)
    ensures p.Some? ==> p.value in order && IsParamName(p.value)
    ensures p.Some? ==>
      exists i :: 0 <= i < |order| && order[i] == p.value && forall j :: 0 <= j < i ==> !IsParamName(order[j])
    ensures p.None? <==> forall i :: 0 <= i < |order| ==> !IsParamName(order[i])
  {
    if |order| == 0 then None
    else if IsParamName(order[0]) then Some(order[0])
    else
      var rest := FirstParam(order[1..]);
      assert forall i :: 1 <= i < |order| ==> order[1..][i - 1] == order[i];
      if rest.Some? then
        var i :| 0 <= i < |order[1..]| && order[1..][i] == rest.value && forall j :: 0 <= j < i ==> !IsParamName(order[1..][j]);
        assert order[i + 1] == rest.value;
        assert forall j :: 1 <= j < i + 1 ==> order[j] == order[1..][j - 1];
        rest
      else rest
  }

  /** The step the lookup takes from node `at` on a segment: the literal
      child, else the wildcard, else the first ":" child. */
  predicate Chosen<M, H>(t: Trie<M, H>, at: Key, s: Step, seg: string)
    requires at in t
  {
    if at + [Child(seg)] in t then s == Child(seg)
    else if at + [Wildcard] in t then s == Wildcard
    else s.Child? && FirstParam(t[at].order) == Some(s.name)
  }

  /** A step that a request segment can take: its own text, or any ":"
      child. */
  predicate Fits(s: Step, seg: string) {
    s == Child(seg) || (s.Child? && IsParamName(s.name))
  }

  /** Where a lookup ends: the node, the bound params, and the wildcard
      capture when it stopped at one. */
  datatype Stop = Stop(key: Key, params: map<string, string>, rest: Option<string>)

  /** The loop of `handleRequest`, from node `at` (which has consumed
      as many segments as it is long); none when a segment has nowhere to
      go. */
  function Walk<M, H>(t: Trie<M, H>, at: Key, segs: seq<string>, params: map<string, string>): (r: Option<Stop>)
    requires at in t && |at| <= |segs|
    ensures r.Some? ==> r.value.key in t && |at| <= |r.value.key| <= |segs|
    decreases |segs| - |at|
  {
    if |at| == |segs| then Some(Stop(at, params, None))
    else
      var seg := segs[|at|];
      if at + [Child(seg)] in t then Walk(t, at + [Child(seg)], segs, params)
      else if at + [Wildcard] in t then Some(Stop(at + [Wildcard], params, Some(Join(segs[|at|..], "/"))))
      else match FirstParam(t[at].order)
        case None => None
        case Some(p) =>
          // Registration lists a name only with its child, so the last
          // alternative is never taken.
          if at + [Child(p)] in t then Walk(t, at + [Child(p)], segs, params[p[1..] := seg]) else None
  }

  /** Where a lookup that succeeds has gone: each step taken by the
      precedence rule (literal, else wildcard, else the first ":" child),
      a wildcard only as the last step and only then with a capture of
      the remaining segments, and every segment consumed otherwise. */
  predicate Reached<M, H>(t: Trie<M, H>, at: Key, segs: seq<string>, params: map<string, string>, stop: Stop)
    requires at in t
  {
    var k := stop.key;
    && k in t && |at| <= |k| <= |segs| && k[..|at|] == at
    && (forall j :: |at| <= j < |k| ==> k[..j] in t && Chosen(t, k[..j], k[j], segs[j]))
    && (forall j :: |at| <= j < |k| - 1 ==> k[j] != Wildcard && Fits(k[j], segs[j]))
    && (stop.rest.None? ==> |k| == |segs| && (|k| == |at| || Fits(k[|k| - 1], segs[|k| - 1])))
    && (stop.rest.Some? ==> |k| > |at| && k[|k| - 1] == Wildcard && stop.rest.value == Join(segs[|k| - 1..], "/"))
    && (forall n :: n in params ==> n in stop.params)
  }

  lemma StepInto(at: Key, x: Step, k: Key)
    requires |at| + 1 <= |k| && k[..|at| + 1] == at + [x]
    ensures k[..|at|] == at && k[|at|] == x
  {
    assert k[..|at|] == k[..|at| + 1][..|at|];
  }

  /** A non-wildcard step taken by the rule extends what was reached
      from the child back to its parent. */
  lemma ReachedStep<M, H>(t: Trie<M, H>, at: Key, x: Step, segs: seq<string>, params: map<string, string>,
                          params1: map<string, string>, stop: Stop)
    requires at in t && at + [x] in t && |at| < |segs|
    requires x != Wildcard && Fits(x, segs[|at|]) && Chosen(t, at, x, segs[|at|])
    requires forall n :: n in params ==> n in params1
    requires Reached(t, at + [x], segs, params1, stop)
    ensures Reached(t, at, segs, params, stop)
  {
    var k := stop.key;
    var k1 := at + [x];
    StepInto(at, x, k);
    forall j | |at| <= j < |k| ensures k[..j] in t && Chosen(t, k[..j], k[j], segs[j]) {
      if j == |at| {
        assert k[..j] == at;
      }
    }
    forall j | |at| <= j < |k| - 1 ensures k[j] != Wildcard && Fits(k[j], segs[j]) {
    }
  }

  /** A wildcard taken because no literal child exists ends the lookup. */
  lemma ReachedWildcard<M, H>(t: Trie<M, H>, at: Key, segs: seq<string>, params: map<string, string>)
    requires at in t && at + [Wildcard] in t && |at| < |segs| && at + [Child(segs[|at|])] !in t
    ensures Reached(t, at, segs, params, Stop(at + [Wildcard], params, Some(Join(segs[|at|..], "/"))))
  {
    var k := at + [Wildcard];
    assert k[..|at|] == at;
    assert Chosen(t, k[..|at|], k[|at|], segs[|at|]);
  }

  /** Every lookup that succeeds obeys the precedence rule. */
  lemma {:induction false} WalkReached<M, H>(t: Trie<M, H>, at: Key, segs: seq<string>, params: map<string, string>)
    requires at in t && |at| <= |segs|
    ensures Walk(t, at, segs, params).Some? ==> Reached(t, at, segs, params, Walk(t, at, segs, params).value)
    decreases |segs| - |at|
  {
    var r := Walk(t, at, segs, params);
    if |at| < |segs| && r.Some? {
      var seg := segs[|at|];
      if at + [Child(seg)] in t {
        assert r == Walk(t, at + [Child(seg)], segs, params);
        WalkReached(t, at + [Child(seg)], segs, params);
        ReachedStep(t, at, Child(seg), segs, params, params, r.value);
      } else if at + [Wildcard] in t {
        assert r == Some(Stop(at + [Wildcard], params, Some(Join(segs[|at|..], "/"))));
        ReachedWildcard(t, at, segs, params);
      } else {
        var p := FirstParam(t[at].order).value;
        assert r == Walk(t, at + [Child(p)], segs, params[p[1..] := seg]);
        WalkReached(t, at + [Child(p)], segs, params[p[1..] := seg]);
        ReachedStep(t, at, Child(p), segs, params, params[p[1..] := seg], r.value);
      }
    }
  }

  /** `handleRequest`'s lookup: the matched method's registration and the
      params, with a wildcard's capture under "*"; none when no route or
      method matches. */
  function Handle<M, H>(t: Trie<M, H>, verb: string, pathname: string): (r: Option<(Entry<M, H>, map<string, string>)>)
    requires [] in t
  {
    var segs := Segments(pathname, '/');
    match Walk(t, [], segs, map[])
    case None => None
    case Some(stop) =>
      if verb !in t[stop.key].handlers then None
      else
        var ps := if stop.rest.Some? && stop.rest.value != "" then stop.params["*" := stop.rest.value] else stop.params;
        Some((t[stop.key].handlers[verb], ps))
  }

  /** Segments all present as literal children are followed literally,
      binding nothing. */
  lemma {:induction false} ExactWalk<M, H>(t: Trie<M, H>, at: Key, segs: seq<string>, params: map<string, string>, k: Key)
    requires at in t && |at| <= |segs|
    requires |k| == |segs| && k[..|at|] == at
    requires forall j :: |at| <= j < |k| ==> k[j] == Child(segs[j])
    requires forall j :: |at| <= j <= |k| ==> k[..j] in t
    ensures Walk(t, at, segs, params) == Some(Stop(k, params, None))
    decreases |segs| - |at|
  {
    if |at| < |segs| {
      var k1 := at + [Child(segs[|at|])];
      assert k[..|at| + 1] == k[..|at|] + [k[|at|]];
      assert k1 in t;
      ExactWalk(t, k1, segs, params, k);
      assert Walk(t, at, segs, params) == Walk(t, k1, segs, params);
    } else {
      assert k == k[..|at|];
    }
  }

  /** A request whose segments all have literal children reaches the
      node they spell, binding nothing. */
  lemma FoundLiterally<M, H>(t: Trie<M, H>, verb: string, pathname: string, k: Key)
    requires [] in t && k in t
    requires |k| == |Segments(pathname, '/')|
    requires forall j :: 0 <= j < |k| ==> k[j] == Child(Segments(pathname, '/')[j])
    requires forall j :: 0 <= j <= |k| ==> k[..j] in t
    requires verb in t[k].handlers
    ensures Handle(t, verb, pathname) == Some((t[k].handlers[verb], map[]))
  {
    assert k[..0] == [];
    ExactWalk(t, [], Segments(pathname, '/'), map[], k);
  }

  /** A route registered without "*" is found again by its own path, with
      no params; a second registration of the method replaces the first. */
  lemma RegisteredIsFound<M, H>(t: Trie<M, H>, verb: string, path: string, e: Entry<M, H>)
    requires WellFormed(t)
    requires "*" !in Segments(path, '/')
    ensures Handle(Register(t, verb, path, e), verb, path) == Some((e, map[]))
  {
    var segs := Segments(path, '/');
    var k := StepsOf(segs);
    forall j | 0 <= j < |k| ensures k[j] == Child(segs[j]) {
      assert segs[j] != "*";
    }
    FoundLiterally(Register(t, verb, path, e), verb, path, k);
  }

  /** A wildcard child shadows every ":" child of the same node: a segment
      with no literal child stops there and is captured whole. */
  lemma WildcardShadowsParam<M, H>(t: Trie<M, H>, seg: string)
    requires WellFormed(t) && [Wildcard] in t && [Child(seg)] !in t && seg != ""
    ensures Walk(t, [], [seg], map[]) == Some(Stop([Wildcard], map[], Some(seg)))
  {
    assert [] + [Child(seg)] == [Child(seg)];
    assert [] + [Wildcard] == [Wildcard];
    assert [seg][0..] == [seg];
  }

  /** Whatever follows a "*" in a registered path is never reached: a
      lookup stops at the first wildcard it takes. */
  lemma WildcardEndsLookup<M, H>(t: Trie<M, H>, segs: seq<string>, j: nat)
    requires WellFormed(t)
    requires Walk(t, [], segs, map[]).Some?
    requires j < |Walk(t, [], segs, map[]).value.key| - 1
    ensures Walk(t, [], segs, map[]).value.key[j] != Wildcard
  {
    WalkReached(t, [], segs, map[]);
  }

  /** A response as `runMiddlewares` sees it. */
  datatype Reply = Reply(status: int, body: string)

  /** What `next()` answers past the last handler. */
  const Unexpected := Reply(500, "Unexpected server error")

  /** What `next()` answers when the handler it calls throws before
      returning its promise. */
  const InternalError := Reply(500, "Internal Server Error")

  /** What a middleware does with the context it gets: answer without
      calling `next`, call it once (with the context as it left it) and
      turn its response into its own, or throw synchronously. An `async`
      handler that throws rejects its promise instead, which `next` does
      not catch; that is not an `Act`. */
  datatype Act<C> = Answer(reply: Reply) | PassOn(ctx: C, after: Reply -> Reply) | Throws

  /** `next()` for the handler at index `i`. */
  function RunFrom<C>(hs: seq<C -> Act<C>>, i: nat, c: C): Reply
    decreases |hs| - i
  {
    if i >= |hs| then Unexpected
    else match hs[i](c)
      case Answer(r) => r
      case PassOn(c1, after) => after(RunFrom(hs, i + 1, c1))
      case Throws => InternalError
  }

  /** The route's final handler, which never calls `next`. */
  function Final<C>(h: C -> Reply): C -> Act<C> {
    c => Answer(h(c))
  }

  /** A middleware that hands the context on unchanged and returns the
      response it gets back. */
  ghost predicate Transparent<C>(m: C -> Act<C>, c: C) {
    m(c).PassOn? && m(c).ctx == c && forall r :: m(c).after(r) == r
  }

  /** A chain of pass-through middleware ends in the handler's reply. */
  lemma {:induction false} ReachesFinal<C>(ms: seq<C -> Act<C>>, h: C -> Reply, c: C, i: nat)
    requires i <= |ms|
    requires forall j :: i <= j < |ms| ==> Transparent(ms[j], c)
    ensures RunFrom(ms + [Final(h)], i, c) == h(c)
    decreases |ms| - i
  {
    var hs := ms + [Final(h)];
    if i < |ms| {
      assert hs[i] == ms[i];
      ReachesFinal(ms, h, c, i + 1);
    } else {
      assert hs[i] == Final(h);
    }
  }

  /** Calling `next` past the last handler answers 500 "Unexpected server
      error". */
  lemma {:induction false} PastTheEnd<C>(ms: seq<C -> Act<C>>, c: C, i: nat)
    requires i <= |ms|
    requires forall j :: i <= j < |ms| ==> Transparent(ms[j], c)
    ensures RunFrom(ms, i, c) == Unexpected
    decreases |ms| - i
  {
    if i < |ms| {
      PastTheEnd(ms, c, i + 1);
    }
  }

  /** A middleware that answers ends the chain: nothing after it runs. */
  lemma {:induction false} AnswerStops<C>(ms: seq<C -> Act<C>>, rest: seq<C -> Act<C>>, c: C, i: nat)
    requires i < |ms| && ms[|ms| - 1](c).Answer?
    requires forall j :: i <= j < |ms| - 1 ==> Transparent(ms[j], c)
    ensures RunFrom(ms + rest, i, c) == ms[|ms| - 1](c).reply
    decreases |ms| - i
  {
    var hs := ms + rest;
    assert hs[i] == ms[i];
    if i < |ms| - 1 {
      AnswerStops(ms, rest, c, i + 1);
    }
  }

  /** A handler that throws synchronously behind pass-through middleware
      is answered 500 "Internal Server Error" by the `next` that called
      it; the middleware in front see that reply. */
  lemma {:induction false} ThrowIsInternalError<C>(ms: seq<C -> Act<C>>, rest: seq<C -> Act<C>>, c: C, i: nat)
    requires i < |ms| && ms[|ms| - 1](c).Throws?
    requires forall j :: i <= j < |ms| - 1 ==> Transparent(ms[j], c)
    ensures RunFrom(ms + rest, i, c) == InternalError
    decreases |ms| - i
  {
    var hs := ms + rest;
    assert hs[i] == ms[i];
    if i < |ms| - 1 {
      ThrowIsInternalError(ms, rest, c, i + 1);
    }
  }

  /** `handleRequest`: no response (null) when nothing matches, else the
      route's middleware and then its final handler, on the context the
      params give. */
  function Dispatch<C>(t: Trie<C -> Act<C>, C -> Reply>, verb: string, pathname: string,
                       ctxOf: map<string, string> -> C): (r: Option<Reply>)
    requires WellFormed(t)
    ensures r.Some? <==> Handle(t, verb, pathname).Some?
  {
    match Handle(t, verb, pathname)
    case None => None
    case Some((e, ps)) => Some(RunFrom(e.middleware + [Final(e.final)], 0, ctxOf(ps)))
  }

  /** A route registered with no middleware answers its own path with its
      handler's reply. */
  lemma RegisteredAnswers<C>(t: Trie<C -> Act<C>, C -> Reply>, verb: string, path: string, h: C -> Reply,
                             ctxOf: map<string, string> -> C)
    requires WellFormed(t)
    requires "*" !in Segments(path, '/')
    ensures Dispatch(Register(t, verb, path, Entry([], h)), verb, path, ctxOf) == Some(h(ctxOf(map[])))
  {
    RegisteredIsFound(t, verb, path, Entry([], h));
    ReachesFinal([], h, ctxOf(map[]), 0);
  }
}
