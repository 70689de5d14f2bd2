/** The route trie shared by the framework's routers (the `TrieNode`
    shape of src/Xerus.ts, src/server/Xerus.ts and primitives.ts).

    A node is identified by the sequence of edges that leads to it from
    the root, so the whole trie is one finite map from edge paths to node
    contents. A literal segment is an edge `Lit`, every `:name` segment at
    one depth goes through the single shared `Param` edge (stored under the
    child key ":param"), and `*` goes through the `Wild` edge. */
module Trie {
  import opened Wrappers
  import opened Text

  datatype Edge = Lit(name: string) | Param | Wild

  type Key = seq<Edge>

  /** What the routers resolve to: the identity of a registered handler
      object. */
  datatype HandlerRef = HandlerRef(id: nat)

  datatype Node = Node(handlers: map<string, HandlerRef>, paramKey: string)

  type Nodes = map<Key, Node>

  const EmptyNode := Node(map[], "")

  const Root: Nodes := map[[] := EmptyNode]

  /** The edge a registered path segment creates. */
  function EdgeOf(part: string): Edge {
    if StartsWith(part, ":") then Param
    else if part == "*" then Wild
    else Lit(part)
  }

  function Edges(parts: seq<string>): (es: Key)
    ensures |es| == |parts|
    ensures forall i :: 0 <= i < |parts| ==> es[i] == EdgeOf(parts[i])
  {
    seq(|parts|, i requires 0 <= i < |parts| => EdgeOf(parts[i]))
  }

  /** Two registered segments that lead to the same child: equal text,
      or two `:name` segments, whatever their names. */
  predicate SameEdge(a: string, b: string) {
    a == b || (StartsWith(a, ":") && StartsWith(b, ":"))
  }

  /** Two registered paths reach the same node exactly when they agree
      segment by segment up to parameter names; every edge made is
      valid. */
  lemma EdgesIff(a: seq<string>, b: seq<string>)
    ensures Edges(a) == Edges(b) <==> |a| == |b| && forall i :: 0 <= i < |a| ==> SameEdge(a[i], b[i])
    ensures forall i :: 0 <= i < |a| ==> ValidEdge(Edges(a)[i])
  {
    if Edges(a) == Edges(b) {
      forall i | 0 <= i < |a| ensures SameEdge(a[i], b[i]) {
        assert EdgeOf(a[i]) == EdgeOf(b[i]);
      }
    }
    if |a| == |b| && forall i :: 0 <= i < |a| ==> SameEdge(a[i], b[i]) {
      forall i | 0 <= i < |a| ensures Edges(a)[i] == Edges(b)[i] {
        assert SameEdge(a[i], b[i]);
      }
    }
  }

  /** The child a request segment reaches by `node.children[part]`: the
      literal child, except that the segment ":param" itself names the
      shared parameter child. */
  function ExactEdge(part: string): Edge {
    if part == ":param" then Param else Lit(part)
  }

  /** Literal edges never start with ":", since such segments go to the
      parameter child. */
  predicate ValidEdge(e: Edge) {
    e.Lit? ==> !StartsWith(e.name, ":")
  }

  /** The shape every trie built by registration has: a root, every
      ancestor of a node present, and only valid edges. */
  predicate WellFormed(t: Nodes) {
    && [] in t
    && (forall k, i :: k in t && 0 <= i <= |k| ==> k[..i] in t)
    && (forall k, i :: k in t && 0 <= i < |k| ==> ValidEdge(k[i]))
  }

  /** How a `:name` segment names its shared parameter node. */
  datatype NameRule =
    | FillIfEmpty   // `node.paramKey ||= name`: the first non-empty name stays
    | OnCreation    // the name is set when the node is created and never again

  function NameAfter(rule: NameRule, existed: bool, current: string, name: string): string {
    match rule
    case FillIfEmpty => if current == "" then name else current
    case OnCreation => if existed then current else name
  }

  lemma EdgesStep(at: Key, parts: seq<string>)
    requires |parts| > 0
    ensures at + Edges(parts) == (at + [EdgeOf(parts[0])]) + Edges(parts[1..])
  {
    assert Edges(parts) == [EdgeOf(parts[0])] + Edges(parts[1..]);
  }

  /** Walks `parts` from node `at`, creating each missing node, and returns
      the grown trie with the node the walk ends at. */
  function Grow(t: Nodes, at: Key, parts: seq<string>, rule: NameRule): (r: (Nodes, Key))
    requires at in t
    ensures r.1 == at + Edges(parts) && r.1 in r.0
    ensures forall k :: k in t ==> k in r.0 && r.0[k].handlers == t[k].handlers
    ensures forall k :: k in r.0 && k !in t ==> r.0[k].handlers == map[]
    decreases |parts|
  {
    if |parts| == 0 then (t, at)
    else
      var e := EdgeOf(parts[0]);
      var k := at + [e];
      var prev := if k in t then t[k] else EmptyNode;
      var node :=
        if e.Param? then prev.(paramKey := NameAfter(rule, k in t, prev.paramKey, parts[0][1..]))
        else prev;
      var t1 := t[k := node];
      assert node.handlers == prev.handlers;
      assert forall q :: q in t ==> q in t1 && t1[q].handlers == t[q].handlers;
      assert k !in t ==> node.handlers == map[];
      var r := Grow(t1, k, parts[1..], rule);
      assert forall q :: q in r.0 && q !in t ==> q !in t1 || q == k;
      EdgesStep(at, parts);
      r
  }

  /** Growing a well-formed trie keeps it well-formed. */
  lemma {:induction false} GrowWellFormed(t: Nodes, at: Key, parts: seq<string>, rule: NameRule)
    requires WellFormed(t) && at in t
    ensures WellFormed(Grow(t, at, parts, rule).0)
    decreases |parts|
  {
    if |parts| > 0 {
      var e := EdgeOf(parts[0]);
      var k := at + [e];
      var prev := if k in t then t[k] else EmptyNode;
      var node :=
        if e.Param? then prev.(paramKey := NameAfter(rule, k in t, prev.paramKey, parts[0][1..]))
        else prev;
      var t1 := t[k := node];
      forall q, i | q in t1 && 0 <= i <= |q|
        ensures q[..i] in t1
      {
        if q == k && i <= |at| {
          assert q[..i] == at[..i];
        } else if q == k {
          assert q[..i] == q;
        }
      }
      forall q, i | q in t1 && 0 <= i < |q|
        ensures ValidEdge(q[i])
      {
        if q == k && i < |at| {
          assert q[i] == at[i];
        }
      }
      GrowWellFormed(t1, k, parts[1..], rule);
    }
  }

  /** A parameter node that already has its name keeps it when more
      routes are registered through it: under `FillIfEmpty` once the name
      is non-empty, under `OnCreation` always. So all `:name` segments at
      one depth answer to the first registered name. */
  lemma {:induction false} GrowKeepsParamName(t: Nodes, at: Key, parts: seq<string>, rule: NameRule, k: Key)
    requires at in t && k in t
    requires rule == OnCreation || t[k].paramKey != ""
    ensures k in Grow(t, at, parts, rule).0
    ensures Grow(t, at, parts, rule).0[k].paramKey == t[k].paramKey
    decreases |parts|
  {
    if |parts| > 0 {
      var e := EdgeOf(parts[0]);
      var next := at + [e];
      var prev := if next in t then t[next] else EmptyNode;
      var node :=
        if e.Param? then prev.(paramKey := NameAfter(rule, next in t, prev.paramKey, parts[0][1..]))
        else prev;
      var t1 := t[next := node];
      assert t1[k].paramKey == t[k].paramKey;
      GrowKeepsParamName(t1, next, parts[1..], rule, k);
    }
  }

  /** Rank of an edge in lookup precedence: exact before parameter before
      wildcard. */
  function Rank(e: Edge): nat {
    match e
    case Lit(_) => 0
    case Param => 1
    case Wild => 2
  }

  /** The edges `rest`, read from position `idx`, match the request
      segments: a literal equals its segment, a parameter takes any one
      segment, a wildcard is last and takes whatever remains (possibly
      nothing). */
  predicate MatchRest(rest: Key, parts: seq<string>, idx: nat)
    requires idx <= |parts|
    decreases |rest|
  {
    if |rest| == 0 then idx == |parts|
    else match rest[0]
      case Wild => |rest| == 1
      case Lit(s) => idx < |parts| && parts[idx] == s && MatchRest(rest[1..], parts, idx + 1)
      case Param => idx < |parts| && MatchRest(rest[1..], parts, idx + 1)
  }

  /** `a` takes precedence over `b`: at the first edge where they differ,
      `a`'s edge ranks lower, or `a` ends where `b` goes on. */
  predicate Before(a: Key, b: Key)
    decreases |a|
  {
    if |a| == 0 then |b| > 0
    else if |b| == 0 then false
    else if a[0] == b[0] then Before(a[1..], b[1..])
    else Rank(a[0]) < Rank(b[0])
  }

  /** `Before` is a strict order. */
  lemma {:induction false} BeforeIrreflexive(a: Key)
    ensures !Before(a, a)
    decreases |a|
  {
    if |a| > 0 {
      BeforeIrreflexive(a[1..]);
    }
  }

  lemma {:induction false} BeforeTransitive(a: Key, b: Key, c: Key)
    requires Before(a, b) && Before(b, c)
    ensures Before(a, c)
    decreases |a|
  {
    if |a| > 0 && |b| > 0 && |c| > 0 && a[0] == b[0] && b[0] == c[0] {
      BeforeTransitive(a[1..], b[1..], c[1..]);
    }
  }

  /** The greedy walk of the legacy routers: at each segment take the
      exact child, else the parameter child (binding its name), else stop
      at the wildcard child; fail when none exists. `bindEmpty` says
      whether an empty parameter name is still bound. */
  function GreedyWalk(t: Nodes, at: Key, parts: seq<string>, idx: nat,
                      params: map<string, string>, bindEmpty: bool): Option<(Key, map<string, string>)>
    requires at in t && idx <= |parts|
    decreases |parts| - idx
  {
    if idx == |parts| then Some((at, params))
    else
      var part := parts[idx];
      var ek := at + [ExactEdge(part)];
      var pk := at + [Param];
      if ek in t then GreedyWalk(t, ek, parts, idx + 1, params, bindEmpty)
      else if pk in t then
        var name := t[pk].paramKey;
        GreedyWalk(t, pk, parts, idx + 1,
                   if bindEmpty || name != "" then params[name := part] else params, bindEmpty)
      else if at + [Wild] in t then Some((at + [Wild], params))
      else None
  }

  /** Whatever node the greedy walk ends at, its edges match the request. */
  lemma {:induction false} GreedyWalkMatches(t: Nodes, at: Key, parts: seq<string>, idx: nat,
                                             params: map<string, string>, bindEmpty: bool)
    requires WellFormed(t) && at in t && idx <= |parts|
    ensures match GreedyWalk(t, at, parts, idx, params, bindEmpty)
      case Some((k, _)) => k in t && |at| <= |k| && k[..|at|] == at && MatchRest(k[|at|..], parts, idx)
      case None => true
    decreases |parts| - idx
  {
    if idx < |parts| {
      var part := parts[idx];
      var ek := at + [ExactEdge(part)];
      var pk := at + [Param];
      var next :=
        if ek in t then ek else if pk in t then pk else at + [Wild];
      if next in t {
        if next == at + [Wild] {
          assert (at + [Wild])[|at|..] == [Wild];
        } else {
          var p2 := if next == ek then params
            else if bindEmpty || t[pk].paramKey != "" then params[t[pk].paramKey := part] else params;
          GreedyWalkMatches(t, next, parts, idx + 1, p2, bindEmpty);
          match GreedyWalk(t, next, parts, idx + 1, p2, bindEmpty)
          case Some((k, _)) =>
            assert k[..|at|] == next[..|at|] == at;
            assert k[|at|..][1..] == k[|next|..];
            assert k[|at|..][0] == next[|at|];
          case None =>
        }
      }
    }
  }
}
