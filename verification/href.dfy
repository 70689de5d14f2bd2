/** `href` of src/Href.ts: builds a link from a path and a query record,
    keeping the path's own query and fragment. URL query parsing and
    form encoding belong to the runtime's `URLSearchParams`; they are the
    parameters `parse` and `enc`. */
module Href {
  import opened Wrappers
  import opened Text

  /** A primitive query value (floating-point numbers are not modelled:
      numbers are integers here). */
  datatype Prim = PStr(s: string) | PInt(i: int) | PBool(b: bool) | PNull | PUndefined

  /** A query record's value: a single primitive or an array of them. */
  datatype QueryValue = One(p: Prim) | Many(items: seq<Prim>)

  type Pairs = seq<(string, string)>

  predicate Defined(p: Prim) {
    !p.PNull? && !p.PUndefined?
  }

  /** `String(x)` for a defined primitive. */
  function PrimString(p: Prim): string
    requires Defined(p)
  {
    match p
    case PStr(s) => s
    case PInt(i) => IntToString(i)
    case PBool(b) => if b then "true" else "false"
  }

  /** The defined items of an array, as strings, in order. */
  function DefinedStrings(items: seq<Prim>): (r: seq<string>)
    ensures |r| <= |items|
    ensures (forall i :: 0 <= i < |items| ==> Defined(items[i])) ==> |r| == |items|
  {
    if |items| == 0 then []
    else (if Defined(items[0]) then [PrimString(items[0])] else []) + DefinedStrings(items[1..])
  }

  /** `normalizeValues`: the strings a query value contributes. */
  function NormalizeValues(v: QueryValue): (r: seq<string>)
    ensures v.One? ==> (|r| == 0 <==> !Defined(v.p))
    ensures v.One? && Defined(v.p) ==> r == [PrimString(v.p)]
  {
    match v
    case One(p) => if Defined(p) then [PrimString(p)] else []
    case Many(items) => DefinedStrings(items)
  }

  /** The values stored under key `k`, in order. */
  function Values(ps: Pairs, k: string): seq<string> {
    if |ps| == 0 then []
    else (if ps[0].0 == k then [ps[0].1] else []) + Values(ps[1..], k)
  }

  /** `params.delete(k)`. */
  function Remove(ps: Pairs, k: string): (r: Pairs)
    ensures Values(r, k) == []
    ensures forall j :: j != k ==> Values(r, j) == Values(ps, j)
  {
    if |ps| == 0 then []
    else if ps[0].0 == k then Remove(ps[1..], k)
    else
      var rest := Remove(ps[1..], k);
      assert ([ps[0]] + rest)[1..] == rest;
      [ps[0]] + rest
  }

  /** The pairs `(k, v)` for each `v`, as repeated `params.append(k, v)`
      produce them. */
  function Repeat(k: string, vs: seq<string>): (r: Pairs)
    ensures Values(r, k) == vs
    ensures forall j :: j != k ==> Values(r, j) == []
  {
    if |vs| == 0 then []
    else
      var rest := Repeat(k, vs[1..]);
      assert ([(k, vs[0])] + rest)[1..] == rest;
      [(k, vs[0])] + rest
  }

  lemma {:induction false} ValuesAppend(a: Pairs, b: Pairs, k: string)
    ensures Values(a + b, k) == Values(a, k) + Values(b, k)
    decreases |a|
  {
    if |a| > 0 {
      assert (a + b)[1..] == a[1..] + b;
      ValuesAppend(a[1..], b, k);
    } else {
      assert a + b == b;
    }
  }

  /** One query entry: every earlier pair of the key goes, then its new
      values are appended. */
  function ApplyEntry(ps: Pairs, k: string, v: QueryValue): (r: Pairs)
    ensures Values(r, k) == NormalizeValues(v)
    ensures forall j :: j != k ==> Values(r, j) == Values(ps, j)
  {
    var rem := Remove(ps, k);
    var add := Repeat(k, NormalizeValues(v));
    ValuesAppend(rem, add, k);
    forall j | j != k ensures Values(rem + add, j) == Values(ps, j) {
      ValuesAppend(rem, add, j);
    }
    rem + add
  }

  /** The query record's entries applied in order. */
  function Apply(ps: Pairs, query: seq<(string, QueryValue)>): Pairs
    decreases |query|
  {
    if |query| == 0 then ps
    else
      var last := query[|query| - 1];
      ApplyEntry(Apply(ps, query[..|query| - 1]), last.0, last.1)
  }

  predicate Mentions(query: seq<(string, QueryValue)>, k: string) {
    exists i :: 0 <= i < |query| && query[i].0 == k
  }

  /** Pairs of keys the query record does not mention survive unchanged
      and in order. */
  lemma {:induction false} ApplyKeepsUnmentioned(ps: Pairs, query: seq<(string, QueryValue)>, k: string)
    requires !Mentions(query, k)
    ensures Values(Apply(ps, query), k) == Values(ps, k)
    decreases |query|
  {
    if |query| > 0 {
      var front := query[..|query| - 1];
      assert !Mentions(front, k) by {
        forall i | 0 <= i < |front| ensures front[i].0 != k {
          assert front[i] == query[i];
        }
      }
      assert query[|query| - 1].0 != k;
      ApplyKeepsUnmentioned(ps, front, k);
    }
  }

  /** A mentioned key holds exactly the values of its last entry: earlier
      occurrences are all removed first, and null, undefined or [] leave
      the key absent. */
  lemma {:induction false} ApplyLastEntryWins(ps: Pairs, query: seq<(string, QueryValue)>, i: nat)
    requires i < |query|
    requires forall j :: i < j < |query| ==> query[j].0 != query[i].0
    ensures Values(Apply(ps, query), query[i].0) == NormalizeValues(query[i].1)
    decreases |query|
  {
    var k := query[i].0;
    if i < |query| - 1 {
      var front := query[..|query| - 1];
      assert front[i] == query[i];
      forall j | i < j < |front| ensures front[j].0 != front[i].0 {
        assert front[j] == query[j];
      }
      ApplyLastEntryWins(ps, front, i);
    }
  }

  /** `URLSearchParams.toString()` with the form encoder `enc`. */
  function Serialize(ps: Pairs, enc: string -> string): (qs: string)
    ensures qs == "" <==> |ps| == 0
  {
    if |ps| == 0 then ""
    else if |ps| == 1 then enc(ps[0].0) + "=" + enc(ps[0].1)
    else enc(ps[0].0) + "=" + enc(ps[0].1) + "&" + Serialize(ps[1..], enc)
  }

  /** The "#fragment" of a path, "" when there is none. */
  function Fragment(path: string): string {
    var h := IndexOfChar(path, '#');
    if h < 0 then "" else path[h..]
  }

  /** The path before its fragment. */
  function BeforeHash(path: string): (r: string)
    ensures r + Fragment(path) == path
  {
    var h := IndexOfChar(path, '#');
    if h < 0 then path else path[..h]
  }

  /** The path before its query. */
  function BasePath(path: string): (r: string)
    ensures '?' !in r && '#' !in r
  {
    var b := BeforeHash(path);
    var q := IndexOfChar(b, '?');
    if q < 0 then b else b[..q]
  }

  /** The query text of the path, without "?". */
  function ExistingQuery(path: string): string {
    var b := BeforeHash(path);
    var q := IndexOfChar(b, '?');
    if q < 0 then "" else b[q + 1..]
  }

  function NewlineMessage(): string {
    "Invalid URL: contains newline characters"
  }

  /** `href(path, query)`: refused for a path with CR or LF; otherwise the
      base path, then "?" and the merged query when that is not empty,
      then the fragment. */
  function Href(path: string, query: seq<(string, QueryValue)>,
                parse: string -> Pairs, enc: string -> string): (r: Result<string, string>)
    ensures r.Err? <==> HasLineBreak(path)
    ensures r.Err? ==> r.error == NewlineMessage()
    ensures r.Ok? ==> StartsWith(r.value, BasePath(path)) && EndsWith(r.value, Fragment(path))
    ensures r.Ok? ==> (r.value == BasePath(path) + Fragment(path) <==> |Apply(parse(ExistingQuery(path)), query)| == 0)
    ensures r.Ok? && |Apply(parse(ExistingQuery(path)), query)| > 0 ==>
      r.value == BasePath(path) + "?" + Serialize(Apply(parse(ExistingQuery(path)), query), enc) + Fragment(path)
  {
    if HasLineBreak(path) then Err(NewlineMessage())
    else
      var params := Apply(parse(ExistingQuery(path)), query);
      var qs := Serialize(params, enc);
      var base := BasePath(path);
      var hash := Fragment(path);
      if |qs| > 0 then
        assert (base + "?" + qs + hash)[|base|] == '?';
        assert |base + "?" + qs + hash| != |base + hash|;
        Ok(base + "?" + qs + hash)
      else Ok(base + hash)
  }

  /** A path splits into its base, its "?query" when it has one, and its
      fragment. */
  lemma PathParts(path: string)
    ensures '?' in BeforeHash(path) ==> path == BasePath(path) + "?" + ExistingQuery(path) + Fragment(path)
    ensures '?' !in BeforeHash(path) ==> path == BasePath(path) + Fragment(path) && ExistingQuery(path) == ""
  {
    var b := BeforeHash(path);
    var q := IndexOfChar(b, '?');
    if q >= 0 {
      assert b == b[..q] + "?" + b[q + 1..];
    }
  }

  /** A link without a query record to a path that has no query is the
      path itself, when the empty query text parses to no pairs. */
  lemma HrefKeepsPlainPath(path: string, parse: string -> Pairs, enc: string -> string)
    requires !HasLineBreak(path) && '?' !in BeforeHash(path) && parse("") == []
    ensures Href(path, [], parse, enc) == Ok(path)
  {
    PathParts(path);
  }
}
