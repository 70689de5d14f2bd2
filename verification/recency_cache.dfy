/** An insertion-ordered JavaScript `Map` used as a bounded cache of
    resolved routes: entries keep the order in which they were added, `set`
    of a present key keeps its place, and the first entry is the oldest. */
module RecencyCache {
  import opened Wrappers

  datatype Cache<V> = Cache(entries: seq<(string, V)>)

  function Keys<V>(c: Cache<V>): (ks: seq<string>)
    ensures |ks| == |c.entries|
    ensures forall i :: 0 <= i < |ks| ==> ks[i] == c.entries[i].0
  {
    seq(|c.entries|, i requires 0 <= i < |c.entries| => c.entries[i].0)
  }

  /** The key list names exactly the keys `get` finds, and has no
      repeat exactly when the cache is distinct. */
  lemma KeysAreLookups<V(!new)>(c: Cache<V>)
    ensures forall k :: k in Keys(c) <==> Get(c, k).Some?
    ensures Distinct(c) <==> forall i, j :: 0 <= i < j < |Keys(c)| ==> Keys(c)[i] != Keys(c)[j]
  {
    forall k ensures k in Keys(c) <==> Get(c, k).Some? {
      if Get(c, k).Some? {
        var i :| 0 <= i < |c.entries| && c.entries[i].0 == k;
        assert Keys(c)[i] == k;
      }
    }
    if forall i, j :: 0 <= i < j < |Keys(c)| ==> Keys(c)[i] != Keys(c)[j] {
      forall i, j | 0 <= i < j < |c.entries| ensures c.entries[i].0 != c.entries[j].0 {
        assert Keys(c)[i] != Keys(c)[j];
      }
    }
  }

  /** No key appears twice. */
  predicate Distinct<V(!new)>(c: Cache<V>) {
    forall i, j :: 0 <= i < j < |c.entries| ==> c.entries[i].0 != c.entries[j].0
  }

  /** A distinct cache holding at most `cap` entries. */
  predicate Valid<V(!new)>(c: Cache<V>, cap: nat) {
    Distinct(c) && |c.entries| <= cap
  }

    /** `map.get(k)`. */
  function Get<V(!new)>(c: Cache<V>, k: string): (r: Option<V>)
    ensures r.None? <==> forall i :: 0 <= i < |c.entries| ==> c.entries[i].0 != k
    decreases |c.entries|
  {
    if |c.entries| == 0 then None
    else if c.entries[0].0 == k then Some(c.entries[0].1)
    else Get(Cache(c.entries[1..]), k)
  }

  /** `map.delete(k)`: every entry with another key, in order. */
  function Delete<V(!new)>(c: Cache<V>, k: string): (r: Cache<V>)
    ensures forall e :: e in r.entries <==> e in c.entries && e.0 != k
    ensures |r.entries| <= |c.entries|
    ensures Distinct(c) ==> Distinct(r)
    decreases |c.entries|
  {
    if |c.entries| == 0 then c
    else
      var rest := Delete(Cache(c.entries[1..]), k);
      if c.entries[0].0 == k then rest
      else
        assert Distinct(c) ==> forall e :: e in rest.entries ==> e.0 != c.entries[0].0 by {
          if Distinct(c) {
            forall e | e in rest.entries ensures e.0 != c.entries[0].0 {
              var j :| 0 <= j < |c.entries[1..]| && c.entries[1..][j] == e;
              assert c.entries[j + 1] == e;
            }
          }
        }
        Cache([c.entries[0]] + rest.entries)
  }

  /** `map.set(k, v)`: a present key keeps its place with the new value, a
      new key goes last. */
  function Set<V(!new)>(c: Cache<V>, k: string, v: V): (r: Cache<V>)
    ensures Get(r, k) == Some(v)
    ensures forall q :: q != k ==> Get(r, q) == Get(c, q)
    ensures Get(c, k).None? ==> r.entries == c.entries + [(k, v)]
    decreases |c.entries|
  {
    if |c.entries| == 0 then Cache([(k, v)])
    else if c.entries[0].0 == k then Cache([(k, v)] + c.entries[1..])
    else
      var rest := Set(Cache(c.entries[1..]), k, v);
      SetCons(c, k, v, rest);
      Cache([c.entries[0]] + rest.entries)
  }

  /** Setting past a first entry of another key keeps that entry in front. */
  lemma SetCons<V(!new)>(c: Cache<V>, k: string, v: V, rest: Cache<V>)
    requires |c.entries| > 0 && c.entries[0].0 != k
    requires Get(rest, k) == Some(v)
    requires forall q :: q != k ==> Get(rest, q) == Get(Cache(c.entries[1..]), q)
    requires Get(Cache(c.entries[1..]), k).None? ==> rest.entries == c.entries[1..] + [(k, v)]
    ensures var r := Cache([c.entries[0]] + rest.entries);
      && Get(r, k) == Some(v)
      && (forall q :: q != k ==> Get(r, q) == Get(c, q))
      && (Get(c, k).None? ==> r.entries == c.entries + [(k, v)])
  {
    var r := Cache([c.entries[0]] + rest.entries);
    assert Cache(r.entries[1..]) == rest;
    if Get(c, k).None? {
      assert c.entries == [c.entries[0]] + c.entries[1..];
    }
  }

  /** Setting a present key leaves the key order as it was. */
  lemma {:induction false} SetKeepsKeys<V(!new)>(c: Cache<V>, k: string, v: V)
    requires Get(c, k).Some?
    ensures Keys(Set(c, k, v)) == Keys(c)
    decreases |c.entries|
  {
    if c.entries[0].0 != k {
      var tail := Cache(c.entries[1..]);
      SetKeepsKeys(tail, k, v);
      var r := Set(c, k, v);
      var rt := Set(tail, k, v);
      assert r.entries == [c.entries[0]] + rt.entries;
      assert |Keys(rt)| == |Keys(tail)|;
      forall i | 0 <= i < |r.entries| ensures Keys(r)[i] == Keys(c)[i] {
        if i > 0 {
          assert r.entries[i] == rt.entries[i - 1] && c.entries[i] == tail.entries[i - 1];
          assert Keys(rt)[i - 1] == Keys(tail)[i - 1];
        }
      }
    }
  }

  /** Two caches with the same key sequence are distinct together. */
  lemma SameKeysDistinct<V(!new)>(c: Cache<V>, d: Cache<V>)
    requires Keys(c) == Keys(d) && Distinct(c)
    ensures Distinct(d)
  {
    forall i, j | 0 <= i < j < |d.entries| ensures d.entries[i].0 != d.entries[j].0 {
      assert Keys(d)[i] == Keys(c)[i] && Keys(d)[j] == Keys(c)[j];
    }
  }

  /** `set` never introduces a duplicate key. */
  lemma SetDistinct<V(!new)>(c: Cache<V>, k: string, v: V)
    requires Distinct(c)
    ensures Distinct(Set(c, k, v))
    ensures |Set(c, k, v).entries| == |c.entries| + (if Get(c, k).None? then 1 else 0)
  {
    var r := Set(c, k, v);
    if Get(c, k).Some? {
      SetKeepsKeys(c, k, v);
      SameKeysDistinct(c, r);
      assert |Keys(r)| == |Keys(c)|;
    } else {
      forall i, j | 0 <= i < j < |r.entries| ensures r.entries[i].0 != r.entries[j].0 {
        if j == |c.entries| {
          assert r.entries[i] == c.entries[i];
        } else {
          assert r.entries[i] == c.entries[i] && r.entries[j] == c.entries[j];
        }
      }
    }
  }

  /** Removes the oldest (first) entry, if any. */
  function EvictOldest<V>(c: Cache<V>): (r: Cache<V>)
    ensures |c.entries| > 0 ==> r.entries == c.entries[1..]
    ensures |c.entries| == 0 ==> r == c
  {
    if |c.entries| == 0 then c else Cache(c.entries[1..])
  }

  /** Stores a freshly resolved result the way both routers do: when the
      cache already holds `cap` entries the oldest is evicted first. */
  function Admit<V(!new)>(c: Cache<V>, k: string, v: V, cap: nat): (r: Cache<V>)
    requires cap >= 1
    ensures Get(r, k) == Some(v)
    ensures Valid(c, cap) ==> Valid(r, cap)
    ensures |c.entries| < cap ==> forall q :: q != k ==> Get(r, q) == Get(c, q)
  {
    var d := if |c.entries| >= cap then EvictOldest(c) else c;
    assert Distinct(c) ==> Distinct(d) by {
      if Distinct(c) && |c.entries| >= cap {
        forall i, j | 0 <= i < j < |d.entries| ensures d.entries[i].0 != d.entries[j].0 {
          assert d.entries[i] == c.entries[i + 1] && d.entries[j] == c.entries[j + 1];
        }
      }
    }
    if Distinct(d) then
      SetDistinct(d, k, v);
      Set(d, k, v)
    else
      Set(d, k, v)
  }

  /** On a full cache, admitting a new key drops exactly the oldest entry
      and appends the new one. */
  lemma AdmitFullEvictsOldest<V(!new)>(c: Cache<V>, k: string, v: V, cap: nat)
    requires cap >= 1 && Valid(c, cap) && |c.entries| == cap && Get(c, k).None?
    ensures Admit(c, k, v, cap).entries == c.entries[1..] + [(k, v)]
  {
    var d := EvictOldest(c);
    assert Get(d, k).None? by {
      forall i | 0 <= i < |d.entries| ensures d.entries[i].0 != k {
        assert d.entries[i] == c.entries[i + 1];
      }
    }
  }

  /** Moves a present entry to the most recent place (`delete` then `set`). */
  function Touch<V(!new)>(c: Cache<V>, k: string, v: V): (r: Cache<V>)
    requires Get(c, k) == Some(v)
    ensures |r.entries| > 0 && r.entries[|r.entries| - 1] == (k, v)
    ensures Distinct(c) ==> Distinct(r) && |r.entries| == |c.entries|
    ensures forall q :: Get(r, q) == Get(c, q)
  {
    var d := Delete(c, k);
    assert Get(d, k).None? by {
      forall i | 0 <= i < |d.entries| ensures d.entries[i].0 != k {
        assert d.entries[i] in d.entries;
      }
    }
    var r := Set(d, k, v);
    assert Distinct(c) ==> Distinct(r) && |r.entries| == |c.entries| by {
      if Distinct(c) {
        SetDistinct(d, k, v);
        TouchSize(c, k, v);
      }
    }
    assert forall q :: q != k ==> Get(d, q) == Get(c, q) by {
      forall q | q != k ensures Get(d, q) == Get(c, q) {
        DeleteKeepsOthers(c, k, q);
      }
    }
    r
  }

  lemma DeleteKeepsOthers<V(!new)>(c: Cache<V>, k: string, q: string)
    requires q != k
    ensures Get(Delete(c, k), q) == Get(c, q)
    decreases |c.entries|
  {
    if |c.entries| > 0 {
      DeleteKeepsOthers(Cache(c.entries[1..]), k, q);
    }
  }

  /** In a distinct cache, deleting a present key removes exactly one entry. */
  lemma {:induction false} DeletePresentSize<V(!new)>(c: Cache<V>, k: string)
    requires Distinct(c) && Get(c, k).Some?
    ensures |Delete(c, k).entries| == |c.entries| - 1
    decreases |c.entries|
  {
    var tail := Cache(c.entries[1..]);
    assert Distinct(tail) by {
      forall i, j | 0 <= i < j < |tail.entries| ensures tail.entries[i].0 != tail.entries[j].0 {
        assert tail.entries[i] == c.entries[i + 1] && tail.entries[j] == c.entries[j + 1];
      }
    }
    if c.entries[0].0 == k {
      DeleteAbsentSize(tail, k);
      forall i | 0 <= i < |tail.entries| ensures tail.entries[i].0 != k {
        assert tail.entries[i] == c.entries[i + 1];
      }
    } else {
      DeletePresentSize(tail, k);
    }
  }

  lemma {:induction false} DeleteAbsentSize<V(!new)>(c: Cache<V>, k: string)
    requires forall i :: 0 <= i < |c.entries| ==> c.entries[i].0 != k
    ensures Delete(c, k) == c
    decreases |c.entries|
  {
    if |c.entries| > 0 {
      var tail := Cache(c.entries[1..]);
      forall i | 0 <= i < |tail.entries| ensures tail.entries[i].0 != k {
        assert tail.entries[i] == c.entries[i + 1];
      }
      DeleteAbsentSize(tail, k);
      assert [c.entries[0]] + tail.entries == c.entries;
    }
  }

  lemma TouchSize<V(!new)>(c: Cache<V>, k: string, v: V)
    requires Distinct(c) && Get(c, k) == Some(v)
    ensures |Set(Delete(c, k), k, v).entries| == |c.entries|
  {
    DeletePresentSize(c, k);
    var d := Delete(c, k);
    assert Get(d, k).None? by {
      forall i | 0 <= i < |d.entries| ensures d.entries[i].0 != k {
        assert d.entries[i] in d.entries;
      }
    }
  }
}
