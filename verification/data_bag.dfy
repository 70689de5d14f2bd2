/** The dual-indexed store behind `createDataBag` (src/DataBag.ts): one
    index by string key, one by constructor. A stored JavaScript
    `undefined` is `None`; every read that finds `None` (or nothing)
    answers its fallback. */
module DataBag {
  import opened Wrappers

  /** A constructor: its identity and its `name` property ("" for an
      anonymous class, which JavaScript treats as false). */
  datatype Ctor = Ctor(id: nat, name: string)

  datatype Bag<V> = Bag(byKey: map<string, Option<V>>, byCtor: map<Ctor, Option<V>>)

  /** `createDataBag()`. */
  function Empty<V>(): (b: Bag<V>)
    ensures b.byKey == map[] && b.byCtor == map[]
  {
    Bag(map[], map[])
  }

  /** A stored value, `None` when absent or stored as undefined. */
  function Stored<K, V>(m: map<K, Option<V>>, k: K): Option<V> {
    if k in m then m[k] else None
  }

  /** `set(key, value, ctor?)`. */
  function Set<V>(b: Bag<V>, key: string, value: Option<V>, ctor: Option<Ctor>): (r: Bag<V>)
    ensures r.byKey == b.byKey[key := value]
    ensures ctor.None? ==> r.byCtor == b.byCtor
    ensures ctor.Some? ==> r.byCtor == b.byCtor[ctor.value := value]
  {
    Bag(b.byKey[key := value], if ctor.Some? then b.byCtor[ctor.value := value] else b.byCtor)
  }

  /** `setCtor(Type, value, keyOverride?)`: also stored under the override
      or, failing that, the constructor's name, unless that key is "". */
  function SetCtor<V>(b: Bag<V>, t: Ctor, value: Option<V>, keyOverride: Option<string>): (r: Bag<V>)
    ensures r.byCtor == b.byCtor[t := value]
    ensures keyOverride.GetOr(t.name) == "" ==> r.byKey == b.byKey
    ensures keyOverride.GetOr(t.name) != "" ==> r.byKey == b.byKey[keyOverride.GetOr(t.name) := value]
  {
    var key := if keyOverride.Some? then keyOverride.value else t.name;
    Bag(if key != "" then b.byKey[key := value] else b.byKey, b.byCtor[t := value])
  }

  /** `get(key, fallback)`. */
  function Get<V>(b: Bag<V>, key: string, fallback: Option<V>): (v: Option<V>)
    ensures key in b.byKey && b.byKey[key].Some? ==> v == b.byKey[key]
    ensures !(key in b.byKey && b.byKey[key].Some?) ==> v == fallback
  {
    var s := Stored(b.byKey, key);
    if s.Some? then s else fallback
  }

  /** `getCtor(Type, fallback)`: the constructor entry, else the entry
      under the constructor's non-empty name, else the fallback. */
  function GetCtor<V>(b: Bag<V>, t: Ctor, fallback: Option<V>): (v: Option<V>)
    ensures Stored(b.byCtor, t).Some? ==> v == Stored(b.byCtor, t)
    ensures Stored(b.byCtor, t).None? && t.name != "" && Stored(b.byKey, t.name).Some? ==>
      v == Stored(b.byKey, t.name)
    ensures Stored(b.byCtor, t).None? && (t.name == "" || Stored(b.byKey, t.name).None?) ==> v == fallback
  {
    var byCtor := Stored(b.byCtor, t);
    if byCtor.Some? then byCtor
    else if t.name != "" && Stored(b.byKey, t.name).Some? then Stored(b.byKey, t.name)
    else fallback
  }

  /** What the bag itself is called with: a string, a constructor, or
      anything else. */
  datatype Lookup = ByKey(key: string) | ByCtor(ctor: Ctor) | Other

  /** Calling the bag, `data(keyOrCtor, fallback)`. */
  function Call<V>(b: Bag<V>, what: Lookup, fallback: Option<V>): (v: Option<V>)
    ensures what.ByKey? ==> v == Get(b, what.key, fallback)
    ensures what.ByCtor? ==> v == GetCtor(b, what.ctor, fallback)
    ensures what.Other? ==> v == fallback
  {
    match what
    case ByKey(k) => Get(b, k, fallback)
    case ByCtor(t) => GetCtor(b, t, fallback)
    case Other => fallback
  }

  /** `delete(key)`: the key index only. */
  function Delete<V>(b: Bag<V>, key: string): (r: Bag<V>)
    ensures key !in r.byKey
    ensures forall k :: k != key ==> (k in r.byKey <==> k in b.byKey)
    ensures forall k :: k in r.byKey ==> r.byKey[k] == b.byKey[k]
    ensures r.byCtor == b.byCtor
  {
    Bag(b.byKey - {key}, b.byCtor)
  }

  /** `deleteCtor(Type)`: the constructor entry and its name key. */
  function DeleteCtor<V>(b: Bag<V>, t: Ctor): (r: Bag<V>)
    ensures t !in r.byCtor && r.byCtor == b.byCtor - {t}
    ensures t.name != "" ==> r.byKey == b.byKey - {t.name}
    ensures t.name == "" ==> r.byKey == b.byKey
  {
    Bag(if t.name != "" then b.byKey - {t.name} else b.byKey, b.byCtor - {t})
  }

  /** `clear()`. */
  function Clear<V>(b: Bag<V>): (r: Bag<V>)
    ensures r == Empty()
  {
    Bag(map[], map[])
  }

  /** `toObject()`: a copy of the key entries. */
  function ToObject<V>(b: Bag<V>): (o: map<string, Option<V>>)
    ensures o.Keys == b.byKey.Keys && forall k :: k in o ==> o[k] == b.byKey[k]
  {
    b.byKey
  }

  /** A value set under a key (and optionally a constructor) is read back
      under the key, and under the constructor too when one was given;
      every other key reads as before. */
  lemma SetThenGet<V>(b: Bag<V>, key: string, value: V, ctor: Option<Ctor>, fallback: Option<V>)
    ensures Get(Set(b, key, Some(value), ctor), key, fallback) == Some(value)
    ensures ctor.Some? ==> GetCtor(Set(b, key, Some(value), ctor), ctor.value, fallback) == Some(value)
    ensures forall k :: k != key ==> Get(Set(b, key, Some(value), ctor), k, fallback) == Get(b, k, fallback)
  {
  }

  /** A value set by constructor is read back by constructor, and under
      the override or class name as a key. */
  lemma SetCtorThenGet<V>(b: Bag<V>, t: Ctor, value: V, keyOverride: Option<string>, fallback: Option<V>)
    ensures GetCtor(SetCtor(b, t, Some(value), keyOverride), t, fallback) == Some(value)
    ensures keyOverride.GetOr(t.name) != "" ==>
      Get(SetCtor(b, t, Some(value), keyOverride), keyOverride.GetOr(t.name), fallback) == Some(value)
  {
  }

  /** Storing undefined is indistinguishable from storing nothing: the
      fallback comes back. */
  lemma UndefinedReadsFallback<V>(b: Bag<V>, key: string, fallback: Option<V>)
    ensures Get(Set(b, key, None, None), key, fallback) == fallback
    ensures Get(Delete(b, key), key, fallback) == fallback
  {
  }

  /** A plain `set` under a class's name is found by `getCtor` when the
      constructor index has nothing for it. */
  lemma GetCtorByName<V>(b: Bag<V>, t: Ctor, value: V, fallback: Option<V>)
    requires t.name != "" && Stored(b.byCtor, t).None?
    ensures GetCtor(Set(b, t.name, Some(value), None), t, fallback) == Some(value)
  {
  }

  /** After `deleteCtor`, neither index answers for the constructor. */
  lemma DeleteCtorForgets<V>(b: Bag<V>, t: Ctor, fallback: Option<V>)
    ensures GetCtor(DeleteCtor(b, t), t, fallback) == fallback
  {
  }

  /** `delete` of the key leaves the constructor index alone: a value set
      with both indexes survives under its constructor. */
  lemma DeleteKeepsCtor<V>(b: Bag<V>, key: string, value: V, t: Ctor, fallback: Option<V>)
    ensures GetCtor(Delete(Set(b, key, Some(value), Some(t)), key), t, fallback) == Some(value)
    ensures Get(Delete(Set(b, key, Some(value), Some(t)), key), key, fallback) == fallback
  {
  }

  /** After `clear`, every read gives the fallback. */
  lemma ClearForgets<V>(b: Bag<V>, what: Lookup, fallback: Option<V>)
    ensures Call(Clear(b), what, fallback) == fallback
  {
  }
}
