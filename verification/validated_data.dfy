/** The request-scoped container of validated values
    (src/ValidatedData.ts): one map keyed by a string or a constructor.
    A stored JavaScript `undefined` is `None`. */
module ValidatedData {
  import opened Wrappers
  import DataBag

  datatype Key = Named(name: string) | ByClass(ctor: DataBag.Ctor)

  datatype Data<V> = Data(store: map<Key, Option<V>>)

  /** A new container. */
  function Empty<V>(): (d: Data<V>)
    ensures d.store == map[]
  {
    Data(map[])
  }

  /** `clear()`. */
  function Clear<V>(d: Data<V>): (r: Data<V>)
    ensures forall k :: k !in r.store
  {
    Data(map[])
  }

  /** `set(key, value)`. */
  function Set<V>(d: Data<V>, key: Key, value: Option<V>): (r: Data<V>)
    ensures key in r.store && r.store[key] == value
    ensures forall k :: k != key ==> (k in r.store <==> k in d.store)
    ensures forall k :: k != key && k in d.store ==> r.store[k] == d.store[k]
  {
    Data(d.store[key := value])
  }

  /** `maybe(key)`: undefined for an absent key. */
  function Maybe<V>(d: Data<V>, key: Key): (v: Option<V>)
    ensures key !in d.store ==> v == None
    ensures key in d.store ==> v == d.store[key]
  {
    if key in d.store then d.store[key] else None
  }

  /** The name `get` reports for a missing key. */
  function KeyName(key: Key): (n: string)
    ensures key.Named? ==> n == key.name
    ensures key.ByClass? && key.ctor.name != "" ==> n == key.ctor.name
    ensures key.ByClass? && key.ctor.name == "" ==> n == "UnknownKey"
  {
    match key
    case Named(s) => s
    case ByClass(t) => if t.name != "" then t.name else "UnknownKey"
  }

  function MissingMessage(key: Key): string {
    "ValidatedData missing key \"" + KeyName(key)
      + "\". Did you forget to call route.validate(...) or use the correct key?"
  }

  /** `get(key)`: the stored value, or an error naming the key. */
  function Get<V>(d: Data<V>, key: Key): (r: Result<V, string>)
    ensures r.Ok? <==> Maybe(d, key).Some?
    ensures r.Ok? ==> r.value == Maybe(d, key).value
    ensures r.Err? ==> r.error == MissingMessage(key)
  {
    match Maybe(d, key)
    case Some(v) => Ok(v)
    case None => Err(MissingMessage(key))
  }

  /** `getOrThrow(key)`. */
  function GetOrThrow<V>(d: Data<V>, key: Key): (r: Result<V, string>)
    ensures r == Get(d, key)
  {
    Get(d, key)
  }

  /** A value set is read back; other keys read as before. */
  lemma SetThenGet<V>(d: Data<V>, key: Key, value: V, other: Key)
    ensures Get(Set(d, key, Some(value)), key) == Ok(value)
    ensures other != key ==> Get(Set(d, key, Some(value)), other) == Get(d, other)
  {
  }

  /** After `clear`, `get` fails for every key and `maybe` answers
      undefined. */
  lemma ClearForgets<V>(d: Data<V>, key: Key)
    ensures Get(Clear(d), key) == Err(MissingMessage(key))
    ensures Maybe(Clear(d), key) == None
  {
  }

  /** The missing-key message names the key's own name, so two string
      keys with different names report differently. */
  lemma MissingNamesKey(a: string, b: string)
    requires a != b
    ensures MissingMessage(Named(a)) != MissingMessage(Named(b))
  {
    var p := "ValidatedData missing key \"";
    var q := "\". Did you forget to call route.validate(...) or use the correct key?";
    var ma, mb := MissingMessage(Named(a)), MissingMessage(Named(b));
    assert ma == p + a + q && mb == p + b + q;
    assert ma[|p|..|p| + |a|] == a;
    assert mb[|p|..|p| + |b|] == b;
  }
}
