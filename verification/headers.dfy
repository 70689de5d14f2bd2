/** The header containers of src/Headers.ts: a response header bag that
    keeps every value of a field, a read-only view of the request's
    headers, and the `HeaderRef` handle that reaches either of them.
    Field names are case-insensitive (section 5.1 of RFC 9110), so every
    operation first lower-cases the name. */
module Headers {
  import opened Wrappers
  import opened Text

  /** Response headers: lower-cased field name to its values in the order
      they were stored. */
  datatype Bag = Bag(fields: map<string, seq<string>>)

  const EmptyBag := Bag(map[])

  function Norm(name: string): string {
    ToLower(name)
  }

  /** Every stored field has at least one value: `set` and `append` never
      store an empty list. */
  predicate Valid(b: Bag) {
    forall k :: k in b.fields ==> |b.fields[k]| > 0
  }

  function Reset(b: Bag): (r: Bag)
    ensures r.fields == map[]
  {
    EmptyBag
  }

  function Set(b: Bag, name: string, value: string): (r: Bag) {
    Bag(b.fields[Norm(name) := [value]])
  }

  function Append(b: Bag, name: string, value: string): (r: Bag) {
    var key := Norm(name);
    if key !in b.fields then Bag(b.fields[key := [value]])
    else Bag(b.fields[key := b.fields[key] + [value]])
  }

  function Delete(b: Bag, name: string): (r: Bag) {
    Bag(b.fields - {Norm(name)})
  }

  /** The most recently stored value, or none. */
  function Get(b: Bag, name: string): (r: Option<string>)
    ensures r.Some? ==> r.value in GetAll(b, name)
  {
    var key := Norm(name);
    if key !in b.fields || |b.fields[key]| == 0 then None
    else Some(b.fields[key][|b.fields[key]| - 1])
  }

  /** All values of the field in insertion order (a copy: the bag is a
      value here, so the caller can never alias it). */
  function GetAll(b: Bag, name: string): seq<string> {
    var key := Norm(name);
    if key in b.fields then b.fields[key] else []
  }

  predicate Has(b: Bag, name: string) {
    Norm(name) in b.fields
  }

  /** Two spellings name the same field exactly when they agree after
      lower-casing. */
  predicate SameField(a: string, b: string) {
    Norm(a) == Norm(b)
  }

  /** `set` leaves exactly one value, visible under every spelling of the
      name; other fields are untouched. */
  lemma SetThenRead(b: Bag, name: string, value: string, other: string)
    ensures SameField(name, other) ==> GetAll(Set(b, name, value), other) == [value]
    ensures SameField(name, other) ==> Get(Set(b, name, value), other) == Some(value)
    ensures !SameField(name, other) ==> GetAll(Set(b, name, value), other) == GetAll(b, other)
    ensures Has(Set(b, name, value), other) <==> SameField(name, other) || Has(b, other)
  {
  }

  /** `append` adds the value at the end, keeping earlier ones, and makes
      it the value `get` answers; other fields are untouched. */
  lemma AppendThenRead(b: Bag, name: string, value: string, other: string)
    ensures SameField(name, other) ==> GetAll(Append(b, name, value), other) == GetAll(b, other) + [value]
    ensures SameField(name, other) ==> Get(Append(b, name, value), other) == Some(value)
    ensures !SameField(name, other) ==> GetAll(Append(b, name, value), other) == GetAll(b, other)
  {
  }

  /** After `delete` the field is gone under every spelling; other fields
      are untouched. */
  lemma DeleteThenRead(b: Bag, name: string, other: string)
    ensures SameField(name, other) ==> !Has(Delete(b, name), other) && Get(Delete(b, name), other) == None
    ensures SameField(name, other) ==> GetAll(Delete(b, name), other) == []
    ensures !SameField(name, other) ==> GetAll(Delete(b, name), other) == GetAll(b, other)
  {
  }

  /** After `reset` no field is present. */
  lemma ResetEmpties(b: Bag, name: string)
    ensures !Has(Reset(b), name) && Get(Reset(b), name) == None && GetAll(Reset(b), name) == []
  {
  }

  /** The mutating operations keep every stored field non-empty, so in a
      valid bag `get` answers exactly for the fields `has` reports. */
  lemma OperationsKeepValid(b: Bag, name: string, value: string)
    requires Valid(b)
    ensures Valid(Set(b, name, value)) && Valid(Append(b, name, value)) && Valid(Delete(b, name)) && Valid(Reset(b))
    ensures Get(b, name).Some? <==> Has(b, name)
  {
  }

  /** The request's headers as the runtime's `Headers` object holds them:
      lower-cased name to the combined value. */
  datatype RequestView = RequestView(combined: map<string, string>)

  function ViewGet(v: RequestView, name: string): Option<string> {
    if Norm(name) in v.combined then Some(v.combined[Norm(name)]) else None
  }

  /** A `HeaderRef` reaches either the request view, which is read-only,
      or the response bag. */
  datatype Target = ReadOnly(view: RequestView) | Mutable(bag: Bag)

  datatype Ref = Ref(target: Target, name: string)

  function RefGet(r: Ref): Option<string> {
    match r.target
    case ReadOnly(v) => ViewGet(v, r.name)
    case Mutable(b) => Get(b, r.name)
  }

  function ReadOnlyMessage(name: string): string {
    "Header \"" + name + "\" is read-only in this context."
  }

  datatype RefOp = SetValue(value: string) | AppendValue(value: string) | DeleteField

  /** A write through a ref: refused on the read-only view, otherwise
      applied to the bag under the ref's name. */
  function RefWrite(r: Ref, op: RefOp): (res: Result<Ref, string>)
    ensures res.Err? <==> r.target.ReadOnly?
    ensures res.Err? ==> res.error == ReadOnlyMessage(r.name)
    ensures res.Ok? ==> res.value.name == r.name && res.value.target.Mutable?
    ensures res.Ok? && op.SetValue? ==> RefGet(res.value) == Some(op.value)
    ensures res.Ok? && op.AppendValue? ==> GetAll(res.value.target.bag, r.name) == GetAll(r.target.bag, r.name) + [op.value]
    ensures res.Ok? && op.DeleteField? ==> RefGet(res.value) == None
  {
    match r.target
    case ReadOnly(_) => Err(ReadOnlyMessage(r.name))
    case Mutable(b) =>
      var b1 :=
        match op
        case SetValue(v) => Set(b, r.name, v)
        case AppendValue(v) => Append(b, r.name, v)
        case DeleteField => Delete(b, r.name);
      Ok(Ref(Mutable(b1), r.name))
  }
}
