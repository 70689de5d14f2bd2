/** The composable value validators of src/ValidationUtils.ts. A
    validator is a total function from a JavaScript value to either the
    (possibly transformed) value or a ValidationError message; a chain of
    validators runs left to right and stops at the first error. Numbers
    are integers here: the floating-point and date validators are not
    part of this model. */
module Validation {
  import opened Wrappers
  import opened Text

  /** The JavaScript values the validators inspect. Objects are keyed
      property maps; their key order is not modelled. */
  datatype Value =
    | Undefined
    | Null
    | Bool(b: bool)
    | Num(n: int)
    | Str(s: string)
    | Arr(items: seq<Value>)
    | Obj(fields: map<string, Value>)

  /** A validator: a value in, a value or an error message out. */
  type Validator = Value -> Result<Value, string>

  /** `isEmptyValue`: undefined, null, or a string of white space only. */
  predicate IsEmpty(v: Value) {
    v.Undefined? || v.Null? || (v.Str? && Trim(v.s) == "")
  }

  /** Trim leaves nothing exactly when every character is white space. */
  lemma {:induction false} TrimEmptyIff(s: string)
    ensures Trim(s) == "" <==> forall i :: 0 <= i < |s| ==> IsSpace(s[i])
  {
    var t := TrimStart(s);
    assert Trim(s) == TrimEnd(t);
    if forall i :: 0 <= i < |s| ==> IsSpace(s[i]) {
      if |t| > 0 {
        assert t[0] == s[|s| - |t|];
      }
    } else {
      var i :| 0 <= i < |s| && !IsSpace(s[i]);
      assert i >= |s| - |t|;
      assert t[i - (|s| - |t|)] == s[i];
    }
  }

  /** A value is empty exactly when it is undefined, null, or a string
      made only of white space. */
  lemma IsEmptyIff(v: Value)
    ensures IsEmpty(v) <==> (v.Undefined? || v.Null?
                             || (v.Str? && forall i :: 0 <= i < |v.s| ==> IsSpace(v.s[i])))
  {
    if v.Str? {
      TrimEmptyIff(v.s);
    }
  }

  /** Runs validators left to right, each on the previous one's output
      (the loop shared by `rawValidate` and `optional`). */
  function Run(fns: seq<Validator>, v: Value): (r: Result<Value, string>)
    ensures fns == [] ==> r == Ok(v)
    decreases |fns|
  {
    if fns == [] then Ok(v)
    else
      match fns[0](v)
      case Err(e) => Err(e)
      case Ok(w) => Run(fns[1..], w)
  }

  /** Chaining two lists is running the first and then the second on its
      output. */
  lemma {:induction false} RunAppend(f: seq<Validator>, g: seq<Validator>, v: Value)
    ensures Run(f + g, v) == (match Run(f, v) case Err(e) => Err(e) case Ok(w) => Run(g, w))
    decreases |f|
  {
    if f == [] {
      assert f + g == g;
    } else {
      assert (f + g)[0] == f[0];
      assert (f + g)[1..] == f[1..] + g;
      match f[0](v)
      case Err(e) =>
      case Ok(w) => RunAppend(f[1..], g, w);
    }
  }

  /** `optional(...fns)`. */
  function Optional(fns: seq<Validator>, v: Value): (r: Result<Value, string>)
    ensures IsEmpty(v) ==> r == Ok(Undefined)
    ensures !IsEmpty(v) && fns == [] ==> r == Ok(v)
    ensures !IsEmpty(v) && |fns| > 0 && fns[0](v).Err? ==> r == Err(fns[0](v).error)
  {
    if IsEmpty(v) then Ok(Undefined) else Run(fns, v)
  }

  /** `defaultTo(d)`. */
  function DefaultTo(d: Value, v: Value): (r: Result<Value, string>)
    ensures r.Ok?
    ensures IsEmpty(v) ==> r.value == d
    ensures !IsEmpty(v) ==> r.value == v
  {
    if IsEmpty(v) then Ok(d) else Ok(v)
  }

  const RequiredMessage := "Value is required"

  /** `required(message)`. */
  function Required(message: string, v: Value): (r: Result<Value, string>)
    ensures r.Err? <==> IsEmpty(v)
    ensures r.Err? ==> r.error == message
    ensures r.Ok? ==> r.value == v
  {
    if IsEmpty(v) then Err(message) else Ok(v)
  }

  /** A non-empty default in front of `required` makes the chain total:
      it yields the default for empty input and the input otherwise. */
  lemma DefaultThenRequired(d: Value, message: string, v: Value)
    requires !IsEmpty(d)
    ensures Run([(x: Value) => DefaultTo(d, x), (x: Value) => Required(message, x)], v)
            == Ok(if IsEmpty(v) then d else v)
  {
    var fns := [(x: Value) => DefaultTo(d, x), (x: Value) => Required(message, x)];
    assert fns[1..][1..] == [];
  }

  /** `optional` of a chain that starts with `required` never reports the
      requirement: empty input is answered before the chain runs. */
  lemma OptionalShieldsRequired(message: string, rest: seq<Validator>, v: Value)
    ensures Optional([(x: Value) => Required(message, x)] + rest, v)
            == (if IsEmpty(v) then Ok(Undefined) else Run(rest, v))
  {
    var req: Validator := (x: Value) => Required(message, x);
    if !IsEmpty(v) {
      RunAppend([req], rest, v);
      assert [req][1..] == [];
    }
  }

  /** The first successful choice, or the error messages of those that
      failed (`oneOfValidators`' loop). */
  function FirstSuccess(choices: seq<Validator>, v: Value): (r: Result<Value, seq<string>>)
    ensures r.Ok? <==> exists i :: 0 <= i < |choices| && choices[i](v).Ok?
    ensures r.Ok? ==> ((exists i :: (0 <= i < |choices| && choices[i](v).Ok? && r.value == choices[i](v).value
                                   && forall j :: 0 <= j < i ==> choices[j](v).Err?)))
    ensures r.Err? ==> ((|r.error| == |choices|
      && forall i :: 0 <= i < |choices| ==> r.error[i] == choices[i](v).error))
    decreases |choices|
  {
    if choices == [] then Err([])
    else
      match choices[0](v)
      case Ok(w) => Ok(w)
      case Err(e) =>
        var rest := FirstSuccess(choices[1..], v);
        if rest.Ok? then
          assert forall i :: 1 <= i < |choices| ==> choices[i] == choices[1..][i - 1];
          rest
        else Err([e] + rest.error)
  }

  const NoneMatchedMessage := "No validators matched"

  /** `oneOfValidators(...choices)`. */
  function OneOfValidators(choices: seq<Validator>, v: Value): (r: Result<Value, string>)
    ensures r.Ok? <==> exists i :: 0 <= i < |choices| && choices[i](v).Ok?
    ensures choices == [] ==> r == Err(NoneMatchedMessage)
    ensures r.Err? && choices != [] ==>
      r.error == Join(seq(|choices|, i requires 0 <= i < |choices| => choices[i](v).error), " OR ")
  {
    match FirstSuccess(choices, v)
    case Ok(w) => Ok(w)
    case Err(msgs) =>
      assert msgs == seq(|choices|, i requires 0 <= i < |choices| => choices[i](v).error);
      if |msgs| > 0 then Err(Join(msgs, " OR ")) else Err(NoneMatchedMessage)
  }

  /** The first choice that succeeds decides the result, whatever the
      later ones would say. */
  lemma OneOfPicksFirst(choices: seq<Validator>, v: Value, i: nat)
    requires i < |choices| && choices[i](v).Ok?
    requires forall j :: 0 <= j < i ==> choices[j](v).Err?
    ensures OneOfValidators(choices, v) == choices[i](v)
  {
    var r := FirstSuccess(choices, v);
    var k :| 0 <= k < |choices| && choices[k](v).Ok? && r.value == choices[k](v).value && forall j :: 0 <= j < k ==> choices[j](v).Err?;
    assert k == i;
  }

  const ExpectedString := "Expected a string"

  /** `minLength(n, message)`. */
  function MinLength(n: int, message: Option<string>, v: Value): (r: Result<Value, string>)
    ensures !v.Str? ==> r == Err(ExpectedString)
    ensures v.Str? ==> (r.Err? <==> |v.s| < n)
    ensures r.Ok? ==> r.value == v
    ensures v.Str? && |v.s| < n ==>
      r.error == message.GetOr("Must be at least " + IntToString(n) + " characters")
  {
    if !v.Str? then Err(ExpectedString)
    else if |v.s| < n then Err(message.GetOr("Must be at least " + IntToString(n) + " characters"))
    else Ok(v)
  }

  /** `maxLength(n, message)`. */
  function MaxLength(n: int, message: Option<string>, v: Value): (r: Result<Value, string>)
    ensures !v.Str? ==> r == Err(ExpectedString)
    ensures v.Str? ==> (r.Err? <==> |v.s| > n)
    ensures r.Ok? ==> r.value == v
    ensures v.Str? && |v.s| > n ==>
      r.error == message.GetOr("Must be at most " + IntToString(n) + " characters")
  {
    if !v.Str? then Err(ExpectedString)
    else if |v.s| > n then Err(message.GetOr("Must be at most " + IntToString(n) + " characters"))
    else Ok(v)
  }

  /** Both bounds at the same `n` admit exactly the strings of length `n`. */
  lemma ExactLength(n: int, v: Value)
    ensures Run([(x: Value) => MinLength(n, None, x), (x: Value) => MaxLength(n, None, x)], v).Ok?
            <==> v.Str? && |v.s| == n
  {
    var fns := [(x: Value) => MinLength(n, None, x), (x: Value) => MaxLength(n, None, x)];
    assert fns[1..][1..] == [];
  }

  const TrueWords: seq<string> := ["true", "1", "yes", "y", "on"]
  const FalseWords: seq<string> := ["false", "0", "no", "n", "off"]
  const ExpectedBoolean := "Expected a boolean"

  /** `asBoolean(message)`. */
  function AsBoolean(message: string, v: Value): (r: Result<Value, string>)
    ensures r.Ok? ==> r.value.Bool?
    ensures v.Bool? ==> r == Ok(v)
    ensures v.Num? ==> r == Ok(Bool(v.n != 0))
    ensures v.Str? ==> (r == Ok(Bool(true)) <==> ToLower(Trim(v.s)) in TrueWords)
    ensures v.Str? ==> (r == Ok(Bool(false)) <==> ToLower(Trim(v.s)) in FalseWords)
    ensures r.Err? <==> !(v.Bool? || v.Num?
                          || (v.Str? && (ToLower(Trim(v.s)) in TrueWords || ToLower(Trim(v.s)) in FalseWords)))
    ensures r.Err? ==> r.error == message
  {
    WordsDisjoint();
    match v
    case Bool(_) => Ok(v)
    case Num(n) => Ok(Bool(n != 0))
    case Str(s) =>
      var t := ToLower(Trim(s));
      if t in TrueWords then Ok(Bool(true))
      else if t in FalseWords then Ok(Bool(false))
      else Err(message)
    case _ => Err(message)
  }

  /** No word reads as both true and false. */
  lemma WordsDisjoint()
    ensures forall w :: w in TrueWords ==> w !in FalseWords
  {
  }

  /** The canonical spellings read back as the boolean they name. */
  lemma AsBooleanRoundTrip(b: bool, message: string)
    ensures AsBoolean(message, Str(if b then "true" else "false")) == Ok(Bool(b))
  {
    var s := if b then "true" else "false";
    assert !IsSpace(s[0]) && !IsSpace(s[|s| - 1]);
    assert Trim(s) == s;
    assert ToLower(s) == s;
    assert s == TrueWords[0] || s == FalseWords[0];
  }

  /** Reading an accepted value again changes nothing. */
  lemma AsBooleanIdempotent(message: string, v: Value)
    ensures AsBoolean(message, v).Ok? ==> AsBoolean(message, AsBoolean(message, v).value) == AsBoolean(message, v)
  {
  }

  /** Defaulting twice is defaulting once. */
  lemma DefaultToIdempotent(d: Value, v: Value)
    ensures DefaultTo(d, DefaultTo(d, v).value) == DefaultTo(d, v)
  {
  }

  /** The choices `oneOf` accepts: strings and numbers. */
  datatype Choice = Text(text: string) | Number(number: int) {
    function AsValue(): Value {
      match this
      case Text(t) => Str(t)
      case Number(n) => Num(n)
    }
    function Show(): string {
      match this
      case Text(t) => t
      case Number(n) => IntToString(n)
    }
  }

  /** `oneOf(values, message)`. */
  function OneOf(values: seq<Choice>, message: Option<string>, v: Value): (r: Result<Value, string>)
    ensures r.Ok? <==> exists i :: 0 <= i < |values| && values[i].AsValue() == v
    ensures r.Ok? ==> r.value == v
    ensures r.Err? ==> r.error == message.GetOr(
      "Must be one of: " + Join(seq(|values|, i requires 0 <= i < |values| => values[i].Show()), ", "))
  {
    if exists i :: 0 <= i < |values| && values[i].AsValue() == v then Ok(v)
    else Err(message.GetOr(
      "Must be one of: " + Join(seq(|values|, i requires 0 <= i < |values| => values[i].Show()), ", ")))
  }

  /** `asArray`: an array as it is, anything else as a one-element array. */
  function AsArray(v: Value): (xs: seq<Value>)
    ensures v.Arr? ==> xs == v.items
    ensures !v.Arr? ==> xs == [v]
  {
    if v.Arr? then v.items else [v]
  }

  /** Applies one validator to every element, stopping at the first error. */
  function MapAll(item: Validator, xs: seq<Value>): (r: Result<seq<Value>, string>)
    ensures r.Ok? <==> forall i :: 0 <= i < |xs| ==> item(xs[i]).Ok?
    ensures r.Ok? ==> |r.value| == |xs| && forall i :: 0 <= i < |xs| ==> r.value[i] == item(xs[i]).value
    ensures r.Err? ==> ((exists i :: (0 <= i < |xs| && item(xs[i]).Err? && r.error == item(xs[i]).error
                                    && forall j :: 0 <= j < i ==> item(xs[j]).Ok?)))
    decreases |xs|
  {
    if xs == [] then Ok([])
    else
      match item(xs[0])
      case Err(e) => Err(e)
      case Ok(w) =>
        var rest := MapAll(item, xs[1..]);
        assert forall i :: 1 <= i < |xs| ==> xs[i] == xs[1..][i - 1];
        if rest.Err? then Err(rest.error) else Ok([w] + rest.value)
  }

  /** `asArrayOf(item, { min, max })`. */
  function AsArrayOf(item: Validator, min: Option<int>, max: Option<int>, v: Value): (r: Result<Value, string>)
    ensures r.Ok? <==> (MapAll(item, AsArray(v)).Ok?
                        && (min.Some? ==> |AsArray(v)| >= min.value)
                        && (max.Some? ==> |AsArray(v)| <= max.value))
    ensures r.Ok? ==> ((r.value.Arr? && |r.value.items| == |AsArray(v)|
      && forall i :: 0 <= i < |AsArray(v)| ==> r.value.items[i] == item(AsArray(v)[i]).value))
    ensures MapAll(item, AsArray(v)).Ok? && min.Some? && |AsArray(v)| < min.value ==>
      r == Err("Must have at least " + IntToString(min.value) + " items")
    ensures (MapAll(item, AsArray(v)).Ok? && (min.Some? ==> |AsArray(v)| >= min.value)
             && max.Some? && |AsArray(v)| > max.value) ==>
      r == Err("Must have at most " + IntToString(max.value) + " items")
  {
    var out :- MapAll(item, AsArray(v));
    if min.Some? && |out| < min.value then Err("Must have at least " + IntToString(min.value) + " items")
    else if max.Some? && |out| > max.value then Err("Must have at most " + IntToString(max.value) + " items")
    else Ok(Arr(out))
  }

  /** With an accepting item validator and no bounds, arrays pass through
      unchanged and a single value becomes a one-element array. */
  lemma AsArrayOfWraps(v: Value)
    ensures AsArrayOf((x: Value) => Ok(x), None, None, v) == Ok(if v.Arr? then v else Arr([v]))
  {
    var r := AsArrayOf((x: Value) => Ok(x), None, None, v);
    assert r.value.items == AsArray(v);
  }

  const ExpectedObject := "Expected an object"

  /** `asObject(message)`. */
  function AsObject(message: string, v: Value): (r: Result<map<string, Value>, string>)
    ensures r.Ok? <==> v.Obj?
    ensures r.Ok? ==> r.value == v.fields
    ensures r.Err? ==> r.error == message
  {
    if v.Obj? then Ok(v.fields) else Err(message)
  }

  /** A property read: absent keys read as undefined. */
  function Prop(fields: map<string, Value>, k: string): Value {
    if k in fields then fields[k] else Undefined
  }

  /** `pick(key, message)`. */
  function Pick(key: string, message: Option<string>, v: Value): (r: Result<Value, string>)
    ensures r.Ok? <==> v.Obj?
    ensures r.Ok? && key !in v.fields ==> r.value == Undefined
    ensures r.Ok? && key in v.fields ==> r.value == v.fields[key]
  {
    var obj :- AsObject(message.GetOr(ExpectedObject), v);
    Ok(Prop(obj, key))
  }

  /** The keys a schema names. */
  function SchemaKeys(schema: seq<(string, Validator)>): set<string> {
    set i | 0 <= i < |schema| :: schema[i].0
  }

  /** The message `shape` reports for a failing field. */
  function FieldMessage(k: string, msg: string): string {
    "Field \"" + k + "\": " + msg
  }

  /** `shape`'s loop: each schema field, in order, validated against the
      ORIGINAL object's property and written into the output. */
  function ShapeFields(schema: seq<(string, Validator)>, obj: map<string, Value>, out: map<string, Value>)
    : (r: Result<map<string, Value>, string>)
    ensures Shaped(schema, obj, out, r)
    ensures r.Ok? <==> forall i :: 0 <= i < |schema| ==> schema[i].1(Prop(obj, schema[i].0)).Ok?
    ensures r.Ok? ==> r.value.Keys == out.Keys + SchemaKeys(schema)
    ensures r.Ok? ==> forall k :: k in out && k !in SchemaKeys(schema) ==> r.value[k] == out[k]
    ensures r.Ok? ==> forall i :: (0 <= i < |schema| && schema[i].0 !in SchemaKeys(schema[i + 1..]) ==>
                                  r.value[schema[i].0] == schema[i].1(Prop(obj, schema[i].0)).value)
    ensures r.Err? ==> ((exists i :: (0 <= i < |schema|
                                    && schema[i].1(Prop(obj, schema[i].0)).Err?
                                    && r.error == FieldMessage(schema[i].0, schema[i].1(Prop(obj, schema[i].0)).error)
                                    && forall j :: 0 <= j < i ==> schema[j].1(Prop(obj, schema[j].0)).Ok?)))
    decreases |schema|
  {
    if schema == [] then Ok(out)
    else
      var (k, fn) := schema[0];
      match fn(Prop(obj, k))
      case Err(e) =>
        ShapedFirstFails(schema, obj, out);
        Err(FieldMessage(k, e))
      case Ok(w) =>
        var rest := ShapeFields(schema[1..], obj, out[k := w]);
        ShapedCons(schema, obj, out, rest);
        rest
  }

  /** What `ShapeFields(schema, obj, out)` promises of its result `r`. */
  ghost predicate Shaped(schema: seq<(string, Validator)>, obj: map<string, Value>, out: map<string, Value>,
                         r: Result<map<string, Value>, string>) {
    && (r.Ok? <==> forall i :: 0 <= i < |schema| ==> schema[i].1(Prop(obj, schema[i].0)).Ok?)
    && (r.Ok? ==> r.value.Keys == out.Keys + SchemaKeys(schema))
    && (r.Ok? ==> forall k :: k in out && k !in SchemaKeys(schema) ==> r.value[k] == out[k])
    && (r.Ok? ==> forall i :: (0 <= i < |schema| && schema[i].0 !in SchemaKeys(schema[i + 1..]) ==>
                               r.value[schema[i].0] == schema[i].1(Prop(obj, schema[i].0)).value))
    && (r.Err? ==> ((exists i :: (0 <= i < |schema|
                                && schema[i].1(Prop(obj, schema[i].0)).Err?
                                && r.error == FieldMessage(schema[i].0, schema[i].1(Prop(obj, schema[i].0)).error)
                                && forall j :: 0 <= j < i ==> schema[j].1(Prop(obj, schema[j].0)).Ok?))))
  }

  /** A first field that fails validation fails the whole shape. */
  lemma ShapedFirstFails(schema: seq<(string, Validator)>, obj: map<string, Value>, out: map<string, Value>)
    requires schema != [] && schema[0].1(Prop(obj, schema[0].0)).Err?
    ensures Shaped(schema, obj, out, Err(FieldMessage(schema[0].0, schema[0].1(Prop(obj, schema[0].0)).error)))
  {
  }

  /** A field that validates, followed by the rest of the schema. */
  lemma ShapedCons(schema: seq<(string, Validator)>, obj: map<string, Value>, out: map<string, Value>,
                   rest: Result<map<string, Value>, string>)
    requires schema != [] && schema[0].1(Prop(obj, schema[0].0)).Ok?
    requires Shaped(schema[1..], obj, out[schema[0].0 := schema[0].1(Prop(obj, schema[0].0)).value], rest)
    ensures Shaped(schema, obj, out, rest)
  {
    SchemaKeysTail(schema);
    var t := schema[1..];
    if rest.Err? {
      var i :| 0 <= i < |t| && t[i].1(Prop(obj, t[i].0)).Err?
             && rest.error == FieldMessage(t[i].0, t[i].1(Prop(obj, t[i].0)).error)
             && forall j :: 0 <= j < i ==> t[j].1(Prop(obj, t[j].0)).Ok?;
      assert schema[i + 1] == t[i];
      assert forall j :: 1 <= j < i + 1 ==> schema[j] == t[j - 1];
    } else {
      ShapedConsOk(schema, obj, out, rest.value);
    }
  }

  lemma ShapedConsOk(schema: seq<(string, Validator)>, obj: map<string, Value>, out: map<string, Value>,
                     rest: map<string, Value>)
    requires schema != [] && schema[0].1(Prop(obj, schema[0].0)).Ok?
    requires Shaped(schema[1..], obj, out[schema[0].0 := schema[0].1(Prop(obj, schema[0].0)).value], Ok(rest))
    ensures Shaped(schema, obj, out, Ok(rest))
  {
    SchemaKeysTail(schema);
    var k := schema[0].0;
    var t := schema[1..];
    var w := schema[0].1(Prop(obj, k)).value;
    assert forall i :: 0 <= i < |schema| ==> schema[i].1(Prop(obj, schema[i].0)).Ok? by {
      forall i | 0 <= i < |schema| ensures schema[i].1(Prop(obj, schema[i].0)).Ok? {
        if i > 0 { assert schema[i] == t[i - 1]; }
      }
    }
    forall i | 0 <= i < |schema| && schema[i].0 !in SchemaKeys(schema[i + 1..])
      ensures rest[schema[i].0] == schema[i].1(Prop(obj, schema[i].0)).value
    {
      if i == 0 {
        assert k in out[k := w] && k !in SchemaKeys(t);
      } else {
        assert schema[i] == t[i - 1] && schema[i + 1..] == t[i..];
      }
    }
  }

  /** The schema's keys are its head's key and its tail's keys. */
  lemma SchemaKeysTail(schema: seq<(string, Validator)>)
    requires schema != []
    ensures SchemaKeys(schema) == {schema[0].0} + SchemaKeys(schema[1..])
    ensures forall i :: 1 <= i < |schema| ==> schema[i] == schema[1..][i - 1]
    ensures forall i :: 1 <= i < |schema| ==> schema[i + 1..] == schema[1..][i..]
  {
    var t := schema[1..];
    forall k | k in SchemaKeys(schema) ensures k in {schema[0].0} + SchemaKeys(t) {
      var i :| 0 <= i < |schema| && schema[i].0 == k;
      if i > 0 { assert t[i - 1].0 == k; }
    }
    forall k | k in SchemaKeys(t) ensures k in SchemaKeys(schema) {
      var i :| 0 <= i < |t| && t[i].0 == k;
      assert schema[i + 1].0 == k;
    }
  }

  /** `shape(schema)`: only objects pass; the output is a copy of the
      object with each schema field replaced by its validated value. */
  function Shape(schema: seq<(string, Validator)>, v: Value): (r: Result<Value, string>)
    ensures !v.Obj? ==> r == Err(ExpectedObject)
    ensures v.Obj? ==> (r.Ok? <==> forall i :: 0 <= i < |schema| ==> schema[i].1(Prop(v.fields, schema[i].0)).Ok?)
    ensures r.Ok? ==> r.value.Obj? && r.value.fields.Keys == v.fields.Keys + SchemaKeys(schema)
    ensures r.Ok? ==> forall k :: k in v.fields && k !in SchemaKeys(schema) ==> r.value.fields[k] == v.fields[k]
    ensures r.Ok? ==> forall i :: (0 <= i < |schema| && schema[i].0 !in SchemaKeys(schema[i + 1..]) ==>
                                  r.value.fields[schema[i].0] == schema[i].1(Prop(v.fields, schema[i].0)).value)
    ensures v.Obj? && r.Err? ==> ((exists i :: (0 <= i < |schema|
                                    && schema[i].1(Prop(v.fields, schema[i].0)).Err?
                                    && r.error == FieldMessage(schema[i].0, schema[i].1(Prop(v.fields, schema[i].0)).error)
                                    && forall j :: 0 <= j < i ==> schema[j].1(Prop(v.fields, schema[j].0)).Ok?)))
  {
    var obj :- AsObject(ExpectedObject, v);
    var out :- ShapeFields(schema, obj, obj);
    Ok(Obj(out))
  }

  /** A schema whose validators all accept anything unchanged returns the
      object with its schema keys read (absent ones become undefined). */
  lemma ShapeOfIdentity(keys: seq<string>, fields: map<string, Value>)
    ensures var schema := seq(|keys|, i requires 0 <= i < |keys| => (keys[i], (x: Value) => Ok(x)));
      Shape(schema, Obj(fields)).Ok?
      && forall k :: k in fields ==> Shape(schema, Obj(fields)).value.fields[k] == fields[k]
  {
    var schema := seq(|keys|, i requires 0 <= i < |keys| => (keys[i], (x: Value) => Ok(x)));
    var r := Shape(schema, Obj(fields));
    assert r.Ok?;
    forall k | k in fields ensures r.value.fields[k] == fields[k] {
      if k in SchemaKeys(schema) {
        var i := LastIndex(schema, k);
        assert schema[i].1(Prop(fields, k)) == Ok(fields[k]);
      }
    }
  }

  /** The last position at which a key occurs in a schema. */
  lemma LastIndex(schema: seq<(string, Validator)>, k: string) returns (i: nat)
    requires k in SchemaKeys(schema)
    ensures i < |schema| && schema[i].0 == k && k !in SchemaKeys(schema[i + 1..])
    decreases |schema|
  {
    var t := schema[1..];
    SchemaKeysTail(schema);
    if k in SchemaKeys(t) {
      var j := LastIndex(t, k);
      i := j + 1;
    } else {
      i := 0;
    }
  }
}
