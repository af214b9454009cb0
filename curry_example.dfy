/** The model of the class docstring of upto/pydantic_tools/curry_model.py, with
    three required fields `x: str`, `y: int` and `z: tuple[str, int]`, and a
    client that curries it. */
module CurryExample {
  import opened Curry
  import opened CurryProperties

  datatype Value = Str(s: string) | Int(n: int) | Pair(first: Value, second: Value)

  predicate IsDecimal(s: string) {
    |s| > 0 && forall i :: 0 <= i < |s| ==> '0' <= s[i] <= '9'
  }

  function DecimalValue(s: string): nat
    requires IsDecimal(s) || s == []
    decreases |s|
  {
    if s == [] then 0
    else 10 * DecimalValue(s[..|s| - 1]) + (s[|s| - 1] - '0') as nat
  }

  /** A string field accepts strings only. */
  function StrRule(v: Value): Option<Value> {
    if v.Str? then Some(v) else None
  }

  /** An integer field accepts integers, and coerces a string of decimal digits. */
  function IntRule(v: Value): Option<Value> {
    match v
    case Int(_) => Some(v)
    case Str(s) => if IsDecimal(s) then Some(Int(DecimalValue(s))) else None
    case Pair(_, _) => None
  }

  /** A `tuple[str, int]` field validates each component by its own rule. */
  function PairRule(v: Value): Option<Value> {
    match v
    case Pair(a, b) =>
      (match (StrRule(a), IntRule(b))
       case (Some(a'), Some(b')) => Some(Pair(a', b'))
       case _ => None)
    case _ => None
  }

  function MyModel(): Schema<Value> {
    map["x" := FieldInfo(StrRule, None),
        "y" := FieldInfo(IntRule, None),
        "z" := FieldInfo(PairRule, None)]
  }

  /** Building the model from the docstring's arguments succeeds and keeps them. */
  lemma DocstringArgumentsBuild(values: Cache<Value>)
    requires values == map["x" := Str("1"), "y" := Int(2), "z" := Pair(Str("3"), Int(4))]
    ensures values.Keys == MyModel().Keys
    ensures Construct(MyModel(), values) == Instance(values)
  {
    var schema := MyModel();
    assert values.Keys == schema.Keys;
    forall k | k in values ensures ValidateField(schema, k, values[k]) == Some(values[k]) {
      if k == "x" { assert values[k] == Str("1"); }
      else if k == "y" { assert values[k] == Int(2); }
      else { assert k == "z"; }
    }
    var r := Construct(schema, values);
    assert r.Instance?;
    assert r.values == values;
  }

  /** The docstring's session: the first two calls hand back the adapter, the
      third builds the model from all three arguments. */
  method DocstringSession() returns (first: Outcome<Value>, second: Outcome<Value>, third: Outcome<Value>)
    ensures first == Adapter && second == Adapter
    ensures third == Instance(map["x" := Str("1"), "y" := Int(2), "z" := Pair(Str("3"), Int(4))])
  {
    var curried := new CurryModel(MyModel());
    ghost var schema := MyModel();
    assert schema.Keys == {"x", "y", "z"};
    assert curried.cache == map[] by {
      assert forall k :: k in schema ==> schema[k].IsRequired();
    }
    OnePairCall(schema, curried.cache, "x", Str("1"));
    first := curried.Call([("x", Str("1"))]);
    assert "y" !in curried.cache;
    OnePairCall(schema, curried.cache, "y", Int(2));
    second := curried.Call([("y", Int(2))]);
    assert "z" !in curried.cache;
    OnePairCall(schema, curried.cache, "z", Pair(Str("3"), Int(4)));
    third := curried.Call([("z", Pair(Str("3"), Int(4)))]);
    DocstringArgumentsBuild(curried.cache);
  }

  /** The model builds from the cached values by coercing them, while the
      cache itself keeps what the caller supplied. */
  lemma CoercedArgumentsBuild(values: Cache<Value>)
    requires values == map["x" := Str("1"), "y" := Str("2"), "z" := Pair(Str("3"), Str("4"))]
    ensures values.Keys == MyModel().Keys
    ensures Construct(MyModel(), values) == Instance(map["x" := Str("1"), "y" := Int(2), "z" := Pair(Str("3"), Int(4))])
  {
    var schema := MyModel();
    var built := map["x" := Str("1"), "y" := Int(2), "z" := Pair(Str("3"), Int(4))];
    assert values.Keys == schema.Keys;
    assert DecimalValue("2") == 2 && DecimalValue("4") == 4;
    forall k | k in values ensures ValidateField(schema, k, values[k]) == Some(built[k]) {
      if k == "x" { assert values[k] == Str("1"); }
      else if k == "y" { assert values[k] == Str("2"); }
      else { assert k == "z"; }
    }
    var r := Construct(schema, values);
    assert r.Instance?;
    assert r.values == built;
  }

  /** A call with two accepted pairs on an empty cache stores both values as
      supplied, and the model is not yet complete. */
  lemma TwoPairCall()
    ensures Step(MyModel(), map[], [("y", Str("2")), ("x", Str("1"))])
      == Transition(Adapter, map["y" := Str("2"), "x" := Str("1")])
  {
    var schema := MyModel();
    var kwargs := [("y", Str("2")), ("x", Str("1"))];
    assert IsDecimal("2");
    assert Accepts(schema, kwargs[0]) && Accepts(schema, kwargs[1]);
    assert KeysOf(kwargs) == {"y", "x"} by {
      assert kwargs[0].0 == "y" && kwargs[1].0 == "x";
    }
    assert IsLastFor(kwargs, 0) && IsLastFor(kwargs, 1);
    var t := Step(schema, map[], kwargs);
    assert t.cache == map["y" := Str("2"), "x" := Str("1")];
    assert "z" !in t.cache;
  }

  /** A call whose second pair is rejected fails without storing its first pair. */
  lemma RejectedSecondPair(cache: Cache<Value>)
    ensures Step(MyModel(), cache, [("x", Str("9")), ("y", Str("two"))])
      == Transition(ValidationError({"y"}), cache)
  {
    var schema := MyModel();
    var kwargs := [("x", Str("9")), ("y", Str("two"))];
    assert Accepts(schema, kwargs[0]);
    assert !IsDecimal("two") by { assert !('0' <= "two"[0] <= '9'); }
    assert !Accepts(schema, kwargs[1]);
    assert FirstRejected(schema, kwargs) == Some(1);
  }

  /** The call supplying the last field builds the model from the coerced values
      and stores the supplied one. */
  lemma CompletingCall(cache: Cache<Value>)
    requires cache == map["y" := Str("2"), "x" := Str("1")]
    ensures Step(MyModel(), cache, [("z", Pair(Str("3"), Str("4")))]) == Transition(
      Instance(map["x" := Str("1"), "y" := Int(2), "z" := Pair(Str("3"), Int(4))]),
      map["x" := Str("1"), "y" := Str("2"), "z" := Pair(Str("3"), Str("4"))])
  {
    var schema := MyModel();
    var kwargs := [("z", Pair(Str("3"), Str("4")))];
    assert FirstRejected(schema, kwargs).None? by {
      assert IsDecimal("4");
    }
    var merged := map["x" := Str("1"), "y" := Str("2"), "z" := Pair(Str("3"), Str("4"))];
    assert Update(cache, kwargs) == merged by {
      assert KeysOf(kwargs) == {"z"} by { assert kwargs[0].0 == "z"; }
      assert IsLastFor(kwargs, 0);
    }
    CoercedArgumentsBuild(merged);
    CompletingStep(schema, cache, kwargs);
  }

  /** The validator's coerced value is discarded: the cache keeps the string "2"
      the caller supplied for `y`, and only the model built at the end holds the
      integer 2. A call with a rejected pair changes nothing, not even the field
      named before the rejected one. */
  method SuppliedValueIsCached() returns (first: Outcome<Value>, cached: Value, rejected: Outcome<Value>, kept: Value, built: Outcome<Value>)
    ensures first == Adapter && cached == Str("2")
    ensures rejected == ValidationError({"y"}) && kept == Str("1")
    ensures built == Instance(map["x" := Str("1"), "y" := Int(2), "z" := Pair(Str("3"), Int(4))])
  {
    var curried := new CurryModel(MyModel(), false);
    TwoPairCall();
    first := curried.Call([("y", Str("2")), ("x", Str("1"))]);
    cached := curried.cache["y"];

    RejectedSecondPair(curried.cache);
    rejected := curried.Call([("x", Str("9")), ("y", Str("two"))]);
    kept := curried.cache["x"];

    CompletingCall(curried.cache);
    built := curried.Call([("z", Pair(Str("3"), Str("4")))]);
  }
}
