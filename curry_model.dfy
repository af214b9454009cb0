/** A currying adapter around a data-model constructor (upto/pydantic_tools/curry_model.py).

    The adapter holds a model schema and a cache of keyword arguments. Each call
    validates every supplied (field, value) pair against the schema, then merges all
    of them into the cache, and builds a model instance as soon as the cache holds
    exactly the schema's fields; until then it hands back the adapter itself.

    The model library is abstract here: a schema maps every field name to a
    validation rule and an optional default, and building the model validates every
    field once more. */
module Curry {

  type FieldName = string

  datatype Option<T> = None | Some(value: T)

  /** One field of the model. `validate` either rejects a value (None) or accepts it
      and yields the value the model stores for it (possibly coerced). A field without
      a default is required. */
  datatype FieldInfo<!V> = FieldInfo(validate: V -> Option<V>, default: Option<V>)
  {
    predicate IsRequired() { default.None? }
  }

  /** The model's fields, by name. */
  type Schema<!V> = map<FieldName, FieldInfo<V>>

  /** The adapter's accumulated keyword arguments. */
  type Cache<V> = map<FieldName, V>

  /** The keyword arguments of one call, in the order the caller wrote them. */
  type Kwargs<V> = seq<(FieldName, V)>

  /** What a call produces: the adapter itself (more fields are needed), a model
      instance, or a validation error naming the offending fields. */
  datatype Outcome<V> =
    | Adapter
    | Instance(values: map<FieldName, V>)
    | ValidationError(fields: set<FieldName>)

  /** The result of one call together with the cache it leaves behind. */
  datatype Transition<V> = Transition(outcome: Outcome<V>, cache: Cache<V>)

  /** Validates one assignment against the model. This model assumes that the
      library's assignment validator rejects a name the model does not declare
      (which does not hold for a model that allows extra fields). */
  function ValidateField<V>(schema: Schema<V>, field: FieldName, value: V): (r: Option<V>)
    ensures r.Some? ==> field in schema
  {
    if field in schema then schema[field].validate(value) else None
  }

  predicate Accepts<V>(schema: Schema<V>, pair: (FieldName, V)) {
    ValidateField(schema, pair.0, pair.1).Some?
  }

  /** The position of the first pair of a call that the model rejects, if any. */
  function FirstRejected<V>(schema: Schema<V>, kwargs: Kwargs<V>): (r: Option<nat>)
    ensures r.None? <==> forall i :: 0 <= i < |kwargs| ==> Accepts(schema, kwargs[i])
    ensures r.Some? ==>
      && r.value < |kwargs|
      && !Accepts(schema, kwargs[r.value])
      && forall j :: 0 <= j < r.value ==> Accepts(schema, kwargs[j])
    decreases |kwargs|
  {
    if kwargs == [] then None
    else if !Accepts(schema, kwargs[0]) then Some(0)
    else match FirstRejected(schema, kwargs[1..])
      case None => None
      case Some(i) => Some(i + 1)
  }

  /** The field names a call supplies. */
  function KeysOf<V>(kwargs: Kwargs<V>): set<FieldName> {
    set i | 0 <= i < |kwargs| :: kwargs[i].0
  }

  /** Pair `i` is the last one of the call that names its field. */
  predicate IsLastFor<V>(kwargs: Kwargs<V>, i: nat)
    requires i < |kwargs|
  {
    forall j :: i < j < |kwargs| ==> kwargs[j].0 != kwargs[i].0
  }

  /** The dictionary update of the cache with a call's keyword arguments:
      supplied fields take the supplied value (the last one, for a repeated name),
      every other field keeps its value, and no field is removed. */
  function Update<V>(cache: Cache<V>, kwargs: Kwargs<V>): (r: Cache<V>)
    ensures r.Keys == cache.Keys + KeysOf(kwargs)
    ensures forall k :: k in cache && k !in KeysOf(kwargs) ==> r[k] == cache[k]
    ensures forall i :: 0 <= i < |kwargs| && IsLastFor(kwargs, i) ==> r[kwargs[i].0] == kwargs[i].1
    decreases |kwargs|
  {
    if kwargs == [] then cache
    else
      var n := |kwargs| - 1;
      var front, last := kwargs[..n], kwargs[n];
      assert kwargs == front + [last];
      KeysOfSnoc(front, last);
      LastForSnoc(front, last);
      Update(cache, front)[last.0 := last.1]
  }

  lemma KeysOfSnoc<V>(front: Kwargs<V>, last: (FieldName, V))
    ensures KeysOf(front + [last]) == KeysOf(front) + {last.0}
  {
    var kwargs := front + [last];
    assert kwargs[|front|] == last;
    forall k | k in KeysOf(front) ensures k in KeysOf(kwargs) {
      var i :| 0 <= i < |front| && front[i].0 == k;
      assert kwargs[i] == front[i];
    }
  }

  lemma LastForSnoc<V>(front: Kwargs<V>, last: (FieldName, V))
    ensures forall i :: 0 <= i < |front| && IsLastFor(front + [last], i) ==>
      IsLastFor(front, i) && front[i].0 != last.0
  {
    var kwargs := front + [last];
    forall i | 0 <= i < |front| && IsLastFor(kwargs, i)
      ensures IsLastFor(front, i) && front[i].0 != last.0
    {
      assert kwargs[|front|] == last;
      assert forall j :: i < j < |front| ==> kwargs[j] == front[j];
    }
  }

  /** Building the model from a complete set of keyword arguments: the model
      validates every field and either yields an instance holding the validated
      values or reports every field whose value it rejects. */
  function Construct<V>(schema: Schema<V>, values: Cache<V>): (r: Outcome<V>)
    requires values.Keys == schema.Keys
    ensures !r.Adapter?
    ensures r.Instance? <==> forall k :: k in values ==> Accepts(schema, (k, values[k]))
    ensures r.Instance? ==>
      && r.values.Keys == schema.Keys
      && forall k :: k in r.values ==> ValidateField(schema, k, values[k]) == Some(r.values[k])
    ensures r.ValidationError? ==>
      && r.fields != {}
      && forall k :: k in r.fields <==> k in values && !Accepts(schema, (k, values[k]))
  {
    var rejected := set k | k in values && schema[k].validate(values[k]).None?;
    if rejected == {} then
      assert forall k :: k in values ==> k !in rejected;
      Instance(map k | k in values :: schema[k].validate(values[k]).value)
    else
      ValidationError(rejected)
  }

  /** The cache an adapter starts with: in eager mode every optional field
      mapped to its default, in lazy mode nothing. */
  function InitialCache<V>(schema: Schema<V>, eager: bool): (c: Cache<V>)
    ensures !eager ==> c == map[]
    ensures eager ==> c.Keys == set k | k in schema && !schema[k].IsRequired()
    ensures forall k :: k in c ==> k in schema && schema[k].default == Some(c[k])
  {
    if eager then map k | k in schema && !schema[k].IsRequired() :: schema[k].default.value
    else map[]
  }

  /** The cache a call leaves behind: the old one when some pair is rejected,
      the merged one otherwise. */
  function Commit<V>(schema: Schema<V>, cache: Cache<V>, kwargs: Kwargs<V>): Cache<V> {
    if FirstRejected(schema, kwargs).Some? then cache else Update(cache, kwargs)
  }

  /** One call of the adapter on the cache `cache`. Every pair is validated before
      anything is merged, so a rejected pair leaves the cache exactly as it was, even
      for the pairs before it. Otherwise all pairs are merged, and the model is built
      exactly when the cache then holds the schema's fields and no others. */
  function Step<V>(schema: Schema<V>, cache: Cache<V>, kwargs: Kwargs<V>): (t: Transition<V>)
    ensures t.cache == Commit(schema, cache, kwargs)
    ensures cache.Keys <= t.cache.Keys
    ensures cache.Keys <= schema.Keys ==> t.cache.Keys <= schema.Keys
    ensures FirstRejected(schema, kwargs).Some? ==>
      t == Transition(ValidationError({kwargs[FirstRejected(schema, kwargs).value].0}), cache)
    ensures FirstRejected(schema, kwargs).None? ==>
      && t.cache == Update(cache, kwargs)
      && (t.cache.Keys != schema.Keys ==> t.outcome == Adapter)
      && (t.cache.Keys == schema.Keys ==> t.outcome == Construct(schema, t.cache))
    ensures t.outcome.Instance? ==> t.cache.Keys == schema.Keys && t.outcome == Construct(schema, t.cache)
  {
    match FirstRejected(schema, kwargs)
    case Some(i) => Transition(ValidationError({kwargs[i].0}), cache)
    case None =>
      assert KeysOf(kwargs) <= schema.Keys by {
        forall k | k in KeysOf(kwargs) ensures k in schema {
          var i :| 0 <= i < |kwargs| && kwargs[i].0 == k;
          assert Accepts(schema, kwargs[i]);
        }
      }
      var merged := Update(cache, kwargs);
      if merged.Keys == schema.Keys then Transition(Construct(schema, merged), merged)
      else Transition(Adapter, merged)
  }

  /** The adapter. `cache` is the only state a call changes. */
  class CurryModel<V> {
    const schema: Schema<V>
    const eager: bool
    var cache: Cache<V>

    /** Every cached field is a field of the model. */
    ghost predicate Valid()
      reads this
    {
      cache.Keys <= schema.Keys
    }

    constructor (schema: Schema<V>, eager: bool := true)
      ensures this.schema == schema && this.eager == eager
      ensures cache == InitialCache(schema, eager)
      ensures Valid()
    {
      this.schema := schema;
      this.eager := eager;
      cache := InitialCache(schema, eager);
    }

    /** Validates every pair of a call in order, stopping at the first one the
        model rejects; nothing is stored. */
    method ValidateAll(kwargs: Kwargs<V>) returns (rejected: Option<nat>)
      ensures rejected == FirstRejected(schema, kwargs)
    {
      var i := 0;
      while i < |kwargs|
        invariant 0 <= i <= |kwargs|
        invariant forall j :: 0 <= j < i ==> Accepts(schema, kwargs[j])
      {
        var (field, value) := kwargs[i];
        if ValidateField(schema, field, value).None? {
          return Some(i);
        }
        i := i + 1;
      }
      return None;
    }

    /** One call of the adapter: validate every pair, then merge them all into the
        cache, then build the model if the cache is complete. */
    method Call(kwargs: Kwargs<V>) returns (r: Outcome<V>)
      requires Valid()
      modifies this
      ensures Valid()
      ensures Transition(r, cache) == Step(schema, old(cache), kwargs)
    {
      var rejected := ValidateAll(kwargs);
      if rejected.Some? {
        return ValidationError({kwargs[rejected.value].0});
      }
      cache := Update(cache, kwargs);
      if cache.Keys == schema.Keys {
        r := Construct(schema, cache);
      } else {
        r := Adapter;
      }
    }
  }
}
