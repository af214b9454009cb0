# CurryModel in Dafny

A model of `CurryModel` from `upto/pydantic_tools/curry_model.py`: a currying
adapter around a Pydantic model constructor. The adapter keeps one piece of
mutable state, the keyword-argument cache. Each call validates every supplied
`field=value` pair against the model, then merges all of them into the cache
with one dictionary update, and then compares the cache's key set with the
model's field names. If they are equal, it builds and returns a model
instance. Otherwise it returns the adapter itself. In eager mode (the default)
the cache starts with every field that has a default, mapped to that default.
In lazy mode it starts empty.

Files:

- `curry_model.dfy`, module `Curry`: the schema, the cache and the outcome of
  a call as datatypes; the pure specification of a call (`Step`) and of its
  parts (`FirstRejected`, `Update`, `Commit`, `Construct`, `InitialCache`); and the class
  `CurryModel`, whose field `cache` is reassigned by `Call`.
- `curry_properties.dfy`, module `CurryProperties`: what holds across a
  series of calls (`Replay`): fields are never lost, every cached field is a
  model field, the last accepted assignment wins, a model instance cannot
  appear while a field is still missing, and one is built by the accepted call
  that supplies the last missing field.
- `curry_example.dfy`, module `CurryExample`: the model of the class docstring
  (`x: str`, `y: int`, `z: tuple[str, int]`), with a client session that
  curries it.

The Pydantic library is abstract. A schema maps each field name to a
`FieldInfo`. The `validate` rule of a `FieldInfo` either rejects a value
(`None`) or returns the value the model would store (`Some`, possibly
coerced). A field without a default is required. The model assumes that
validating one assignment rejects names the model does not declare, and that
building the model validates every field once more, with the same rule, and
reports every field it rejects. Both are assumptions about the library, not
facts about every Pydantic model (see "## Left out"). A Python exception is
modelled as the `ValidationError` outcome.

Validation is all-or-nothing. Its loop (lines 48-49) validates every pair
before the single `update` (line 51), so a call with any rejected pair leaves
the cache exactly as it was.

## Model

| member | source | states |
|---|---|---|
| `Curry.InitialCache` | upto/pydantic_tools/curry_model.py:30-34 | In lazy mode the initial cache is empty. In eager mode its key set is exactly the set of fields without a default, and each one maps to its declared default. |
| `Curry.CurryModel.constructor` | upto/pydantic_tools/curry_model.py:26-34 | The adapter keeps the model and the eagerness flag. It starts with the initial cache for that mode, and every cached key is a model field. |
| `Curry.ValidateField` | upto/pydantic_tools/curry_model.py:39-45 | Only a field the model declares can be accepted. Any other name is rejected. |
| `Curry.FirstRejected` | upto/pydantic_tools/curry_model.py:48-49 | Returns nothing exactly when every pair of the call is accepted. Otherwise it returns the position of a rejected pair, and every pair before that position is accepted. |
| `Curry.CurryModel.ValidateAll` | upto/pydantic_tools/curry_model.py:48-49 | The validation loop goes through the pairs in order. It stops at the first rejected pair and stores nothing. Its result is that first rejected position, or nothing. |
| `Curry.Update` | upto/pydantic_tools/curry_model.py:51 | The merged cache has the old keys plus the supplied ones. Every supplied field maps to its last supplied value. Every other field keeps its old value, and no key is removed. |
| `Curry.Construct` | upto/pydantic_tools/curry_model.py:53-54 | Building the model from a complete cache gives an instance exactly when every field's value is accepted. The instance has exactly the model's fields, each holding its validated value. Otherwise the result is an error that names exactly the rejected fields, and there is at least one. |
| `Curry.Step` | upto/pydantic_tools/curry_model.py:47-55 | If a pair is rejected, the call reports that field and the cache is unchanged, including pairs earlier in the same call. Otherwise the cache becomes the old cache overridden by the call's arguments, storing the supplied values. The call then returns the adapter when the key set differs from the model's fields, and builds the model when they are equal. An instance only comes from a complete cache. Keys are never removed, and the cache stays inside the model's fields. |
| `Curry.CurryModel.Call` | upto/pydantic_tools/curry_model.py:47-55 | The returned outcome and the new cache are those of `Step` on the old cache. The invariant that every cached key is a model field is kept. |
| `CurryProperties.ReplayKeepsFields` | upto/pydantic_tools/curry_model.py:51 | Over any series of calls, no field is removed from the cache. A cache inside the model's fields stays inside them. |
| `CurryProperties.ReplayFieldsAreSupplied` | upto/pydantic_tools/curry_model.py:30-51 | After any series of calls, the cached fields are exactly the fields of the initial cache plus every field some accepted call supplied. A rejected call contributes nothing, and no accepted field is lost. |
| `CurryProperties.LastPairFor` | upto/pydantic_tools/curry_model.py:51 | Every field a call names has a last pair naming it, which is the one `dict.update` keeps. |
| `CurryProperties.ReplayKeepsAccepted` | upto/pydantic_tools/curry_model.py:42-51 | If every cached value is accepted by its field's rule, this stays true over any series of calls, because only values that passed validation at line 42 are merged. |
| `CurryProperties.ReplayAcceptedValue` | upto/pydantic_tools/curry_model.py:42-51 | After any series of calls, a field that some accepted call supplied holds a value the model accepts, whatever its initial value was. A field no accepted call supplied keeps its initial value, so it is accepted when that value is. |
| `CurryProperties.SessionCompletes` | upto/pydantic_tools/curry_model.py:30-54 | Suppose the initial cache and the accepted calls, including the current one, supply every model field. Suppose also that, in eager mode, every default that no accepted call overrides is accepted. Then the current accepted call builds a model instance, and its cache is the replayed cache with that call added. A default that a call overrides need not be valid. |
| `CurryProperties.ReplayLastWriteWins` | upto/pydantic_tools/curry_model.py:48-51 | Take an accepted call that assigns `v` to field `k`, where no later accepted call names `k`. After all the calls, the cache holds `v` for `k`. This is the value the caller supplied, not the validator's result. |
| `CurryProperties.NoInstanceWhileFieldMissing` | upto/pydantic_tools/curry_model.py:30-55 | Suppose some model field is not in the initial cache, because the mode is lazy or the field has no default. Suppose no accepted call so far has supplied it, and the current call either is rejected or does not name it. Then the call returns the adapter, or it fails because a pair is rejected. It never builds the model. |
| `CurryProperties.EagerAllDefaultsComplete` | upto/pydantic_tools/curry_model.py:30-54 | In eager mode, when every field has a default, a first call with no arguments leaves the cache at the defaults and builds the model from them. The result is an instance exactly when the model accepts every default. |
| `CurryProperties.CommitKeeps` | upto/pydantic_tools/curry_model.py:48-51 | A call keeps a cached field's value unless the call is accepted and names that field. |
| `CurryProperties.CommitStores` | upto/pydantic_tools/curry_model.py:48-51 | An accepted call stores, for each field it names, the last value it supplies for it. |
| `CurryProperties.CompletingStep` | upto/pydantic_tools/curry_model.py:51-54 | An accepted call whose merge makes the key set equal to the model's fields returns the model built from the merged cache and keeps that cache. |
| `CurryProperties.OnePairCall` | upto/pydantic_tools/curry_model.py:48-51 | A call with one accepted pair sets exactly that field to the supplied value and leaves the rest of the cache alone. |
| `CurryExample.DocstringArgumentsBuild` | upto/pydantic_tools/curry_model.py:13-16 | The docstring's model built from `x="1"`, `y=2`, `z=("3", 4)` is an instance holding those values. |
| `CurryExample.DocstringSession` | upto/pydantic_tools/curry_model.py:11-23 | In the docstring's session, `(x="1")` and `(y=2)` return the adapter. Then `(z=("3", 4))` returns the instance with `x="1"`, `y=2`, `z=("3", 4)`. |
| `CurryExample.CoercedArgumentsBuild` | upto/pydantic_tools/curry_model.py:40-54 | Building the docstring's model from the strings `"2"` for `y` and `("3", "4")` for `z` gives an instance holding the coerced integers. |
| `CurryExample.TwoPairCall` | upto/pydantic_tools/curry_model.py:48-55 | A lazy adapter's call `(y="2", x="1")` stores both values as supplied and returns the adapter. |
| `CurryExample.RejectedSecondPair` | upto/pydantic_tools/curry_model.py:48-51 | The call `(x="9", y="two")` fails on `y`. It leaves the cache unchanged, so the accepted `x` is not stored either. |
| `CurryExample.CompletingCall` | upto/pydantic_tools/curry_model.py:51-54 | The call that supplies the last field stores the supplied tuple and builds the model from the coerced values. |
| `CurryExample.SuppliedValueIsCached` | upto/pydantic_tools/curry_model.py:40-55 | A client session on a lazy adapter shows three things. The cache keeps the string `"2"` the caller gave for `y`. A call with a rejected second pair changes nothing. The final call builds the instance with `y = 2`. |

## Left out

- Pydantic internals are not modelled: `validate_assignment` on a `model_construct()` instance, `model_fields` introspection, and the constructor call `model(**cache)`. They are replaced by the per-field rules of the schema. Rejecting unknown names comes from validating against a schema map. Model-level validators that relate several fields are not part of this model.
- The validator is an assumption, not Pydantic's full behaviour. (a) The model rejects every undeclared name, but a model configured with `extra='allow'` accepts one at line 42; line 51 then caches it, and the key-set test at line 53 can never succeed again. (b) One per-field rule serves both the assignment check (line 42) and the construction (line 54), so a value accepted on assignment is always accepted on construction; in Pydantic the two paths can differ (aliased fields are built by alias, frozen fields refuse assignment, field validators can read other fields). (c) A field named `self` cannot be passed to `__call__(self, **kwargs)`, since Python raises `TypeError` before line 48; the model accepts that name like any other.
- Error payloads are not modelled. A validation error carries only the rejected field names, not the reasons. Both the per-pair error and the construction error are the one `ValidationError` outcome, as both are Pydantic's `ValidationError`.
- Exceptions are not modelled as control flow. A call that raises returns `ValidationError` instead.
- Field declaration order is not modelled. The schema is a map, because the order only affects `__repr__` and the order in which construction errors are listed.
- `default_factory` fields are not modelled, nor is Pydantic's marker for "no default". A field is required exactly when its `FieldInfo` has no default.
- `SessionCompletes`: in eager mode it requires the model to accept every default that no accepted call overrides, because that default is what line 54 builds from. Pydantic does not validate defaults by default, so such a rejected default makes the completing call fail at line 54. That case is covered by `Construct`'s error outcome. A default that an accepted call overrides is never built, so it is not required to be valid.
- `__repr__` (line 36) is not modelled. It is display only.
- The generic `ModelType` parameter and the `Self | ModelType` return type are not modelled. They become the `Outcome` datatype: `Adapter`, `Instance(values)` or `ValidationError(fields)`.
- Concurrent use of one adapter is not modelled. The code has no synchronisation.
- Keyword arguments are an ordered sequence of pairs. Python never passes a repeated keyword. The model still allows one, and the last value wins, as `dict.update` would do.
