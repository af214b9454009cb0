/** Properties of an adapter across a series of calls. */
module CurryProperties {
  import opened Curry

  /** The cache after the calls `calls` are made in order, starting from `cache`. */
  function Replay<V>(schema: Schema<V>, cache: Cache<V>, calls: seq<Kwargs<V>>): Cache<V>
    decreases |calls|
  {
    if calls == [] then cache
    else Commit(schema, Replay(schema, cache, calls[..|calls| - 1]), calls[|calls| - 1])
  }

  /** Every field name that an accepted call (one with no rejected pair) supplies. */
  function AcceptedKeys<V>(schema: Schema<V>, calls: seq<Kwargs<V>>): set<FieldName>
    decreases |calls|
  {
    if calls == [] then {}
    else
      var last := calls[|calls| - 1];
      AcceptedKeys(schema, calls[..|calls| - 1])
        + (if FirstRejected(schema, last).None? then KeysOf(last) else {})
  }

  /** No call ever removes a field from the cache, and the cache never holds a
      field outside the model. */
  lemma {:induction false} ReplayKeepsFields<V>(schema: Schema<V>, cache: Cache<V>, calls: seq<Kwargs<V>>)
    ensures cache.Keys <= Replay(schema, cache, calls).Keys
    ensures cache.Keys <= schema.Keys ==> Replay(schema, cache, calls).Keys <= schema.Keys
    decreases |calls|
  {
    if calls != [] {
      ReplayKeepsFields(schema, cache, calls[..|calls| - 1]);
    }
  }

  /** The cached fields are exactly the initial ones and those some accepted call
      supplied: every accepted field is kept, and a rejected call contributes
      nothing. */
  lemma {:induction false} ReplayFieldsAreSupplied<V>(schema: Schema<V>, cache: Cache<V>, calls: seq<Kwargs<V>>)
    ensures Replay(schema, cache, calls).Keys == cache.Keys + AcceptedKeys(schema, calls)
    decreases |calls|
  {
    if calls != [] {
      ReplayFieldsAreSupplied(schema, cache, calls[..|calls| - 1]);
    }
  }

  /** No accepted call after call `i` names field `k`. */
  predicate NotReassignedAfter<V>(schema: Schema<V>, calls: seq<Kwargs<V>>, i: nat, k: FieldName) {
    forall l :: i < l < |calls| && FirstRejected(schema, calls[l]).None? ==> k !in KeysOf(calls[l])
  }

  /** The last accepted assignment to a field wins: if accepted call `i` assigns `v`
      to field `k` (as its last pair naming `k`), and no later accepted call names
      `k`, the cache holds `v` for `k` after all the calls. The value kept is the
      one the caller supplied, not the validator's coerced one. */
  lemma {:induction false} ReplayLastWriteWins<V>(
    schema: Schema<V>, cache: Cache<V>, calls: seq<Kwargs<V>>, i: nat, j: nat)
    requires i < |calls| && j < |calls[i]|
    requires FirstRejected(schema, calls[i]).None? && IsLastFor(calls[i], j)
    requires NotReassignedAfter(schema, calls, i, calls[i][j].0)
    ensures calls[i][j].0 in Replay(schema, cache, calls)
    ensures Replay(schema, cache, calls)[calls[i][j].0] == calls[i][j].1
    decreases |calls|
  {
    var n := |calls| - 1;
    var front := calls[..n];
    var before := Replay(schema, cache, front);
    if i < n {
      var k := calls[i][j].0;
      assert front[i] == calls[i];
      assert NotReassignedAfter(schema, front, i, k) by {
        assert forall l :: i < l < |front| ==> front[l] == calls[l];
      }
      ReplayLastWriteWins(schema, cache, front, i, j);
      assert FirstRejected(schema, calls[n]).None? ==> k !in KeysOf(calls[n]);
      CommitKeeps(schema, before, calls[n], k);
    } else {
      CommitStores(schema, before, calls[n], j);
    }
  }

  /** A call keeps a cached field unless it is accepted and names that field. */
  lemma CommitKeeps<V>(schema: Schema<V>, cache: Cache<V>, kwargs: Kwargs<V>, k: FieldName)
    requires k in cache
    requires FirstRejected(schema, kwargs).None? ==> k !in KeysOf(kwargs)
    ensures k in Commit(schema, cache, kwargs)
    ensures Commit(schema, cache, kwargs)[k] == cache[k]
  {
  }

  /** An accepted call stores the last value it supplies for a field. */
  lemma CommitStores<V>(schema: Schema<V>, cache: Cache<V>, kwargs: Kwargs<V>, j: nat)
    requires j < |kwargs| && FirstRejected(schema, kwargs).None? && IsLastFor(kwargs, j)
    ensures kwargs[j].0 in Commit(schema, cache, kwargs)
    ensures Commit(schema, cache, kwargs)[kwargs[j].0] == kwargs[j].1
  {
  }

  /** An accepted call that completes the cache builds the model from it. */
  lemma CompletingStep<V>(schema: Schema<V>, cache: Cache<V>, kwargs: Kwargs<V>)
    requires FirstRejected(schema, kwargs).None? && Update(cache, kwargs).Keys == schema.Keys
    ensures Step(schema, cache, kwargs) ==
      Transition(Construct(schema, Update(cache, kwargs)), Update(cache, kwargs))
  {
  }

  /** In lazy mode, or for a field without a default, no call can produce a
      model instance while no accepted call has supplied some field of the model:
      the call either hands back the adapter or rejects its arguments. */
  lemma NoInstanceWhileFieldMissing<V>(
    schema: Schema<V>, eager: bool, calls: seq<Kwargs<V>>, next: Kwargs<V>, k: FieldName)
    requires k in schema && (!eager || schema[k].IsRequired())
    requires k !in AcceptedKeys(schema, calls)
    requires FirstRejected(schema, next).None? ==> k !in KeysOf(next)
    ensures var t := Step(schema, Replay(schema, InitialCache(schema, eager), calls), next);
      t.outcome.Adapter? || (t.outcome.ValidationError? && FirstRejected(schema, next).Some?)
  {
    var init := InitialCache(schema, eager);
    ReplayFieldsAreSupplied(schema, init, calls);
    var before := Replay(schema, init, calls);
    assert k !in before;
  }

  /** Every cached value is one the model accepts for its field. */
  ghost predicate AllAccepted<V>(schema: Schema<V>, cache: Cache<V>) {
    forall k :: k in cache ==> Accepts(schema, (k, cache[k]))
  }

  /** Every field a call names has a last pair naming it. */
  lemma {:induction false} LastPairFor<V>(kwargs: Kwargs<V>, k: FieldName) returns (i: nat)
    requires k in KeysOf(kwargs)
    ensures i < |kwargs| && kwargs[i].0 == k && IsLastFor(kwargs, i)
    decreases |kwargs|
  {
    var n := |kwargs| - 1;
    var front, last := kwargs[..n], kwargs[n];
    if last.0 == k {
      i := n;
    } else {
      assert kwargs == front + [last];
      KeysOfSnoc(front, last);
      i := LastPairFor(front, k);
      assert kwargs[i] == front[i];
      assert forall j :: i < j < n ==> kwargs[j] == front[j];
    }
  }

  /** Accepted calls store only values the model accepts: a cache whose values
      all validate keeps that property over any series of calls. A lazy adapter
      starts from the empty cache, so all its cached values validate. */
  lemma {:induction false} ReplayKeepsAccepted<V>(schema: Schema<V>, cache: Cache<V>, calls: seq<Kwargs<V>>)
    requires AllAccepted(schema, cache)
    ensures AllAccepted(schema, Replay(schema, cache, calls))
    decreases |calls|
  {
    if calls != [] {
      var before := Replay(schema, cache, calls[..|calls| - 1]);
      var next := calls[|calls| - 1];
      ReplayKeepsAccepted(schema, cache, calls[..|calls| - 1]);
      if FirstRejected(schema, next).None? {
        var after := Update(before, next);
        forall k | k in after ensures Accepts(schema, (k, after[k])) {
          if k in KeysOf(next) {
            var i := LastPairFor(next, k);
            assert Accepts(schema, next[i]);
          }
        }
      }
    }
  }

  /** A cached field holds a value the model accepts once an accepted call has
      supplied it, or, if none has, when its initial value is accepted: the last
      accepted assignment replaces whatever was there before. */
  lemma {:induction false} ReplayAcceptedValue<V>(schema: Schema<V>, cache: Cache<V>, calls: seq<Kwargs<V>>, k: FieldName)
    requires k in cache.Keys + AcceptedKeys(schema, calls)
    requires k !in AcceptedKeys(schema, calls) ==> Accepts(schema, (k, cache[k]))
    ensures k in Replay(schema, cache, calls)
    ensures Accepts(schema, (k, Replay(schema, cache, calls)[k]))
    decreases |calls|
  {
    if calls != [] {
      var front, next := calls[..|calls| - 1], calls[|calls| - 1];
      var before := Replay(schema, cache, front);
      if FirstRejected(schema, next).None? && k in KeysOf(next) {
        var i := LastPairFor(next, k);
        assert Accepts(schema, next[i]);
        CommitStores(schema, before, next, i);
      } else {
        ReplayAcceptedValue(schema, cache, front, k);
        CommitKeeps(schema, before, next, k);
      }
    }
  }

  /** A session completes: once the accepted calls, together with the initial
      cache, have supplied every field of the model, an accepted call builds a
      model instance. In eager mode a default that no accepted call overrides is
      built as it is, so the model must accept it; one that a call overrides
      is never built and need not be valid. */
  lemma SessionCompletes<V>(schema: Schema<V>, eager: bool, calls: seq<Kwargs<V>>, next: Kwargs<V>)
    requires eager ==> forall k ::
      k in schema && !schema[k].IsRequired() && k !in AcceptedKeys(schema, calls + [next]) ==>
        Accepts(schema, (k, schema[k].default.value))
    requires FirstRejected(schema, next).None?
    requires schema.Keys <= InitialCache(schema, eager).Keys + AcceptedKeys(schema, calls + [next])
    ensures var t := Step(schema, Replay(schema, InitialCache(schema, eager), calls), next);
      && t.outcome.Instance?
      && t.cache == Replay(schema, InitialCache(schema, eager), calls + [next])
  {
    var init := InitialCache(schema, eager);
    var all := calls + [next];
    assert all[..|calls|] == calls;
    assert all[|calls|] == next;
    var before := Replay(schema, init, calls);
    ReplayKeepsFields(schema, init, calls);
    ReplayFieldsAreSupplied(schema, init, calls);
    var after := Update(before, next);
    assert Replay(schema, init, all) == after;
    assert after.Keys == schema.Keys;
    forall k | k in after ensures Accepts(schema, (k, after[k])) {
      ReplayAcceptedValue(schema, init, all, k);
    }
  }

  /** In eager mode, when every field of the model has a default, the adapter is
      complete from the start: a call with no arguments builds the model from the
      defaults alone (or reports the defaults the model rejects). */
  lemma EagerAllDefaultsComplete<V>(schema: Schema<V>)
    requires forall k :: k in schema ==> !schema[k].IsRequired()
    ensures var t := Step(schema, InitialCache(schema, true), []);
      && t.cache == InitialCache(schema, true)
      && t.outcome == Construct(schema, t.cache)
      && (t.outcome.Instance? <==>
            forall k :: k in schema ==> Accepts(schema, (k, schema[k].default.value)))
  {
    var init := InitialCache(schema, true);
    assert init.Keys == schema.Keys;
    assert Update(init, []) == init;
  }

  /** A call with one accepted pair stores exactly that value for that field. */
  lemma OnePairCall<V>(schema: Schema<V>, cache: Cache<V>, field: FieldName, value: V)
    requires Accepts(schema, (field, value))
    ensures Step(schema, cache, [(field, value)]).cache == cache[field := value]
  {
    var kwargs := [(field, value)];
    assert KeysOf(kwargs) == {field} by {
      assert kwargs[0].0 == field;
    }
    assert IsLastFor(kwargs, 0);
  }
}
