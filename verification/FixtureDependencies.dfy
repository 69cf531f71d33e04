/**
 * `resolveDependencies`: before a fixture object is bound, each relation
 * field's fixture ids (`object.<field>` in the serialized parameters) are
 * replaced by the keys of the objects loaded earlier under those ids.
 */
module FixtureDependencies {
  import opened Wrappers
  import opened FixtureYaml
  import opened FixtureKeys

  /** A property of a model class as its factory lists it. */
  datatype Property = Property(name: string, isRelation: bool, relationType: string)

  /**
   * The key a saved object has in the database (`keyValue(model)`), here
   * named by the type it was saved as and its fixture id.
   */
  datatype Persisted = Persisted(modelType: string, id: string)

  /** `idCache`: `type-id` to the key of the object loaded under that name. */
  type IdCache = map<string, Persisted>

  /** The resolved keys of one relation field, as handed to `serializeKey`. */
  datatype Reference = Reference(field: string, relationType: string, keys: seq<Persisted>)

  /** The id a relation field names that no earlier fixture loaded. */
  datatype Missing = Missing(field: string, id: string)

  /** The parameters left for the binder and the resolved relation fields, in property order. */
  datatype Resolved = Resolved(params: Params, references: seq<Reference>)

  /** The prefix every parameter of a fixture object carries. */
  const OBJECT := "object"

  /** The parameter that holds field `name`: `object.name`. */
  function FieldParam(name: string): string
  {
    ParamName(OBJECT, name)
  }

  lemma FieldParamInjective(a: string, b: string)
    ensures FieldParam(a) == FieldParam(b) ==> a == b
  {
    if FieldParam(a) == FieldParam(b) {
      assert FieldParam(a)[|OBJECT| + 1..] == a;
      assert FieldParam(b)[|OBJECT| + 1..] == b;
    }
  }

  /** Every id was loaded before as a `relationType`. */
  predicate AllCached(relationType: string, ids: seq<string>, cache: IdCache)
  {
    forall i :: 0 <= i < |ids| ==> CacheKey(relationType, ids[i]) in cache
  }

  /**
   * The cached keys of `ids`, in order, or the first id that is not cached
   * as a `relationType`.
   */
  function LookupIds(relationType: string, ids: seq<string>, cache: IdCache): (r: Result<seq<Persisted>, string>)
    ensures r.Success? <==> AllCached(relationType, ids, cache)
    ensures r.Success? ==>
              && |r.value| == |ids|
              && forall i :: 0 <= i < |ids| ==> r.value[i] == cache[CacheKey(relationType, ids[i])]
    ensures r.Failure? ==>
              exists i :: && 0 <= i < |ids| && ids[i] == r.error
                          && CacheKey(relationType, ids[i]) !in cache
                          && forall j :: 0 <= j < i ==> CacheKey(relationType, ids[j]) in cache
  {
    if ids == [] then Success([])
    else if CacheKey(relationType, ids[0]) !in cache then Failure(ids[0])
    else
      match LookupIds(relationType, ids[1..], cache)
      case Failure(id) =>
        assert forall j :: 1 <= j < |ids| ==> ids[j] == ids[1..][j - 1];
        Failure(id)
      case Success(rest) => Success([cache[CacheKey(relationType, ids[0])]] + rest)
  }

  /**
   * The properties from the `i`-th on, processed from `acc`: a relation
   * field whose parameter is present has its ids looked up, its parameter
   * removed and a reference recorded; a missing id stops everything.
   */
  function ResolveFrom(props: seq<Property>, i: nat, acc: Resolved, cache: IdCache): Result<Resolved, Missing>
    requires i <= |props|
    decreases |props| - i
  {
    if i == |props| then Success(acc)
    else
      var p := props[i];
      var name := FieldParam(p.name);
      if !p.isRelation || name !in acc.params then ResolveFrom(props, i + 1, acc, cache)
      else
        match LookupIds(p.relationType, acc.params[name], cache)
        case Failure(id) => Failure(Missing(p.name, id))
        case Success(keys) =>
          ResolveFrom(props, i + 1,
                      Resolved(acc.params - {name}, acc.references + [Reference(p.name, p.relationType, keys)]),
                      cache)
  }

  /** All the properties of the class processed against its serialized parameters. */
  function Resolve(props: seq<Property>, serialized: Params, cache: IdCache): Result<Resolved, Missing>
  {
    ResolveFrom(props, 0, Resolved(serialized, []), cache)
  }

  /** `resolveDependencies(type, serialized, idCache)` over the properties the type's factory lists. */
  method ResolveDependencies(props: seq<Property>, serialized: Params, cache: IdCache) returns (r: Result<Resolved, Missing>)
    ensures r == Resolve(props, serialized, cache)
  {
    var params := serialized;
    var references: seq<Reference> := [];
    var i := 0;
    while i < |props|
      invariant 0 <= i <= |props|
      invariant Resolve(props, serialized, cache) == ResolveFrom(props, i, Resolved(params, references), cache)
    {
      var field := props[i];
      if field.isRelation {
        var prefix := FieldParam(field.name);
        var persistedIds: Option<seq<Persisted>> := None;
        if prefix in params {
          var ids := params[prefix];
          var persisted: seq<Persisted> := [];
          var j := 0;
          while j < |ids|
            invariant 0 <= j <= |ids| && |persisted| == j
            invariant forall k :: 0 <= k < j ==>
                        CacheKey(field.relationType, ids[k]) in cache &&
                        persisted[k] == cache[CacheKey(field.relationType, ids[k])]
          {
            var id := CacheKey(field.relationType, ids[j]);
            if id !in cache {
              assert LookupIds(field.relationType, ids, cache) == Failure(ids[j]);
              return Failure(Missing(field.name, ids[j]));
            }
            persisted := persisted + [cache[id]];
            j := j + 1;
          }
          assert AllCached(field.relationType, ids, cache);
          assert LookupIds(field.relationType, ids, cache).value == persisted;
          persistedIds := Some(persisted);
        }
        if persistedIds.None? {
          assert params - {prefix} == params;
        }
        params := params - {prefix};
        if persistedIds.Some? {
          references := references + [Reference(field.name, field.relationType, persistedIds.value)];
        }
      }
      i := i + 1;
    }
    return Success(Resolved(params, references));
  }

  /** The parameters of the relation fields among `props`. */
  function RelationParams(props: seq<Property>): set<string>
  {
    set p | p in props && p.isRelation :: FieldParam(p.name)
  }

  /** `params` is `serialized` without the parameters in `removed`. */
  ghost predicate Without(params: Params, serialized: Params, removed: set<string>)
  {
    forall k :: (k in params <==> k in serialized && k !in removed) && (k in params ==> params[k] == serialized[k])
  }

  /** `ref` is what relation property `p` resolves to against `serialized`. */
  predicate ResolvesTo(p: Property, serialized: Params, cache: IdCache, ref: Reference)
  {
    var name := FieldParam(p.name);
    && p.isRelation && name in serialized
    && LookupIds(p.relationType, serialized[name], cache).Success?
    && ref == Reference(p.name, p.relationType, LookupIds(p.relationType, serialized[name], cache).value)
  }

  /** Every relation property among `props` whose parameter is present names only cached ids. */
  predicate Resolvable(props: seq<Property>, serialized: Params, cache: IdCache)
  {
    forall p :: p in props && p.isRelation && FieldParam(p.name) in serialized ==>
      AllCached(p.relationType, serialized[FieldParam(p.name)], cache)
  }

  lemma RelationParamsStep(props: seq<Property>, i: nat)
    requires i < |props|
    ensures RelationParams(props[..i + 1]) ==
              RelationParams(props[..i]) + (if props[i].isRelation then {FieldParam(props[i].name)} else {})
  {
    assert props[..i + 1] == props[..i] + [props[i]];
  }

  /** Going one property further keeps `acc.params` equal to `serialized` without the relation parameters seen so far. */
  lemma WithoutStep(props: seq<Property>, i: nat, serialized: Params, acc: Resolved)
    requires i < |props|
    requires Without(acc.params, serialized, RelationParams(props[..i]))
    ensures var p := props[i];
            var name := FieldParam(p.name);
            if !p.isRelation || name !in acc.params
            then Without(acc.params, serialized, RelationParams(props[..i + 1]))
            else Without(acc.params - {name}, serialized, RelationParams(props[..i + 1])) && acc.params[name] == serialized[name]
  {
    RelationParamsStep(props, i);
  }

  /**
   * Processing from the `i`-th property on, when it succeeds, leaves the
   * serialized parameters without every relation field's parameter, and
   * adds only references that some relation property resolves to.
   */
  lemma {:induction false} ResolveFromSuccess(props: seq<Property>, i: nat, serialized: Params, acc: Resolved, cache: IdCache)
    requires i <= |props|
    requires Without(acc.params, serialized, RelationParams(props[..i]))
    requires ResolveFrom(props, i, acc, cache).Success?
    ensures var r := ResolveFrom(props, i, acc, cache).value;
            && Without(r.params, serialized, RelationParams(props))
            && forall ref :: ref in r.references ==>
                 ref in acc.references || exists j :: i <= j < |props| && ResolvesTo(props[j], serialized, cache, ref)
    decreases |props| - i
  {
    if i == |props| {
      assert props[..i] == props;
    } else {
      var p := props[i];
      var name := FieldParam(p.name);
      WithoutStep(props, i, serialized, acc);
      if !p.isRelation || name !in acc.params {
        ResolveFromSuccess(props, i + 1, serialized, acc, cache);
      } else {
        var lookup := LookupIds(p.relationType, acc.params[name], cache);
        var ref := Reference(p.name, p.relationType, lookup.value);
        var next := Resolved(acc.params - {name}, acc.references + [ref]);
        assert ResolvesTo(p, serialized, cache, ref);
        ResolveFromSuccess(props, i + 1, serialized, next, cache);
      }
    }
  }

  /** Processing from the `i`-th property on fails only on an uncached id of a present relation field. */
  lemma {:induction false} ResolveFromFailure(props: seq<Property>, i: nat, serialized: Params, acc: Resolved, cache: IdCache)
    requires i <= |props|
    requires Without(acc.params, serialized, RelationParams(props[..i]))
    requires ResolveFrom(props, i, acc, cache).Failure?
    ensures var e := ResolveFrom(props, i, acc, cache).error;
            exists j :: i <= j < |props| && var name := FieldParam(props[j].name);
              && props[j].isRelation && props[j].name == e.field && name in serialized
              && e.id in serialized[name]
              && CacheKey(props[j].relationType, e.id) !in cache
    decreases |props| - i
  {
    var p := props[i];
    var name := FieldParam(p.name);
    WithoutStep(props, i, serialized, acc);
    if !p.isRelation || name !in acc.params {
      ResolveFromFailure(props, i + 1, serialized, acc, cache);
    } else {
      var lookup := LookupIds(p.relationType, acc.params[name], cache);
      if lookup.Success? {
        var next := Resolved(acc.params - {name}, acc.references + [Reference(p.name, p.relationType, lookup.value)]);
        ResolveFromFailure(props, i + 1, serialized, next, cache);
      }
    }
  }

  /** If every present relation field from the `i`-th on names only cached ids, nothing fails. */
  lemma {:induction false} ResolvableSucceeds(props: seq<Property>, i: nat, serialized: Params, acc: Resolved, cache: IdCache)
    requires i <= |props|
    requires Without(acc.params, serialized, RelationParams(props[..i]))
    requires Resolvable(props[i..], serialized, cache)
    ensures ResolveFrom(props, i, acc, cache).Success?
    decreases |props| - i
  {
    if i < |props| {
      var p := props[i];
      var name := FieldParam(p.name);
      WithoutStep(props, i, serialized, acc);
      assert props[i..] == [p] + props[i + 1..];
      if !p.isRelation || name !in acc.params {
        ResolvableSucceeds(props, i + 1, serialized, acc, cache);
      } else {
        var lookup := LookupIds(p.relationType, acc.params[name], cache);
        var next := Resolved(acc.params - {name}, acc.references + [Reference(p.name, p.relationType, lookup.value)]);
        ResolvableSucceeds(props, i + 1, serialized, next, cache);
      }
    }
  }

  /** Names are distinct among the relation properties. */
  predicate DistinctRelations(props: seq<Property>)
  {
    forall j, k :: 0 <= j < k < |props| && props[j].isRelation && props[k].isRelation ==> props[j].name != props[k].name
  }

  /** With distinct relation names, no earlier relation field shares the parameter of the `i`-th. */
  lemma FreshRelationParam(props: seq<Property>, i: nat)
    requires i < |props| && DistinctRelations(props) && props[i].isRelation
    ensures FieldParam(props[i].name) !in RelationParams(props[..i])
  {
    forall q | q in props[..i] && q.isRelation
      ensures FieldParam(q.name) != FieldParam(props[i].name)
    {
      var j :| 0 <= j < i && props[j] == q;
      FieldParamInjective(q.name, props[i].name);
    }
  }

  /** With distinct relation names, success means every relation field's ids were cached. */
  lemma {:induction false} ResolvedMeansResolvable(props: seq<Property>, i: nat, serialized: Params, acc: Resolved, cache: IdCache)
    requires i <= |props| && DistinctRelations(props)
    requires Without(acc.params, serialized, RelationParams(props[..i]))
    requires ResolveFrom(props, i, acc, cache).Success?
    ensures Resolvable(props[i..], serialized, cache)
    decreases |props| - i
  {
    if i < |props| {
      var p := props[i];
      var name := FieldParam(p.name);
      RelationParamsStep(props, i);
      assert props[i..] == [p] + props[i + 1..];
      if p.isRelation {
        FreshRelationParam(props, i);
      }
      if !p.isRelation || name !in acc.params {
        ResolvedMeansResolvable(props, i + 1, serialized, acc, cache);
      } else {
        var lookup := LookupIds(p.relationType, acc.params[name], cache);
        var next := Resolved(acc.params - {name}, acc.references + [Reference(p.name, p.relationType, lookup.value)]);
        ResolvedMeansResolvable(props, i + 1, serialized, next, cache);
      }
    }
  }

  /**
   * The references a resolution should record: one per relation property
   * whose parameter is present, in property order, holding the cached keys
   * of that parameter's ids.
   */
  function RelationReferences(props: seq<Property>, serialized: Params, cache: IdCache): seq<Reference>
    requires Resolvable(props, serialized, cache)
  {
    if props == [] then []
    else
      var p := props[0];
      var name := FieldParam(p.name);
      assert forall q :: q in props[1..] ==> q in props;
      (if p.isRelation && name in serialized
       then [Reference(p.name, p.relationType, LookupIds(p.relationType, serialized[name], cache).value)]
       else [])
      + RelationReferences(props[1..], serialized, cache)
  }

  /** `RelationReferences` from the `i`-th property on, unfolded by one property. */
  lemma RelationReferencesStep(props: seq<Property>, i: nat, serialized: Params, cache: IdCache)
    requires i < |props| && Resolvable(props[i..], serialized, cache)
    ensures Resolvable(props[i + 1..], serialized, cache)
    ensures var p := props[i];
            var name := FieldParam(p.name);
            RelationReferences(props[i..], serialized, cache)
            == (if p.isRelation && name in serialized
                then [Reference(p.name, p.relationType, LookupIds(p.relationType, serialized[name], cache).value)]
                else [])
               + RelationReferences(props[i + 1..], serialized, cache)
  {
    assert props[i..][0] == props[i];
    assert props[i..][1..] == props[i + 1..];
  }

  /** A property that is not a relation, or whose parameter is absent, is passed over. */
  lemma ResolveFromSkips(props: seq<Property>, i: nat, acc: Resolved, cache: IdCache)
    requires i < |props|
    requires !props[i].isRelation || FieldParam(props[i].name) !in acc.params
    ensures ResolveFrom(props, i, acc, cache) == ResolveFrom(props, i + 1, acc, cache)
  {
  }

  /** A present relation field whose ids are all cached is resolved and its parameter removed. */
  lemma ResolveFromRecords(props: seq<Property>, i: nat, acc: Resolved, cache: IdCache)
    requires i < |props| && props[i].isRelation
    requires FieldParam(props[i].name) in acc.params
    requires AllCached(props[i].relationType, acc.params[FieldParam(props[i].name)], cache)
    ensures var p := props[i];
            var name := FieldParam(p.name);
            var ref := Reference(p.name, p.relationType, LookupIds(p.relationType, acc.params[name], cache).value);
            ResolveFrom(props, i, acc, cache)
            == ResolveFrom(props, i + 1, Resolved(acc.params - {name}, acc.references + [ref]), cache)
  {
  }

  /** The relation fields from the `i`-th on have the same parameters in `params` as in `serialized`. */
  ghost predicate AgreesFrom(props: seq<Property>, i: nat, params: Params, serialized: Params)
    requires i <= |props|
  {
    forall j :: i <= j < |props| && props[j].isRelation ==>
      (FieldParam(props[j].name) in params <==> FieldParam(props[j].name) in serialized) &&
      (FieldParam(props[j].name) in params ==> params[FieldParam(props[j].name)] == serialized[FieldParam(props[j].name)])
  }

  /** Removing the `i`-th relation field's parameter keeps the later ones in agreement. */
  lemma AgreesAfterRemoval(props: seq<Property>, i: nat, params: Params, serialized: Params)
    requires i < |props| && DistinctRelations(props) && props[i].isRelation
    requires AgreesFrom(props, i, params, serialized)
    ensures AgreesFrom(props, i + 1, params - {FieldParam(props[i].name)}, serialized)
  {
    forall j | i + 1 <= j < |props| && props[j].isRelation
      ensures FieldParam(props[j].name) != FieldParam(props[i].name)
    {
      FieldParamInjective(props[j].name, props[i].name);
    }
  }

  /**
   * With distinct relation names and every present relation field's ids
   * cached, processing from the `i`-th property on (which then succeeds, by
   * `ResolvableSucceeds`) records exactly the references of the remaining
   * relation fields, in order.
   */
  lemma {:induction false} ResolveFromReferences(props: seq<Property>, i: nat, serialized: Params, acc: Resolved, cache: IdCache)
    requires i <= |props| && DistinctRelations(props)
    requires AgreesFrom(props, i, acc.params, serialized)
    requires Resolvable(props[i..], serialized, cache) && ResolveFrom(props, i, acc, cache).Success?
    ensures ResolveFrom(props, i, acc, cache).value.references == acc.references + RelationReferences(props[i..], serialized, cache)
    decreases |props| - i
  {
    if i == |props| {
      assert props[i..] == [];
    } else {
      var p := props[i];
      var name := FieldParam(p.name);
      RelationReferencesStep(props, i, serialized, cache);
      if !p.isRelation || name !in acc.params {
        ResolveFromSkips(props, i, acc, cache);
        ResolveFromReferences(props, i + 1, serialized, acc, cache);
      } else {
        assert p in props[i..];
        ResolveFromRecords(props, i, acc, cache);
        AgreesAfterRemoval(props, i, acc.params, serialized);
        var ref := Reference(p.name, p.relationType, LookupIds(p.relationType, acc.params[name], cache).value);
        var next := Resolved(acc.params - {name}, acc.references + [ref]);
        ResolveFromReferences(props, i + 1, serialized, next, cache);
        assert next.references + RelationReferences(props[i + 1..], serialized, cache)
            == acc.references + ([ref] + RelationReferences(props[i + 1..], serialized, cache));
      }
    }
  }

  /**
   * What `resolveDependencies` promises: on success the relation fields'
   * parameters are gone and all other parameters are kept, each reference is
   * the cached keys of one relation field's ids in order; a failure names
   * an id of a relation field that is not cached; and, relation names being
   * distinct, it succeeds exactly when every relation field's ids are cached,
   * recording one reference per present relation field, in property order.
   */
  lemma ResolveSpec(props: seq<Property>, serialized: Params, cache: IdCache)
    ensures var r := Resolve(props, serialized, cache);
            && (r.Success? ==>
                  && Without(r.value.params, serialized, RelationParams(props))
                  && forall ref :: ref in r.value.references ==>
                       exists j :: 0 <= j < |props| && ResolvesTo(props[j], serialized, cache, ref))
            && (r.Failure? ==>
                  exists j :: 0 <= j < |props| && var name := FieldParam(props[j].name);
                  && props[j].isRelation && props[j].name == r.error.field && name in serialized
                  && r.error.id in serialized[name]
                  && CacheKey(props[j].relationType, r.error.id) !in cache)
            && (Resolvable(props, serialized, cache) ==> r.Success?)
            && (DistinctRelations(props) ==> (r.Success? <==> Resolvable(props, serialized, cache)))
            && (DistinctRelations(props) && Resolvable(props, serialized, cache) ==>
                  r.Success? && r.value.references == RelationReferences(props, serialized, cache))
  {
    var acc := Resolved(serialized, []);
    assert props[..0] == [] && props[0..] == props;
    assert Without(acc.params, serialized, RelationParams(props[..0]));
    var r := Resolve(props, serialized, cache);
    if r.Success? {
      ResolveFromSuccess(props, 0, serialized, acc, cache);
      if DistinctRelations(props) {
        ResolvedMeansResolvable(props, 0, serialized, acc, cache);
        ResolveFromReferences(props, 0, serialized, acc, cache);
      }
    } else {
      ResolveFromFailure(props, 0, serialized, acc, cache);
      if Resolvable(props, serialized, cache) {
        ResolvableSucceeds(props, 0, serialized, acc, cache);
      }
    }
  }
}
