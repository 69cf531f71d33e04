/**
 * What the fixture loader promises across calls: which operations a load
 * issues, that the id cache only grows while loading, that every loaded
 * object can be referred to afterwards, that loading the same fixtures twice
 * fails on the first object, and what `deleteDatabase` leaves alone.
 */
module FixtureProperties {
  import opened Wrappers
  import opened Text
  import opened FixtureSql
  import opened FixtureKeys
  import opened FixtureYaml
  import opened FixtureDependencies
  import opened Fixtures

  /** A save of an object of a known model class from the `models` package. */
  predicate IsSave(op: DbOp, schema: Schema)
  {
    op.Save? && op.modelType in schema && StartsWith(op.modelType, MODELS_PACKAGE)
  }

  /**
   * A loaded entry saves one object of its own, known and qualified, type and
   * registers it; the save holds the entry's serialized body (an empty one
   * for a null body) with its relation parameters resolved against the
   * objects loaded before.
   */
  lemma LoadEntryFacts(e: Entry, cache: IdCache, schema: Schema)
    ensures match LoadEntry(e, cache, schema)
            case Skipped => ReadKey(e.key).None?
            case Failed(_) => ReadKey(e.key).Some?
            case Loaded(c, op) =>
              var k := ReadKey(e.key).value;
              var body := if e.value.Null? then Mapping([]) else e.value;
              && IsSave(op, schema) && op.modelType == k.typeName && op.id == k.id
              && CacheKey(k.typeName, k.id) !in cache
              && c == Register(cache, [k.typeName] + schema[k.typeName].superclasses, k.id, Persisted(k.typeName, k.id))
              && body.Mapping? && SerializeAll(body, OBJECT, map[]).Some?
              && var resolved := Resolve(schema[k.typeName].properties, SerializeAll(body, OBJECT, map[]).value, cache);
                 && resolved.Success?
                 && op.params == resolved.value.params && op.references == resolved.value.references
  {
  }

  /**
   * From the `i`-th entry on, a load only saves objects of known qualified
   * types, keeps what was issued before, and tells the plugins it is over
   * exactly when no entry failed.
   */
  lemma {:induction false} LoadFromOps(entries: seq<Entry>, i: nat, cache: IdCache, ops: seq<DbOp>, schema: Schema)
    requires i <= |entries|
    requires forall op :: op in ops ==> IsSave(op, schema)
    ensures var r := LoadFrom(entries, i, cache, ops, schema);
            && |ops| <= |r.ops| && r.ops[..|ops|] == ops
            && (forall op :: op in r.ops ==> IsSave(op, schema) || op == AfterFixtureLoad)
            && (AfterFixtureLoad in r.ops <==> r.error.None?)
    decreases |entries| - i
  {
    if i == |entries| {
      assert (ops + [AfterFixtureLoad])[..|ops|] == ops;
    } else {
      LoadEntryFacts(entries[i], cache, schema);
      match LoadEntry(entries[i], cache, schema)
      case Skipped =>
        LoadFromOps(entries, i + 1, cache, ops, schema);
      case Failed(_) =>
        assert ops[..|ops|] == ops;
      case Loaded(c, op) =>
        LoadFromOps(entries, i + 1, c, ops + [op], schema);
        var r := LoadFrom(entries, i + 1, c, ops + [op], schema);
        assert r.ops[..|ops|] == (ops + [op])[..|ops|] == ops;
    }
  }

  /** The keys of the entries from the `i`-th on that name an object of the `models` package, in document order. */
  function MatchingKeys(entries: seq<Entry>, i: nat): (r: seq<FixtureKey>)
    requires i <= |entries|
    ensures |r| <= |entries| - i
    decreases |entries| - i
  {
    if i == |entries| then []
    else
      var rest := MatchingKeys(entries, i + 1);
      match ReadKey(entries[i].key)
      case None => rest
      case Some(k) => [k] + rest
  }

  lemma MatchingKeysStep(entries: seq<Entry>, i: nat)
    requires i < |entries|
    ensures MatchingKeys(entries, i) ==
              if ReadKey(entries[i].key).Some? then [ReadKey(entries[i].key).value] + MatchingKeys(entries, i + 1)
              else MatchingKeys(entries, i + 1)
  {
  }

  /** `op` saves the object with key `k`. */
  predicate SavesKey(op: DbOp, k: FixtureKey)
  {
    op.Save? && op.modelType == k.typeName && op.id == k.id
  }

  /** What `LoadFromSaves` needs of one entry: a skipped entry has no key, a loaded one saves its key. */
  lemma EntryKey(e: Entry, cache: IdCache, schema: Schema)
    ensures var outcome := LoadEntry(e, cache, schema);
            && (outcome.Skipped? ==> ReadKey(e.key).None?)
            && (outcome.Loaded? ==> ReadKey(e.key).Some? && SavesKey(outcome.op, ReadKey(e.key).value))
  {
    LoadEntryFacts(e, cache, schema);
  }

  /** `all` is `ops`, then one save per key of `keys` in order, then `afterFixtureLoad`. */
  predicate SavesThen(all: seq<DbOp>, ops: seq<DbOp>, keys: seq<FixtureKey>)
  {
    && |all| == |ops| + |keys| + 1 && all[..|ops|] == ops
    && all[|all| - 1] == AfterFixtureLoad
    && forall j :: 0 <= j < |keys| ==> SavesKey(all[|ops| + j], keys[j])
  }

  /** Issuing the save of `k` before the saves of `rest` gives the saves of `[k] + rest`. */
  lemma SavesAfterSave(all: seq<DbOp>, ops: seq<DbOp>, op: DbOp, k: FixtureKey, rest: seq<FixtureKey>)
    requires SavesKey(op, k) && SavesThen(all, ops + [op], rest)
    ensures SavesThen(all, ops, [k] + rest)
  {
    assert all[..|ops|] == all[..|ops| + 1][..|ops|];
    assert all[|ops|] == all[..|ops| + 1][|ops|];
    forall j | 0 <= j < |[k] + rest|
      ensures SavesKey(all[|ops| + j], ([k] + rest)[j])
    {
      if j > 0 {
        assert all[|ops| + j] == all[|ops + [op]| + (j - 1)];
      }
    }
  }

  /**
   * A load from the `i`-th entry on that gets through every entry issues,
   * after what was issued before, one save per matching key in document
   * order and then `afterFixtureLoad`.
   */
  lemma {:induction false} LoadFromSaves(entries: seq<Entry>, i: nat, cache: IdCache, ops: seq<DbOp>, schema: Schema)
    requires i <= |entries|
    ensures var r := LoadFrom(entries, i, cache, ops, schema);
            r.error.None? ==> SavesThen(r.ops, ops, MatchingKeys(entries, i))
    decreases |entries| - i
  {
    if i == |entries| {
      assert (ops + [AfterFixtureLoad])[..|ops|] == ops;
    } else {
      var outcome := LoadEntry(entries[i], cache, schema);
      LoadFromStep(entries, i, cache, ops, schema, outcome);
      EntryKey(entries[i], cache, schema);
      MatchingKeysStep(entries, i);
      if outcome.Skipped? {
        LoadFromSaves(entries, i + 1, cache, ops, schema);
      } else if outcome.Loaded? {
        LoadFromSaves(entries, i + 1, outcome.cache, ops + [outcome.op], schema);
        var r := LoadFrom(entries, i + 1, outcome.cache, ops + [outcome.op], schema);
        if r.error.None? {
          SavesAfterSave(r.ops, ops, outcome.op, ReadKey(entries[i].key).value, MatchingKeys(entries, i + 1));
        }
      }
    }
  }

  /** The keys of a document's entries that name an object of the `models` package, in document order. */
  function DocumentKeys(document: Yaml): seq<FixtureKey>
  {
    if document.Mapping? then MatchingKeys(document.entries, 0) else []
  }

  /**
   * `loadModels` issues only saves of objects of known classes of the
   * `models` package and `afterFixtureLoad`, the latter exactly when it got
   * through every entry. When it does, it has saved one object per matching
   * key, in document order, and `afterFixtureLoad` comes once, at the end.
   */
  lemma LoadOps(document: Yaml, cache: IdCache, schema: Schema)
    ensures var r := Load(document, cache, schema);
            && (forall op :: op in r.ops ==> IsSave(op, schema) || op == AfterFixtureLoad)
            && (AfterFixtureLoad in r.ops <==> r.error.None?)
    ensures var r := Load(document, cache, schema);
            var keys := DocumentKeys(document);
            r.error.None? ==>
              && |r.ops| == |keys| + 1 && r.ops[|keys|] == AfterFixtureLoad
              && forall j :: 0 <= j < |keys| ==> SavesKey(r.ops[j], keys[j])
  {
    if document.Mapping? {
      LoadFromOps(document.entries, 0, cache, [], schema);
      LoadFromSaves(document.entries, 0, cache, [], schema);
    }
  }

  /** Loading never forgets an object: every name in the cache before is still there after, failure or not. */
  lemma {:induction false} LoadFromKeepsCache(entries: seq<Entry>, i: nat, cache: IdCache, ops: seq<DbOp>, schema: Schema)
    requires i <= |entries|
    ensures forall k :: k in cache ==> k in LoadFrom(entries, i, cache, ops, schema).cache
    decreases |entries| - i
  {
    if i < |entries| {
      match LoadEntry(entries[i], cache, schema)
      case Skipped =>
        LoadFromKeepsCache(entries, i + 1, cache, ops, schema);
      case Failed(_) =>
      case Loaded(c, op) =>
        var k := ReadKey(entries[i].key).value;
        RegisterFacts(cache, [k.typeName] + schema[k.typeName].superclasses, k.id, Persisted(k.typeName, k.id));
        LoadFromKeepsCache(entries, i + 1, c, ops + [op], schema);
    }
  }

  /** The `type-id` names an object with key `k` is registered under: its type and every superclass. */
  predicate Registered(k: FixtureKey, schema: Schema, cache: IdCache)
  {
    k.typeName in schema &&
    forall t :: t in [k.typeName] + schema[k.typeName].superclasses ==> CacheKey(t, k.id) in cache
  }

  lemma {:induction false} LoadFromRegisters(entries: seq<Entry>, i: nat, cache: IdCache, ops: seq<DbOp>, schema: Schema)
    requires i <= |entries|
    ensures var r := LoadFrom(entries, i, cache, ops, schema);
            r.error.None? ==>
              forall j :: i <= j < |entries| && ReadKey(entries[j].key).Some? ==>
                Registered(ReadKey(entries[j].key).value, schema, r.cache)
    decreases |entries| - i
  {
    if i < |entries| {
      LoadEntryFacts(entries[i], cache, schema);
      match LoadEntry(entries[i], cache, schema)
      case Skipped =>
        LoadFromRegisters(entries, i + 1, cache, ops, schema);
      case Failed(_) =>
      case Loaded(c, op) =>
        var k := ReadKey(entries[i].key).value;
        var types := [k.typeName] + schema[k.typeName].superclasses;
        RegisterFacts(cache, types, k.id, Persisted(k.typeName, k.id));
        LoadFromRegisters(entries, i + 1, c, ops + [op], schema);
        LoadFromKeepsCache(entries, i + 1, c, ops + [op], schema);
        forall t | t in types ensures CacheKey(t, k.id) in c {
          var j :| 0 <= j < |types| && types[j] == t;
        }
    }
  }

  /**
   * After a load that went through, every object of the document can be
   * referred to by later fixtures, under its own type and under each of its
   * superclasses; and nothing that was in the cache before was dropped.
   */
  lemma LoadedObjectsAreCached(document: Yaml, cache: IdCache, schema: Schema)
    ensures var r := Load(document, cache, schema);
            && (forall k :: k in cache ==> k in r.cache)
            && (r.error.None? && document.Mapping? ==>
                  forall e :: e in document.entries && ReadKey(e.key).Some? ==>
                    Registered(ReadKey(e.key).value, schema, r.cache))
  {
    if document.Mapping? {
      var entries := document.entries;
      LoadFromKeepsCache(entries, 0, cache, [], schema);
      LoadFromRegisters(entries, 0, cache, [], schema);
      forall e | e in entries && ReadKey(e.key).Some? && Load(document, cache, schema).error.None?
        ensures Registered(ReadKey(e.key).value, schema, Load(document, cache, schema).cache)
      {
        var j :| 0 <= j < |entries| && entries[j] == e;
      }
    }
  }

  /** Entries whose keys do not match `Type(id)` are passed over without any effect. */
  lemma {:induction false} SkipUnparseable(entries: seq<Entry>, i: nat, f: nat, cache: IdCache, ops: seq<DbOp>, schema: Schema)
    requires i <= f <= |entries|
    requires forall j :: i <= j < f ==> ReadKey(entries[j].key).None?
    ensures LoadFrom(entries, i, cache, ops, schema) == LoadFrom(entries, f, cache, ops, schema)
    decreases f - i
  {
    if i < f {
      SkipUnparseable(entries, i + 1, f, cache, ops, schema);
    }
  }

  /** A document that is not a mapping, or none of whose keys match `Type(id)`, loads nothing and completes. */
  lemma NothingToLoad(document: Yaml, cache: IdCache, schema: Schema)
    requires !document.Mapping? || forall e :: e in document.entries ==> ReadKey(e.key).None?
    ensures Load(document, cache, schema) == LoadResult(cache, [AfterFixtureLoad], None)
  {
    if document.Mapping? {
      var entries := document.entries;
      assert forall j :: 0 <= j < |entries| ==> ReadKey(entries[j].key).None? by {
        forall j | 0 <= j < |entries| ensures ReadKey(entries[j].key).None? {
          assert entries[j] in entries;
        }
      }
      SkipUnparseable(entries, 0, |entries|, cache, [], schema);
    }
  }

  /**
   * Loading the same fixtures a second time without clearing the cache
   * stops at the first object, with its duplicate id, before saving anything
   * or touching the cache.
   */
  lemma ReloadFailsOnFirstObject(document: Yaml, cache: IdCache, schema: Schema, f: nat)
    requires document.Mapping? && f < |document.entries|
    requires ReadKey(document.entries[f].key).Some?
    requires forall j :: 0 <= j < f ==> ReadKey(document.entries[j].key).None?
    requires Load(document, cache, schema).error.None?
    ensures var first := Load(document, cache, schema);
            var k := ReadKey(document.entries[f].key).value;
            Load(document, first.cache, schema) == LoadResult(first.cache, [], Some(DuplicateId(k.id, k.typeName)))
  {
    var entries := document.entries;
    var first := Load(document, cache, schema);
    var k := ReadKey(entries[f].key).value;
    LoadedObjectsAreCached(document, cache, schema);
    assert entries[f] in entries;
    assert CacheKey(k.typeName, k.id) in first.cache by {
      assert k.typeName in [k.typeName] + schema[k.typeName].superclasses;
    }
    SkipUnparseable(entries, 0, f, first.cache, [], schema);
  }

  /**
   * `deleteDatabase` never empties a protected table, empties every other
   * listed table with the statement its database vendor needs, and does it
   * with the foreign-key constraints off.
   */
  lemma DeleteDatabaseEmptiesUnprotectedTables(url: string, names: seq<string>)
    ensures var ops := DeleteDatabaseOps(url, names);
            && ops[0] == DisableForeignKeyConstraints
            && ops[|ops| - 2] == EnableForeignKeyConstraints && ops[|ops| - 1] == AfterFixtureLoad
            && (forall n :: n in names && n !in DONT_DELETE_THESE_TABLES ==> Execute(DeleteTableStmt(url, n)) in ops)
            && (forall op :: op in ops && op.Execute? ==>
                  exists n :: n in names && n !in DONT_DELETE_THESE_TABLES && op == Execute(DeleteTableStmt(url, n)))
  {
    var statements := DeleteStatements(url, TablesToEmpty(names));
    var ops := DeleteDatabaseOps(url, names);
    assert ops == [DisableForeignKeyConstraints] + statements + [EnableForeignKeyConstraints, AfterFixtureLoad];
    UnprotectedTablesAreEmptied(url, names);
    OnlyUnprotectedTablesAreEmptied(url, names);
    assert forall op :: op in ops && op.Execute? ==> op in statements;
  }

  /** Every listed table that is not protected gets its delete statement. */
  lemma UnprotectedTablesAreEmptied(url: string, names: seq<string>)
    ensures forall n :: n in names && n !in DONT_DELETE_THESE_TABLES ==>
              Execute(DeleteTableStmt(url, n)) in DeleteStatements(url, TablesToEmpty(names))
  {
    var tables := TablesToEmpty(names);
    var statements := DeleteStatements(url, tables);
    TablesToEmptyCounts(names);
    forall n | n in names && n !in DONT_DELETE_THESE_TABLES
      ensures Execute(DeleteTableStmt(url, n)) in statements
    {
      assert multiset(tables)[n] == multiset(names)[n] > 0;
      var j :| 0 <= j < |tables| && tables[j] == n;
      assert statements[j] == Execute(DeleteTableStmt(url, n));
    }
  }

  /** Every delete statement is for a listed table that is not protected. */
  lemma OnlyUnprotectedTablesAreEmptied(url: string, names: seq<string>)
    ensures forall op :: op in DeleteStatements(url, TablesToEmpty(names)) ==>
              exists n :: n in names && n !in DONT_DELETE_THESE_TABLES && op == Execute(DeleteTableStmt(url, n))
  {
    var tables := TablesToEmpty(names);
    var statements := DeleteStatements(url, tables);
    TablesToEmptyCounts(names);
    forall op | op in statements
      ensures exists n :: n in names && n !in DONT_DELETE_THESE_TABLES && op == Execute(DeleteTableStmt(url, n))
    {
      var j :| 0 <= j < |statements| && statements[j] == op;
      var n := tables[j];
      assert multiset(tables)[n] > 0;
    }
  }

  /** `delete(types)` deletes the instances of every type, in order, between turning the constraints off and on. */
  lemma DeleteRemovesEveryType(types: seq<string>)
    ensures var ops := DeleteOps(types);
            && |ops| == |types| + 3
            && ops[0] == DisableForeignKeyConstraints
            && (forall i :: 0 <= i < |types| ==> ops[i + 1] == DeleteAll(types[i]))
            && ops[|ops| - 2] == EnableForeignKeyConstraints && ops[|ops| - 1] == AfterFixtureLoad
  {
    var deletes := DeleteAlls(types);
    var ops := [DisableForeignKeyConstraints] + deletes + [EnableForeignKeyConstraints, AfterFixtureLoad];
    assert DeleteOps(types) == ops;
    forall i | 0 <= i < |types| ensures ops[i + 1] == DeleteAll(types[i]) {
      assert ops[i + 1] == deletes[i];
    }
  }

  /**
   * The duplicate check looks only at the object's own `type-id` name: an
   * entry is refused as a duplicate exactly when that name is cached, and a
   * cached object of another type under a shared superclass does not count.
   */
  lemma DuplicateCheckIsOnOwnType(e: Entry, cache: IdCache, schema: Schema)
    requires ReadKey(e.key).Some?
    ensures var k := ReadKey(e.key).value;
            LoadEntry(e, cache, schema) == Failed(DuplicateId(k.id, k.typeName)) <==> CacheKey(k.typeName, k.id) in cache
  {
  }

  /**
   * A loaded object takes over the `type-id` names of its type and of every
   * superclass, whatever they named before: a later object of a sibling
   * class with the same id replaces the superclass name of an earlier one.
   */
  lemma LoadedObjectTakesOverSuperclassNames(e: Entry, cache: IdCache, schema: Schema)
    requires LoadEntry(e, cache, schema).Loaded?
    ensures var k := ReadKey(e.key).value;
            var c := LoadEntry(e, cache, schema).cache;
            forall t :: t in [k.typeName] + schema[k.typeName].superclasses ==> CacheKey(t, k.id) in c && c[CacheKey(t, k.id)] == Persisted(k.typeName, k.id)
  {
    var k := ReadKey(e.key).value;
    var types := [k.typeName] + schema[k.typeName].superclasses;
    RegisterFacts(cache, types, k.id, Persisted(k.typeName, k.id));
    forall t | t in types ensures CacheKey(t, k.id) in LoadEntry(e, cache, schema).cache && LoadEntry(e, cache, schema).cache[CacheKey(t, k.id)] == Persisted(k.typeName, k.id) {
      var j :| 0 <= j < |types| && types[j] == t;
    }
  }
}
