/**
 * The fixture loader: the shared `idCache` and what the loader asks of the
 * database. Loading a YAML document saves one object per `Type(id)` key in
 * document order and remembers each under `type-id` for the type and all
 * its superclasses, so that later objects can refer to it; deleting clears
 * the cache and empties the database.
 */
module Fixtures {
  import opened Wrappers
  import opened Text
  import opened FixtureSql
  import opened FixtureKeys
  import opened FixtureYaml
  import opened FixtureDependencies

  /** What the loader asks of the database and the plugins, in order. */
  datatype DbOp =
    | Execute(sql: string)
    | DisableForeignKeyConstraints
    | EnableForeignKeyConstraints
    | DeleteAll(modelType: string)
    | Save(modelType: string, id: string, params: Params, references: seq<Reference>)
    | AfterFixtureLoad

  /** Why a load stopped; each is an exception the loader throws. */
  datatype LoadError =
    | DuplicateId(id: string, modelType: string)
    | NotAMapping(key: string)
    | NullListElement(key: string)
    | ClassNotFound(modelType: string)
    | NoPreviousReference(field: string, id: string)

  /** A model class: its properties and its superclasses from the nearest up, `Object` excluded. */
  datatype ModelClass = ModelClass(properties: seq<Property>, superclasses: seq<string>)

  /** The model classes the class loader knows, by fully qualified name. */
  type Schema = map<string, ModelClass>

  /** `cache` with `type-id` mapped to `key` for every type in `types`. */
  function Register(cache: IdCache, types: seq<string>, id: string, key: Persisted): IdCache
    decreases |types|
  {
    if types == [] then cache
    else Register(cache[CacheKey(types[0], id) := key], types[1..], id, key)
  }

  /**
   * Registering adds exactly the `type-id` names of `types`, all mapped to
   * `key`, and leaves every other entry of the cache as it was.
   */
  lemma {:induction false} RegisterFacts(cache: IdCache, types: seq<string>, id: string, key: Persisted)
    ensures var r := Register(cache, types, id, key);
            && (forall k :: k in r <==> k in cache || exists j :: 0 <= j < |types| && k == CacheKey(types[j], id))
            && (forall j :: 0 <= j < |types| ==> r[CacheKey(types[j], id)] == key)
            && (forall k :: k in cache && (forall j :: 0 <= j < |types| ==> k != CacheKey(types[j], id)) ==> r[k] == cache[k])
    decreases |types|
  {
    if types != [] {
      RegisterFacts(cache[CacheKey(types[0], id) := key], types[1..], id, key);
      assert forall j :: 1 <= j < |types| ==> types[j] == types[1..][j - 1];
    }
  }

  /** What one top-level entry of the document does. */
  datatype EntryOutcome =
    | Skipped
    | Loaded(cache: IdCache, op: DbOp)
    | Failed(error: LoadError)

  /**
   * One top-level entry: a key that does not match `Type(id)` is skipped;
   * otherwise the object must be new, its body a mapping (a null body is an
   * empty one), its lists free of nulls, its class known and its relations
   * resolvable; then it is saved and registered under its type and every
   * superclass.
   */
  function LoadEntry(e: Entry, cache: IdCache, schema: Schema): EntryOutcome
  {
    match ReadKey(e.key)
    case None => Skipped
    case Some(k) =>
      if CacheKey(k.typeName, k.id) in cache then Failed(DuplicateId(k.id, k.typeName))
      else
        var body := if e.value.Null? then Mapping([]) else e.value;
        if !body.Mapping? then Failed(NotAMapping(e.key))
        else
          match SerializeAll(body, OBJECT, map[])
          case None => Failed(NullListElement(e.key))
          case Some(params) =>
            if k.typeName !in schema then Failed(ClassNotFound(k.typeName))
            else
              var cls := schema[k.typeName];
              match Resolve(cls.properties, params, cache)
              case Failure(m) => Failed(NoPreviousReference(m.field, m.id))
              case Success(res) =>
                Loaded(Register(cache, [k.typeName] + cls.superclasses, k.id, Persisted(k.typeName, k.id)),
                       Save(k.typeName, k.id, res.params, res.references))
  }

  datatype LoadResult = LoadResult(cache: IdCache, ops: seq<DbOp>, error: Option<LoadError>)

  /**
   * The entries from the `i`-th on, in order, from `cache` with `ops` already
   * issued; the first failure stops the load, and only a load that gets
   * through every entry tells the plugins it is over.
   */
  function LoadFrom(entries: seq<Entry>, i: nat, cache: IdCache, ops: seq<DbOp>, schema: Schema): LoadResult
    requires i <= |entries|
    decreases |entries| - i
  {
    if i == |entries| then LoadResult(cache, ops + [AfterFixtureLoad], None)
    else
      match LoadEntry(entries[i], cache, schema)
      case Skipped => LoadFrom(entries, i + 1, cache, ops, schema)
      case Failed(e) => LoadResult(cache, ops, Some(e))
      case Loaded(c, op) => LoadFrom(entries, i + 1, c, ops + [op], schema)
  }

  /** One step of the fold, in terms of what the entry does. */
  lemma LoadFromStep(entries: seq<Entry>, i: nat, cache: IdCache, ops: seq<DbOp>, schema: Schema, outcome: EntryOutcome)
    requires i < |entries| && outcome == LoadEntry(entries[i], cache, schema)
    ensures LoadFrom(entries, i, cache, ops, schema) ==
              if outcome.Failed? then LoadResult(cache, ops, Some(outcome.error))
              else if outcome.Loaded? then LoadFrom(entries, i + 1, outcome.cache, ops + [outcome.op], schema)
              else LoadFrom(entries, i + 1, cache, ops, schema)
  {
  }

  /** `loadModels(yaml)` on the parsed document: only a mapping holds fixtures. */
  function Load(document: Yaml, cache: IdCache, schema: Schema): LoadResult
  {
    if document.Mapping? then LoadFrom(document.entries, 0, cache, [], schema)
    else LoadResult(cache, [AfterFixtureLoad], None)
  }

  /** One `deleteAll` per type, in order. */
  function DeleteAlls(types: seq<string>): (r: seq<DbOp>)
    ensures |r| == |types| && forall i :: 0 <= i < |types| ==> r[i] == DeleteAll(types[i])
  {
    seq(|types|, i requires 0 <= i < |types| => DeleteAll(types[i]))
  }

  /** The operations of `delete(types)`: every type's instances deleted, with the constraints off. */
  function DeleteOps(types: seq<string>): seq<DbOp>
  {
    [DisableForeignKeyConstraints] + DeleteAlls(types) + [EnableForeignKeyConstraints, AfterFixtureLoad]
  }

  /** The statement emptying each table, in order. */
  function DeleteStatements(url: string, tables: seq<string>): (r: seq<DbOp>)
    ensures |r| == |tables| && forall i :: 0 <= i < |tables| ==> r[i] == Execute(DeleteTableStmt(url, tables[i]))
  {
    seq(|tables|, i requires 0 <= i < |tables| => Execute(DeleteTableStmt(url, tables[i])))
  }

  lemma DeleteStatementsAppend(url: string, tables: seq<string>, table: string)
    ensures DeleteStatements(url, tables + [table]) == DeleteStatements(url, tables) + [Execute(DeleteTableStmt(url, table))]
  {
    var a, b := DeleteStatements(url, tables + [table]), DeleteStatements(url, tables) + [Execute(DeleteTableStmt(url, table))];
    assert |a| == |b|;
    forall i | 0 <= i < |a| ensures a[i] == b[i] {
      if i < |tables| {
        assert (tables + [table])[i] == tables[i];
      }
    }
  }

  /** The operations of `deleteDatabase()` on the database at `url` holding the tables `names`. */
  function DeleteDatabaseOps(url: string, names: seq<string>): seq<DbOp>
  {
    [DisableForeignKeyConstraints] + DeleteStatements(url, TablesToEmpty(names)) + [EnableForeignKeyConstraints, AfterFixtureLoad]
  }

  lemma {:induction false} TablesToEmptyAppend(names: seq<string>, name: string)
    ensures TablesToEmpty(names + [name]) ==
              TablesToEmpty(names) + (if name in DONT_DELETE_THESE_TABLES then [] else [name])
    decreases |names|
  {
    var tail := if name in DONT_DELETE_THESE_TABLES then [] else [name];
    if names == [] {
      assert names + [name] == [name];
      assert TablesToEmpty([name]) == tail + TablesToEmpty([]);
    } else {
      var head := if names[0] in DONT_DELETE_THESE_TABLES then [] else [names[0]];
      assert (names + [name])[0] == names[0];
      assert (names + [name])[1..] == names[1..] + [name];
      TablesToEmptyAppend(names[1..], name);
      assert TablesToEmpty(names) == head + TablesToEmpty(names[1..]);
      assert TablesToEmpty(names + [name]) == head + TablesToEmpty(names[1..] + [name]);
    }
  }

  class FixtureLoader {
    /** `idCache`. */
    var idCache: IdCache
    /** Everything asked of the database and the plugins so far, oldest first. */
    var log: seq<DbOp>

    constructor ()
      ensures idCache == map[] && log == []
    {
      idCache := map[];
      log := [];
    }

    /** `clearIdCache()`. */
    method ClearIdCache()
      modifies this
      ensures idCache == map[] && log == old(log)
    {
      idCache := map[];
    }

    /** `delete(types)`: a failing `deleteAll` is logged and the next type is tried. */
    method Delete(types: seq<string>)
      modifies this
      ensures idCache == map[] && log == old(log) + DeleteOps(types)
    {
      idCache := map[];
      log := log + [DisableForeignKeyConstraints];
      ghost var start := log;
      var i := 0;
      while i < |types|
        invariant 0 <= i <= |types| && idCache == map[]
        invariant log == start + DeleteAlls(types[..i])
      {
        assert DeleteAlls(types[..i + 1]) == DeleteAlls(types[..i]) + [DeleteAll(types[i])];
        log := log + [DeleteAll(types[i])];
        i := i + 1;
      }
      assert types[..i] == types;
      log := log + [EnableForeignKeyConstraints, AfterFixtureLoad];
      assert log == old(log) + DeleteOps(types);
    }

    /** `deleteDatabase()`, the table names being what the database's metadata lists. */
    method DeleteDatabase(url: string, names: seq<string>)
      modifies this
      ensures idCache == map[] && log == old(log) + DeleteDatabaseOps(url, names)
    {
      idCache := map[];
      log := log + [DisableForeignKeyConstraints];
      ghost var start := log;
      var i := 0;
      while i < |names|
        invariant 0 <= i <= |names| && idCache == map[]
        invariant log == start + DeleteStatements(url, TablesToEmpty(names[..i]))
      {
        TablesToEmptyAppend(names[..i], names[i]);
        assert names[..i + 1] == names[..i] + [names[i]];
        if names[i] !in DONT_DELETE_THESE_TABLES {
          DeleteStatementsAppend(url, TablesToEmpty(names[..i]), names[i]);
          log := log + [Execute(DeleteTableStmt(url, names[i]))];
        }
        i := i + 1;
      }
      assert names[..i] == names;
      log := log + [EnableForeignKeyConstraints, AfterFixtureLoad];
    }

    /**
     * `loadModels(yaml)`: the objects are saved and registered one by one,
     * so a failure leaves the earlier ones saved and in the cache.
     */
    method LoadModels(document: Yaml, schema: Schema) returns (error: Option<LoadError>)
      modifies this
      ensures var r := Load(document, old(idCache), schema);
              idCache == r.cache && log == old(log) + r.ops && error == r.error
    {
      if !document.Mapping? {
        log := log + [AfterFixtureLoad];
        return None;
      }
      error := LoadEntries(document.entries, schema);
    }

    /** The loop over the top-level keys of a document that is a mapping. */
    method LoadEntries(entries: seq<Entry>, schema: Schema) returns (error: Option<LoadError>)
      modifies this
      ensures var r := LoadFrom(entries, 0, old(idCache), [], schema);
              idCache == r.cache && log == old(log) + r.ops && error == r.error
    {
      ghost var ops: seq<DbOp> := [];
      ghost var goal := LoadFrom(entries, 0, idCache, [], schema);
      var i := 0;
      while i < |entries|
        invariant 0 <= i <= |entries|
        invariant goal == LoadFrom(entries, i, idCache, ops, schema)
        invariant log == old(log) + ops
      {
        ghost var before := idCache;
        ghost var outcome;
        error, outcome := LoadObject(entries[i], schema);
        LoadFromStep(entries, i, before, ops, schema, outcome);
        if error.Some? {
          return;
        }
        if outcome.Loaded? {
          ops := ops + [outcome.op];
        }
        i := i + 1;
      }
      log := log + [AfterFixtureLoad];
      ops := ops + [AfterFixtureLoad];
      return None;
    }

    /** The body of the loop over the top-level keys: one entry loaded, skipped, or the error it raises. */
    method LoadObject(e: Entry, schema: Schema) returns (error: Option<LoadError>, ghost outcome: EntryOutcome)
      modifies this
      ensures outcome == LoadEntry(e, old(idCache), schema)
      ensures error == (if outcome.Failed? then Some(outcome.error) else None)
      ensures idCache == (if outcome.Loaded? then outcome.cache else old(idCache))
      ensures log == old(log) + (if outcome.Loaded? then [outcome.op] else [])
    {
      outcome := LoadEntry(e, idCache, schema);
      var key := ReadKey(e.key);
      if key.None? {
        return None, outcome;
      }
      var typeName, id := key.value.typeName, key.value.id;
      if CacheKey(typeName, id) in idCache {
        return Some(DuplicateId(id, typeName)), outcome;
      }
      var body := e.value;
      if body.Null? {
        body := Mapping([]);
      }
      if !body.Mapping? {
        return Some(NotAMapping(e.key)), outcome;
      }
      var params := Serialize(body, OBJECT, map[]);
      if params.None? {
        return Some(NullListElement(e.key)), outcome;
      }
      if typeName !in schema {
        return Some(ClassNotFound(typeName)), outcome;
      }
      var cls := schema[typeName];
      var resolved := ResolveDependencies(cls.properties, params.value, idCache);
      if resolved.Failure? {
        return Some(NoPreviousReference(resolved.error.field, resolved.error.id)), outcome;
      }
      log := log + [Save(typeName, id, resolved.value.params, resolved.value.references)];
      RegisterAll([typeName] + cls.superclasses, id, Persisted(typeName, id));
      return None, outcome;
    }

    /** The walk up the class hierarchy that caches the saved object's key under each type. */
    method RegisterAll(hierarchy: seq<string>, id: string, key: Persisted)
      modifies this
      ensures idCache == Register(old(idCache), hierarchy, id, key) && log == old(log)
    {
      var j := 0;
      while j < |hierarchy|
        invariant 0 <= j <= |hierarchy| && log == old(log)
        invariant Register(old(idCache), hierarchy, id, key) == Register(idCache, hierarchy[j..], id, key)
      {
        assert hierarchy[j..][1..] == hierarchy[j + 1..];
        idCache := idCache[CacheKey(hierarchy[j], id) := key];
        j := j + 1;
      }
    }
  }
}
