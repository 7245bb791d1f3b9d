/**
 * Opening a remerge database: the first open seeds the schema table and the
 * metadata keys; a later open checks the stored collection name, clears any
 * sync lockout, records the application's schema version and loads the
 * stored local schema. Both run inside the caller's transaction, so a failure
 * leaves every table as it was.
 */
module Bootstrap {
  import opened Errors
  import opened Meta
  import opened Storage

  /** The `remerge_schemas` row recording a schema. */
  function SchemaRowOf(s: RecordSchema): SchemaRow {
    SchemaRow(s.legacy, s.requiredVersion, s.source)
  }

  /** The metadata after a first open with schema `native` and client id `guid`. */
  ghost function SeededMeta(m: MetaMap, native: RecordSchema, guid: Guid): MetaMap {
    m[OwnClientId := TextValue(guid)]
     [LocalSchemaVersion := TextValue(native.version)]
     [NativeSchemaVersion := TextValue(native.version)]
     [CollectionName := TextValue(native.name)]
     [ChangeCounter := IntValue(1)]
  }

  /** What a first open does to the tables and what it returns. */
  ghost predicate BootstrapEffect(
    before: TableState, after: TableState, native: RecordSchema, guid: Guid,
    r: Result<(SchemaBundle, Guid)>)
  {
    if native.version in before.schemas then
      // the INSERT into remerge_schemas hits the unique version
      r == Failure(SqlError(ConstraintViolation)) && after == before
    else
      && r == Success((SchemaBundle(native, native, native.name), guid))
      && after == before.(meta := SeededMeta(before.meta, native, guid),
                          schemas := before.schemas[native.version := SchemaRowOf(native)])
  }

  /**
   * A first open of a database with no records leaves a store satisfying the
   * invariant for the client id it returns, with that id in the metadata.
   */
  lemma BootstrapEstablishesInvariant(
    before: TableState, after: TableState, native: RecordSchema, guid: Guid, r: Result<(SchemaBundle, Guid)>)
    requires BootstrapEffect(before, after, native, guid, r)
    requires before.local == map[] && before.mirror == map[]
    requires r.Success?
    ensures StoreInvariant(after.local, after.mirror, after.meta, r.value.1)
    ensures GetText(after.meta, OwnClientId) == Success(r.value.1)
  {
  }

  /**
   * First open: records `native` as both the local and the native schema,
   * seeds the metadata keys and returns `guid` (a fresh random id) as this
   * client's id.
   */
  method Bootstrap(db: Connection, native: RecordSchema, guid: Guid) returns (r: Result<(SchemaBundle, Guid)>)
    modifies db
    ensures BootstrapEffect(old(db.State()), db.State(), native, guid, r)
    ensures r.Success? ==>
      && GetInt(db.meta, ChangeCounter) == Success(1)
      && GetText(db.meta, LocalSchemaVersion) == Success(native.version)
      && GetText(db.meta, NativeSchemaVersion) == Success(native.version)
      && TryGetText(db.meta, CollectionName) == Success(Some(native.name))
      && GetText(db.meta, OwnClientId) == Success(guid)
      && r.value.0.local == native && r.value.0.collectionName == native.name
  {
    var tx := db.State();
    db.meta := db.meta[OwnClientId := TextValue(guid)];
    var verStr := native.version;
    if verStr in db.schemas {
      db.Restore(tx);
      return Failure(SqlError(ConstraintViolation));
    }
    db.schemas := db.schemas[verStr := SchemaRowOf(native)];
    db.meta := db.meta[LocalSchemaVersion := TextValue(verStr)];
    db.meta := db.meta[NativeSchemaVersion := TextValue(verStr)];
    db.meta := db.meta[CollectionName := TextValue(native.name)];
    db.meta := db.meta[ChangeCounter := IntValue(1)];
    r := Success((SchemaBundle(native, native, native.name), guid));
  }

  /**
   * Opens the database for schema `native`. With no stored collection name it
   * is a first open (`Bootstrap` with `freshGuid`); otherwise the stored
   * metadata is checked and loaded, `parse` standing for schema parsing.
   */
  method LoadOrBootstrap(db: Connection, native: RecordSchema, freshGuid: Guid, parse: string -> Result<RecordSchema>)
    returns (r: Result<(SchemaBundle, Guid)>)
    modifies db
    ensures r.Failure? ==> db.State() == old(db.State())
    ensures TryGetText(old(db.meta), CollectionName).Failure? ==> r.Failure?
    // the client id returned is the one the metadata holds afterwards
    ensures r.Success? ==> GetText(db.meta, OwnClientId) == Success(r.value.1)
    // no stored collection name: exactly a first open
    ensures TryGetText(old(db.meta), CollectionName) == Success(None) ==>
      BootstrapEffect(old(db.State()), db.State(), native, freshGuid, r)
    // a stored collection name must match the schema's
    ensures forall name :: TryGetText(old(db.meta), CollectionName) == Success(Some(name)) && name != native.name ==>
      r == Failure(SchemaNameMatchError(native.name, name))
    // the load path
    ensures TryGetText(old(db.meta), CollectionName) == Success(Some(native.name)) ==>
      var localVer, nativeVer, clientId :=
        GetText(old(db.meta), LocalSchemaVersion), GetText(old(db.meta), NativeSchemaVersion), GetText(old(db.meta), OwnClientId);
      && (r.Success? <==>
            && localVer.Success? && nativeVer.Success? && clientId.Success?
            && localVer.value in old(db.schemas)
            && parse(old(db.schemas)[localVer.value].text).Success?)
      && (r.Success? ==>
            && r.value.1 == clientId.value
            && r.value.0 == SchemaBundle(parse(old(db.schemas)[localVer.value].text).value, native, native.name)
            && SyncNativeVersionThreshold !in db.meta
            && GetText(db.meta, NativeSchemaVersion) == Success(native.version)
            && db.meta == (old(db.meta) - {SyncNativeVersionThreshold})[NativeSchemaVersion := TextValue(native.version)]
            && db.schemas == old(db.schemas) && db.local == old(db.local) && db.mirror == old(db.mirror))
  {
    var stored :- TryGetText(db.meta, CollectionName);
    if stored.None? {
      r := Bootstrap(db, native, freshGuid);
      return;
    }
    var name := stored.value;
    if name != native.name {
      return Failure(SchemaNameMatchError(native.name, name));
    }
    var localVer :- GetText(db.meta, LocalSchemaVersion);
    var nativeVer :- GetText(db.meta, NativeSchemaVersion);
    var clientId :- GetText(db.meta, OwnClientId);
    var tx := db.State();
    assert tx == old(db.State());
    // clear any pending lockout so that the next sync is attempted
    db.meta := db.meta - {SyncNativeVersionThreshold};
    if nativeVer != native.version {
      db.meta := db.meta[NativeSchemaVersion := TextValue(native.version)];
    }
    if localVer !in db.schemas {
      db.Restore(tx);
      return Failure(SqlError(QueryReturnedNoRows));
    }
    var parsed := parse(db.schemas[localVer].text);
    if parsed.Failure? {
      db.Restore(tx);
      return Failure(parsed.error);
    }
    r := Success((SchemaBundle(parsed.value, native, name), clientId));
  }

  /**
   * Opening a fresh database and then opening it again with the same schema:
   * the second open takes the load path and returns the client id the first
   * open chose, whatever fresh id it is offered.
   */
  method ReopenAfterBootstrap(
    db: Connection, native: RecordSchema, first: Guid, second: Guid, parse: string -> Result<RecordSchema>)
    returns (created: Result<(SchemaBundle, Guid)>, reopened: Result<(SchemaBundle, Guid)>)
    requires CollectionName !in db.meta
    requires native.version !in db.schemas
    requires parse(native.source).Success?
    modifies db
    ensures created == Success((SchemaBundle(native, native, native.name), first))
    ensures reopened == Success((SchemaBundle(parse(native.source).value, native, native.name), first))
  {
    created := LoadOrBootstrap(db, native, first, parse);
    reopened := LoadOrBootstrap(db, native, second, parse);
  }
}
