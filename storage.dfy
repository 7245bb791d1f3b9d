/**
 * The tables of a remerge database: `rec_local` (this device's overlay),
 * `rec_mirror` (the last state seen on the server), `remerge_schemas` and
 * `meta`. Each table is a map from its unique key to its row; the SQL the
 * storage layer runs becomes updates of these maps. This module also states
 * which record is visible, and the invariant the storage operations keep.
 */
module Storage {
  import opened Errors
  import opened Meta

  type Guid = string

  /** The JSON text stored in a `record_data` column. */
  type LocalRecord = string

  /** The tombstone's `record_data`: an empty JSON object. */
  const EmptyRecordData: LocalRecord := "{}"

  /** A field value of a record as the application sees it. */
  datatype JsonValue = JNull | JString(s: string) | JOther(text: string)

  /** A record as the application sees it: field name to value. */
  type NativeRecord = map<string, JsonValue>

  /** The `sync_status` column; `Code` is the number stored. */
  datatype SyncStatus = Synced | Changed | New {
    function Code(): nat {
      match this
      case Synced => 0
      case Changed => 1
      case New => 2
    }
  }

  /** SQL `max(a, b)` over stored status codes. */
  function MaxStatus(a: SyncStatus, b: SyncStatus): (r: SyncStatus)
    ensures r.Code() >= a.Code() && r.Code() >= b.Code()
    ensures r == a || r == b
  {
    if a.Code() >= b.Code() then a else b
  }

  /** A vector clock: the last change counter seen from each client. */
  type VClock = map<Guid, nat>

  /**
   * A row of `rec_local`. `lastWriterId` and `schemaVersion` are nullable
   * columns: an INSERT that supplies no value leaves them NULL (None).
   */
  datatype LocalRow = LocalRow(
    data: LocalRecord,
    localModifiedMs: int,
    isDeleted: bool,
    syncStatus: SyncStatus,
    vclock: VClock,
    lastWriterId: Option<Guid>,
    schemaVersion: Option<string>)

  /** A row of `rec_mirror`. */
  datatype MirrorRow = MirrorRow(
    data: LocalRecord,
    vclock: VClock,
    lastWriterId: Guid,
    isOverridden: bool)

  /** A row of `remerge_schemas`, keyed by the schema's version. */
  datatype SchemaRow = SchemaRow(isLegacy: bool, requiredVersion: string, text: string)

  /** The parts of a parsed record schema the storage layer uses; versions are kept as their text. */
  datatype RecordSchema = RecordSchema(
    name: string,
    version: string,
    requiredVersion: string,
    legacy: bool,
    source: string,
    ownGuidField: string)

  /** The schema the database's records are stored in, the one the application speaks, and the collection. */
  datatype SchemaBundle = SchemaBundle(local: RecordSchema, native: RecordSchema, collectionName: string)

  datatype ToLocalReason = Creation | Update(prev: LocalRecord)

  /**
   * The record conversions of a schema bundle, which live outside the
   * storage layer: each may fail.
   */
  datatype Codec = Codec(
    nativeToLocal: (NativeRecord, ToLocalReason) -> Result<(Guid, LocalRecord)>,
    localToNative: LocalRecord -> Result<NativeRecord>,
    validateGuid: (string, JsonValue) -> Result<Guid>)

  /** The value of field `f` of a record, a missing field read as null. */
  function FieldOrNull(rec: NativeRecord, f: string): JsonValue {
    if f in rec then rec[f] else JNull
  }

  /** The contents of all four tables at one moment. */
  datatype TableState = TableState(
    meta: MetaMap,
    schemas: map<string, SchemaRow>,
    local: map<Guid, LocalRow>,
    mirror: map<Guid, MirrorRow>)

  /** A connection to a remerge database: its four tables, updated in place. */
  class Connection {
    var meta: MetaMap
    var schemas: map<string, SchemaRow>
    var local: map<Guid, LocalRow>
    var mirror: map<Guid, MirrorRow>

    constructor (meta: MetaMap, schemas: map<string, SchemaRow>, local: map<Guid, LocalRow>, mirror: map<Guid, MirrorRow>)
      ensures this.meta == meta && this.schemas == schemas
      ensures this.local == local && this.mirror == mirror
    {
      this.meta := meta;
      this.schemas := schemas;
      this.local := local;
      this.mirror := mirror;
    }

    /** The tables as they stand; taken when a transaction begins. */
    function State(): TableState
      reads this
    {
      TableState(meta, schemas, local, mirror)
    }

    /** Rolls the tables back to the state taken when the transaction began. */
    method Restore(saved: TableState)
      modifies this
      ensures State() == saved
      ensures meta == saved.meta && schemas == saved.schemas
      ensures local == saved.local && mirror == saved.mirror
    {
      meta, schemas, local, mirror := saved.meta, saved.schemas, saved.local, saved.mirror;
    }
  }

  /** `rec_local` holds a row for `id` that is not a tombstone. */
  predicate LocalLive(local: map<Guid, LocalRow>, id: Guid) {
    id in local && !local[id].isDeleted
  }

  /** `rec_mirror` holds a row for `id` that no local change overrides. */
  predicate MirrorLive(mirror: map<Guid, MirrorRow>, id: Guid) {
    id in mirror && !mirror[id].isOverridden
  }

  /** A record is visible when either table shows it. */
  predicate Visible(local: map<Guid, LocalRow>, mirror: map<Guid, MirrorRow>, id: Guid) {
    LocalLive(local, id) || MirrorLive(mirror, id)
  }

  /** The columns the single-record queries read. */
  datatype Shown = Shown(data: LocalRecord, vclock: VClock)

  /**
   * The first row of `SELECT ... FROM rec_local WHERE live UNION ALL SELECT ...
   * FROM rec_mirror WHERE live`: the local row wins over the mirror row.
   */
  function Lookup(local: map<Guid, LocalRow>, mirror: map<Guid, MirrorRow>, id: Guid): (s: Option<Shown>)
    ensures s.Some? <==> Visible(local, mirror, id)
    ensures LocalLive(local, id) ==> s == Some(Shown(local[id].data, local[id].vclock))
    ensures !LocalLive(local, id) && MirrorLive(mirror, id) ==> s == Some(Shown(mirror[id].data, mirror[id].vclock))
  {
    if LocalLive(local, id) then Some(Shown(local[id].data, local[id].vclock))
    else if MirrorLive(mirror, id) then Some(Shown(mirror[id].data, mirror[id].vclock))
    else None
  }

  /** The live rows of `rec_local`, as `SELECT record_data ... WHERE is_deleted = 0` reads them. */
  function LiveLocalData(local: map<Guid, LocalRow>): map<Guid, LocalRecord> {
    map id | id in local && !local[id].isDeleted :: local[id].data
  }

  /** The live rows of `rec_mirror`, as `SELECT record_data ... WHERE is_overridden = 0` reads them. */
  function LiveMirrorData(mirror: map<Guid, MirrorRow>): map<Guid, LocalRecord> {
    map id | id in mirror && !mirror[id].isOverridden :: mirror[id].data
  }

  /** `UPDATE rec_mirror SET is_overridden = 1 WHERE guid = :guid`. */
  function MarkOverridden(mirror: map<Guid, MirrorRow>, id: Guid): map<Guid, MirrorRow> {
    if id in mirror then mirror[id := mirror[id].(isOverridden := true)] else mirror
  }

  /** The local overlay cloned from a mirror row: unmodified, live, and synced. */
  function CloneOf(m: MirrorRow): LocalRow {
    LocalRow(m.data, 0, false, Synced, m.vclock, Some(m.lastWriterId), None)
  }

  /** The local row of `id` once an overlay is ensured: the existing one, or a clone of the mirror. */
  function Overlay(local: map<Guid, LocalRow>, mirror: map<Guid, MirrorRow>, id: Guid): Option<LocalRow> {
    if id in local then Some(local[id])
    else if id in mirror then Some(CloneOf(mirror[id]))
    else None
  }

  /** Wherever a local row exists, the mirror row of the same record is overridden. */
  predicate OverlayConsistent(local: map<Guid, LocalRow>, mirror: map<Guid, MirrorRow>) {
    forall id :: id in local && id in mirror ==> mirror[id].isOverridden
  }

  /** No local row carries a stamp of this client newer than the stored change counter. */
  predicate StampsBounded(local: map<Guid, LocalRow>, client: Guid, meta: MetaMap) {
    ChangeCounter in meta && meta[ChangeCounter].IntValue? ==>
      forall id :: id in local && client in local[id].vclock ==>
        local[id].vclock[client] <= meta[ChangeCounter].i
  }

  /** No mirror row carries a stamp of this client newer than the stored change counter. */
  predicate MirrorStampsBounded(mirror: map<Guid, MirrorRow>, client: Guid, meta: MetaMap) {
    ChangeCounter in meta && meta[ChangeCounter].IntValue? ==>
      forall id :: id in mirror && client in mirror[id].vclock ==>
        mirror[id].vclock[client] <= meta[ChangeCounter].i
  }

  /** The invariant the storage operations keep. */
  predicate StoreInvariant(local: map<Guid, LocalRow>, mirror: map<Guid, MirrorRow>, meta: MetaMap, client: Guid) {
    && OverlayConsistent(local, mirror)
    && CounterSound(meta)
    && StampsBounded(local, client, meta)
    && MirrorStampsBounded(mirror, client, meta)
  }

  /**
   * A local write that overrides the record's mirror row and stamps it with
   * at most the bumped counter keeps the invariant; the bumped counter is
   * newer than every stamp this client wrote before.
   */
  lemma StampedWriteKeepsInvariant(
    local: map<Guid, LocalRow>, mirror: map<Guid, MirrorRow>, meta: MetaMap, client: Guid,
    id: Guid, row: LocalRow, c: int)
    requires StoreInvariant(local, mirror, meta, client)
    requires ChangeCounter in meta && meta[ChangeCounter] == IntValue(c) && c >= 0
    requires client in row.vclock ==> row.vclock[client] <= c + 1
    ensures StoreInvariant(local[id := row], MarkOverridden(mirror, id), meta[ChangeCounter := IntValue(c + 1)], client)
    ensures forall other :: other in local && client in local[other].vclock ==> local[other].vclock[client] < c + 1
    ensures forall other :: other in mirror && client in mirror[other].vclock ==> mirror[other].vclock[client] < c + 1
  {
  }

  /**
   * Under the invariant a visible record is shown by exactly one table, and
   * ensuring its overlay yields a live local row carrying the clock that
   * `Lookup` reads.
   */
  lemma VisibleOverlayIsLive(local: map<Guid, LocalRow>, mirror: map<Guid, MirrorRow>, id: Guid)
    requires OverlayConsistent(local, mirror)
    requires Visible(local, mirror, id)
    ensures !(LocalLive(local, id) && MirrorLive(mirror, id))
    ensures Overlay(local, mirror, id).Some? && !Overlay(local, mirror, id).value.isDeleted
    ensures Overlay(local, mirror, id).value.vclock == Lookup(local, mirror, id).value.vclock
  {
  }
}
