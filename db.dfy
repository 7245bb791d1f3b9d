/**
 * The remerge record store: records live in `rec_mirror` as last seen on the
 * server and in `rec_local` as changed on this device, the local row
 * overriding the mirror row. Every local write bumps the global change
 * counter in `meta` and stamps the record's vector clock with this client's
 * id and the new counter. Each public operation runs in one transaction: when
 * it fails, no table has changed.
 */
module Db {
  import opened Errors
  import opened Meta
  import opened Storage

  /** The message of the `NotYetImplemented` error both upgrades raise. */
  const DedupeUpgradeMessage: string := "Upgrades that add additional items to dedupe_on"

  /** How an upgrade between two schemas must be carried out; only `RequiresDedupe` is distinguished here. */
  datatype UpgradeKind = RequiresDedupe | WithoutDedupe

  /** A remote schema change: `from` is the schema the server held before, if any. */
  datatype UpgradeRemote = UpgradeRemote(freshServer: bool, from: Option<RecordSchema>)

  /** The local row after `delete_by_id`'s UPDATE: a tombstone with the data cleared. */
  function DeletedRow(row: LocalRow, now: int, vc: VClock, writer: Guid): LocalRow {
    row.(localModifiedMs := now, syncStatus := Changed, isDeleted := true,
         data := EmptyRecordData, vclock := vc, lastWriterId := Some(writer))
  }

  /** The tombstone `delete_by_id` inserts for a record only the mirror holds, stamped with its writer. */
  function Tombstone(now: int, vc: VClock, writer: Guid, schemaVersion: string): LocalRow {
    LocalRow(EmptyRecordData, now, true, Changed, vc, Some(writer), Some(schemaVersion))
  }

  /**
   * The tombstone as the INSERT statement writes it: the statement names an
   * `:own_id` parameter its parameter list never binds, so `last_writer_id`
   * is NULL.
   */
  function TombstoneAsWritten(now: int, vc: VClock, schemaVersion: string): LocalRow {
    LocalRow(EmptyRecordData, now, true, Changed, vc, None, Some(schemaVersion))
  }

  /** As written, deleting a mirror-only record does not record who deleted it, unlike deleting a local one. */
  lemma TombstoneAsWrittenLosesWriter(row: LocalRow, now: int, vc: VClock, client: Guid, schemaVersion: string)
    ensures TombstoneAsWritten(now, vc, schemaVersion).lastWriterId != DeletedRow(row, now, vc, client).lastWriterId
    ensures TombstoneAsWritten(now, vc, schemaVersion).lastWriterId.None?
  {
  }

  /** Both branches of a delete leave the same tombstone columns, writer included. */
  lemma DeleteBranchesAgree(row: LocalRow, now: int, vc: VClock, client: Guid, schemaVersion: string)
    ensures var a, b := DeletedRow(row, now, vc, client), Tombstone(now, vc, client, schemaVersion);
      && a.isDeleted && b.isDeleted
      && a.data == b.data == EmptyRecordData
      && a.syncStatus == b.syncStatus == Changed
      && a.vclock == b.vclock == vc
      && a.lastWriterId == b.lastWriterId == Some(client)
      && a.localModifiedMs == b.localModifiedMs == now
  {
  }

  /** The local row after `update_record`'s UPDATE; the status only moves up. */
  function Rewritten(base: LocalRow, data: LocalRecord, now: int, vc: VClock, writer: Guid, schemaVersion: string): (row: LocalRow)
    ensures row.syncStatus.Code() >= base.syncStatus.Code()
    ensures row.syncStatus.Code() >= Changed.Code()
    ensures row.isDeleted == base.isDeleted
  {
    base.(localModifiedMs := now, data := data, vclock := vc, lastWriterId := Some(writer),
          schemaVersion := Some(schemaVersion), syncStatus := MaxStatus(base.syncStatus, Changed))
  }

  /** Every record's conversion succeeds. */
  predicate AllConvert(codec: Codec, rows: map<Guid, LocalRecord>) {
    forall id :: id in rows ==> codec.localToNative(rows[id]).Success?
  }

  /** `out` converts the rows of `rows` taken in the order `order`, each exactly once. */
  ghost predicate Enumerates(codec: Codec, rows: map<Guid, LocalRecord>, order: seq<Guid>, out: seq<NativeRecord>) {
    && multiset(order) == multiset(rows.Keys)
    && |out| == |order|
    && forall i :: 0 <= i < |order| ==> order[i] in rows && codec.localToNative(rows[order[i]]) == Success(out[i])
  }

  /**
   * Converts every row of a query result, stopping at the first conversion
   * that fails; the rows come in an order the database chooses.
   */
  method CollectNative(codec: Codec, rows: map<Guid, LocalRecord>)
    returns (r: Result<seq<NativeRecord>>, ghost order: seq<Guid>)
    ensures r.Success? <==> AllConvert(codec, rows)
    ensures r.Failure? ==> exists id :: id in rows && codec.localToNative(rows[id]) == Failure(r.error)
    ensures r.Success? ==> Enumerates(codec, rows, order, r.value)
  {
    var todo := rows.Keys;
    var out: seq<NativeRecord> := [];
    order := [];
    while todo != {}
      invariant todo <= rows.Keys
      invariant multiset(order) + multiset(todo) == multiset(rows.Keys)
      invariant |out| == |order|
      invariant forall i :: 0 <= i < |order| ==> order[i] in rows && codec.localToNative(rows[order[i]]) == Success(out[i])
      invariant forall id :: id in rows && id !in todo ==> codec.localToNative(rows[id]).Success?
      decreases |todo|
    {
      var id :| id in todo;
      var n := codec.localToNative(rows[id]);
      if n.Failure? {
        r := Failure(n.error);
        return;
      }
      assert multiset(todo - {id}) + multiset{id} == multiset(todo);
      out := out + [n.value];
      order := order + [id];
      todo := todo - {id};
    }
    r := Success(out);
  }

  class RemergeDb {
    const db: Connection
    var info: SchemaBundle
    const clientId: Guid

    ghost predicate Valid()
      reads this, db
    {
      StoreInvariant(db.local, db.mirror, db.meta, clientId)
    }

    /** A store over an opened connection, with the bundle and client id its metadata yielded. */
    constructor (db: Connection, info: SchemaBundle, clientId: Guid)
      requires StoreInvariant(db.local, db.mirror, db.meta, clientId)
      requires GetText(db.meta, OwnClientId) == Success(clientId)
      ensures this.db == db && this.info == info && this.clientId == clientId
      ensures Valid()
    {
      this.db := db;
      this.info := info;
      this.clientId := clientId;
    }

    /** Whether the record `id` is visible: a live local row, or a mirror row not overridden. */
    method Exists(id: Guid) returns (b: bool)
      ensures b == Visible(db.local, db.mirror, id)
    {
      var liveLocal := id in db.local && !db.local[id].isDeleted;
      var liveMirror := id in db.mirror && !db.mirror[id].isOverridden;
      b := liveLocal || liveMirror;
    }

    /** Reads, increments and stores the global change counter, returning the new value. */
    method CounterBump() returns (r: Result<nat>)
      requires CounterHasRoom(db.meta)
      modifies db
      ensures GetInt(old(db.meta), ChangeCounter).Failure? ==>
        r == Failure(GetInt(old(db.meta), ChangeCounter).error) && db.State() == old(db.State())
      ensures GetInt(old(db.meta), ChangeCounter).Success? ==>
        var c := GetInt(old(db.meta), ChangeCounter).value;
        && r == Success(c + 1)
        && db.meta == old(db.meta)[ChangeCounter := IntValue(c + 1)]
      ensures db.local == old(db.local) && db.mirror == old(db.mirror) && db.schemas == old(db.schemas)
    {
      var ctr :- GetInt(db.meta, ChangeCounter);
      // a negative counter or an i64 overflow is a panic; CounterHasRoom rules both out
      ctr := ctr + 1;
      db.meta := db.meta[ChangeCounter := IntValue(ctr)];
      r := Success(ctr);
    }

    /** The vector clock of the visible row of `id`; a query for an invisible record returns no row. */
    method GetVClock(id: Guid) returns (r: Result<VClock>)
      ensures r.Success? <==> Visible(db.local, db.mirror, id)
      ensures r.Success? ==> r.value == Lookup(db.local, db.mirror, id).value.vclock
      ensures r.Failure? ==> r.error == SqlError(QueryReturnedNoRows)
    {
      if id in db.local && !db.local[id].isDeleted {
        r := Success(db.local[id].vclock);
      } else if id in db.mirror && !db.mirror[id].isOverridden {
        r := Success(db.mirror[id].vclock);
      } else {
        r := Failure(SqlError(QueryReturnedNoRows));
      }
    }

    /** The clock of the visible row of `id`, stamped with this client and a freshly bumped counter. */
    method GetBumpedVClock(id: Guid) returns (r: Result<VClock>)
      requires CounterHasRoom(db.meta)
      modifies db
      ensures !old(Visible(db.local, db.mirror, id)) ==>
        r == Failure(SqlError(QueryReturnedNoRows)) && db.State() == old(db.State())
      ensures old(Visible(db.local, db.mirror, id)) && GetInt(old(db.meta), ChangeCounter).Failure? ==>
        r == Failure(GetInt(old(db.meta), ChangeCounter).error) && db.State() == old(db.State())
      ensures old(Visible(db.local, db.mirror, id)) && GetInt(old(db.meta), ChangeCounter).Success? ==>
        var c := GetInt(old(db.meta), ChangeCounter).value + 1;
        && r == Success(old(Lookup(db.local, db.mirror, id)).value.vclock[clientId := c])
        && db.meta == old(db.meta)[ChangeCounter := IntValue(c)]
      ensures db.local == old(db.local) && db.mirror == old(db.mirror) && db.schemas == old(db.schemas)
    {
      var vc :- GetVClock(id);
      var counter :- CounterBump();
      r := Success(vc[clientId := counter]);
    }

    /**
     * Stores a new record. Fails with `IdNotUnique` when a record with its id
     * is visible; otherwise inserts a live local row with status `New`,
     * written by this client and stamped with the bumped counter.
     */
    method Create(codec: Codec, native: NativeRecord, now: int) returns (r: Result<Guid>)
      requires Valid() && CounterHasRoom(db.meta)
      modifies db
      ensures Valid()
      ensures r.Failure? ==> db.State() == old(db.State())
      ensures codec.nativeToLocal(native, Creation).Failure? ==>
        r == Failure(codec.nativeToLocal(native, Creation).error)
      ensures codec.nativeToLocal(native, Creation).Success? ==>
        var (id, record) := codec.nativeToLocal(native, Creation).value;
        var ctr := GetInt(old(db.meta), ChangeCounter);
        && (old(Visible(db.local, db.mirror, id)) ==> r == Failure(InvalidRecord(IdNotUnique)))
        && (!old(Visible(db.local, db.mirror, id)) && ctr.Failure? ==> r == Failure(ctr.error))
        // the guid column of rec_local is unique, so an old tombstone blocks the INSERT
        && (!old(Visible(db.local, db.mirror, id)) && ctr.Success? && id in old(db.local) ==>
              r == Failure(SqlError(ConstraintViolation)))
        && (!old(Visible(db.local, db.mirror, id)) && ctr.Success? && id !in old(db.local) ==>
              && r == Success(id)
              && db.local == old(db.local)[id := LocalRow(record, now, false, New, map[clientId := ctr.value + 1],
                                                          Some(clientId), Some(info.local.version))]
              && db.meta == old(db.meta)[ChangeCounter := IntValue(ctr.value + 1)]
              && db.mirror == old(db.mirror) && db.schemas == old(db.schemas)
              && Visible(db.local, db.mirror, id))
      // the new stamp is newer than every stamp this client wrote before
      ensures r.Success? ==>
        && r.value in db.local && clientId in db.local[r.value].vclock
        && (forall other :: other in old(db.local) && clientId in old(db.local)[other].vclock ==>
             old(db.local)[other].vclock[clientId] < db.local[r.value].vclock[clientId])
        && (forall other :: other in old(db.mirror) && clientId in old(db.mirror)[other].vclock ==>
             old(db.mirror)[other].vclock[clientId] < db.local[r.value].vclock[clientId])
    {
      var converted :- codec.nativeToLocal(native, Creation);
      var (id, record) := converted;
      var tx := db.State();
      var idExists := Exists(id);
      if idExists {
        return Failure(InvalidRecord(IdNotUnique));
      }
      // the duplicate check never finds a duplicate, so `Duplicate` is not raised
      var ctr :- CounterBump();
      var vclock := map[clientId := ctr];
      if id in db.local {
        db.Restore(tx);
        return Failure(SqlError(ConstraintViolation));
      }
      db.local := db.local[id := LocalRow(record, now, false, New, vclock, Some(clientId), Some(info.local.version))];
      r := Success(id);
    }

    /**
     * The writes of `delete_by_id` for a visible record: bumps the clock,
     * turns the local row into a tombstone (inserting one when only the
     * mirror held the record) and overrides the mirror row.
     */
    method ApplyDelete(id: Guid, now: int) returns (r: Result<()>)
      requires Valid() && CounterHasRoom(db.meta)
      requires Visible(db.local, db.mirror, id)
      modifies db
      ensures Valid()
      ensures GetInt(old(db.meta), ChangeCounter).Failure? ==>
        r == Failure(GetInt(old(db.meta), ChangeCounter).error) && db.State() == old(db.State())
      ensures GetInt(old(db.meta), ChangeCounter).Success? ==>
        var c := GetInt(old(db.meta), ChangeCounter).value + 1;
        var vc := old(Lookup(db.local, db.mirror, id)).value.vclock[clientId := c];
        && r.Success?
        && db.meta == old(db.meta)[ChangeCounter := IntValue(c)]
        && db.mirror == MarkOverridden(old(db.mirror), id)
        && db.local == old(db.local)[id := if id in old(db.local) then DeletedRow(old(db.local)[id], now, vc, clientId)
                                           else Tombstone(now, vc, clientId, info.local.version)]
        && db.schemas == old(db.schemas)
      ensures r.Success? ==>
        && id in db.local && db.local[id].isDeleted && db.local[id].data == EmptyRecordData
        && db.local[id].syncStatus == Changed && db.local[id].lastWriterId == Some(clientId)
        && !Visible(db.local, db.mirror, id)
        && clientId in db.local[id].vclock
        && (forall other :: other in old(db.local) && clientId in old(db.local)[other].vclock ==>
             old(db.local)[other].vclock[clientId] < db.local[id].vclock[clientId])
        && (forall other :: other in old(db.mirror) && clientId in old(db.mirror)[other].vclock ==>
             old(db.mirror)[other].vclock[clientId] < db.local[id].vclock[clientId])
    {
      ghost var before := db.State();
      var vclock :- GetBumpedVClock(id);
      ghost var c := GetInt(before.meta, ChangeCounter).value + 1;
      // UPDATE rec_local: mark deleted and clear the data
      if id in db.local {
        db.local := db.local[id := DeletedRow(db.local[id], now, vclock, clientId)];
      }
      // UPDATE rec_mirror: mark overridden
      db.mirror := MarkOverridden(db.mirror, id);
      // INSERT OR IGNORE a tombstone for a record only the mirror held
      if id in db.mirror && id !in db.local {
        db.local := db.local[id := Tombstone(now, vclock, clientId, info.local.version)];
      }
      assert db.local == before.local[id := db.local[id]];
      assert db.mirror == MarkOverridden(before.mirror, id);
      assert db.meta == before.meta[ChangeCounter := IntValue(c)];
      assert db.local[id].vclock[clientId] == c;
      StampedWriteKeepsInvariant(before.local, before.mirror, before.meta, clientId, id, db.local[id], c - 1);
      r := Success(());
    }

    /**
     * Deletes the record `id` if it is visible: its local row becomes a
     * tombstone (one is inserted when only the mirror held the record) and
     * the mirror row is overridden. Answers whether the record was visible.
     */
    method DeleteById(id: Guid, now: int) returns (r: Result<bool>)
      requires Valid() && CounterHasRoom(db.meta)
      modifies db
      ensures Valid()
      ensures !old(Visible(db.local, db.mirror, id)) ==> r == Success(false) && db.State() == old(db.State())
      ensures old(Visible(db.local, db.mirror, id)) && GetInt(old(db.meta), ChangeCounter).Failure? ==>
        r == Failure(GetInt(old(db.meta), ChangeCounter).error) && db.State() == old(db.State())
      ensures old(Visible(db.local, db.mirror, id)) && GetInt(old(db.meta), ChangeCounter).Success? ==>
        var c := GetInt(old(db.meta), ChangeCounter).value + 1;
        var vc := old(Lookup(db.local, db.mirror, id)).value.vclock[clientId := c];
        && r == Success(true)
        && db.meta == old(db.meta)[ChangeCounter := IntValue(c)]
        && db.mirror == MarkOverridden(old(db.mirror), id)
        && db.local == old(db.local)[id := if id in old(db.local) then DeletedRow(old(db.local)[id], now, vc, clientId)
                                           else Tombstone(now, vc, clientId, info.local.version)]
        && db.schemas == old(db.schemas)
      ensures r == Success(true) ==>
        && id in db.local && db.local[id].isDeleted && db.local[id].data == EmptyRecordData
        && db.local[id].syncStatus == Changed && db.local[id].lastWriterId == Some(clientId)
        && !Visible(db.local, db.mirror, id)
        && clientId in db.local[id].vclock
        && (forall other :: other in old(db.local) && clientId in old(db.local)[other].vclock ==>
             old(db.local)[other].vclock[clientId] < db.local[id].vclock[clientId])
        && (forall other :: other in old(db.mirror) && clientId in old(db.mirror)[other].vclock ==>
             old(db.mirror)[other].vclock[clientId] < db.local[id].vclock[clientId])
    {
      var visible := Exists(id);
      if !visible {
        return Success(false);
      }
      var done :- ApplyDelete(id, now);
      r := Success(true);
    }

    /** The data of the visible row of `id`, the local row taking precedence. */
    method GetLocalById(id: Guid) returns (r: Option<LocalRecord>)
      ensures r.Some? <==> Visible(db.local, db.mirror, id)
      ensures r.Some? ==> r.value == Lookup(db.local, db.mirror, id).value.data
    {
      if id in db.local && !db.local[id].isDeleted {
        r := Some(db.local[id].data);
      } else if id in db.mirror && !db.mirror[id].isOverridden {
        r := Some(db.mirror[id].data);
      } else {
        r := None;
      }
    }

    /** The visible record `id` as the application sees it, if there is one. */
    method GetById(codec: Codec, id: Guid) returns (r: Result<Option<NativeRecord>>)
      ensures !Visible(db.local, db.mirror, id) ==> r == Success(None)
      ensures Visible(db.local, db.mirror, id) ==>
        var converted := codec.localToNative(Lookup(db.local, db.mirror, id).value.data);
        && (converted.Success? ==> r == Success(Some(converted.value)))
        && (converted.Failure? ==> r == Failure(converted.error))
    {
      var local := GetLocalById(id);
      if local.None? {
        return Success(None);
      }
      var native :- codec.localToNative(local.value);
      r := Success(Some(native));
    }

    /**
     * Every visible record: the live local rows, then the live mirror rows,
     * each group in an order the database chooses. Fails when any of them
     * fails to convert.
     */
    method GetAll(codec: Codec) returns (r: Result<seq<NativeRecord>>, ghost localOrder: seq<Guid>, ghost mirrorOrder: seq<Guid>)
      ensures r.Success? <==> AllConvert(codec, LiveLocalData(db.local)) && AllConvert(codec, LiveMirrorData(db.mirror))
      ensures r.Success? ==>
        && |r.value| == |localOrder| + |mirrorOrder|
        && Enumerates(codec, LiveLocalData(db.local), localOrder, r.value[..|localOrder|])
        && Enumerates(codec, LiveMirrorData(db.mirror), mirrorOrder, r.value[|localOrder|..])
      // the local rows come first, so a failing local row decides the error
      ensures (exists id :: id in LiveLocalData(db.local) && codec.localToNative(LiveLocalData(db.local)[id]).Failure?) ==>
        && r.Failure?
        && exists id :: id in LiveLocalData(db.local) && codec.localToNative(LiveLocalData(db.local)[id]) == Failure(r.error)
      ensures r.Failure? ==>
        || (exists id :: id in LiveLocalData(db.local) && codec.localToNative(LiveLocalData(db.local)[id]) == Failure(r.error))
        || (exists id :: id in LiveMirrorData(db.mirror) && codec.localToNative(LiveMirrorData(db.mirror)[id]) == Failure(r.error))
    {
      var locals;
      locals, localOrder := CollectNative(codec, LiveLocalData(db.local));
      if locals.Failure? {
        return Failure(locals.error), localOrder, [];
      }
      var mirrors;
      mirrors, mirrorOrder := CollectNative(codec, LiveMirrorData(db.mirror));
      if mirrors.Failure? {
        return Failure(mirrors.error), localOrder, mirrorOrder;
      }
      r := Success(locals.value + mirrors.value);
      assert r.value[..|localOrder|] == locals.value;
      assert r.value[|localOrder|..] == mirrors.value;
    }

    /** Ensures `guid` has a local row, cloning the mirror row when there is none. */
    method EnsureLocalOverlayExists(guid: Guid) returns (r: Result<()>)
      modifies db
      ensures Overlay(old(db.local), old(db.mirror), guid).None? ==>
        r == Failure(NoSuchRecord(guid)) && db.State() == old(db.State())
      ensures Overlay(old(db.local), old(db.mirror), guid).Some? ==>
        r == Success(()) && db.local == old(db.local)[guid := Overlay(old(db.local), old(db.mirror), guid).value]
      ensures db.mirror == old(db.mirror) && db.meta == old(db.meta) && db.schemas == old(db.schemas)
    {
      var alreadyHaveLocal := guid in db.local;
      if alreadyHaveLocal {
        assert db.local == db.local[guid := db.local[guid]];
        return Success(());
      }
      r := CloneMirrorToOverlay(guid);
    }

    /** `INSERT OR IGNORE` of a clone of the mirror row; fails with `NoSuchRecord` when nothing was inserted. */
    method CloneMirrorToOverlay(guid: Guid) returns (r: Result<()>)
      modifies db
      ensures guid in old(db.mirror) && guid !in old(db.local) ==>
        r == Success(()) && db.local == old(db.local)[guid := CloneOf(old(db.mirror)[guid])]
      ensures !(guid in old(db.mirror) && guid !in old(db.local)) ==>
        r == Failure(NoSuchRecord(guid)) && db.State() == old(db.State())
      ensures db.mirror == old(db.mirror) && db.meta == old(db.meta) && db.schemas == old(db.schemas)
    {
      var changed := 0;
      if guid in db.mirror && guid !in db.local {
        db.local := db.local[guid := CloneOf(db.mirror[guid])];
        changed := 1;
      }
      if changed == 0 {
        return Failure(NoSuchRecord(guid));
      }
      r := Success(());
    }

    /** Marks the mirror row of `guid`, if any, as overridden by a local change. */
    method MarkMirrorOverridden(guid: Guid)
      modifies db
      ensures db.mirror == MarkOverridden(old(db.mirror), guid)
      ensures guid in db.mirror ==> db.mirror[guid].isOverridden
      ensures db.local == old(db.local) && db.meta == old(db.meta) && db.schemas == old(db.schemas)
    {
      db.mirror := MarkOverridden(db.mirror, guid);
    }

    /** The guid a record names in the schema's own-guid field, validated. */
    ghost function ExistingGuid(codec: Codec, rec: NativeRecord): Result<Guid>
      reads this
    {
      codec.validateGuid(info.native.ownGuidField, FieldOrNull(rec, info.native.ownGuidField))
    }

    /** The stored data of the record `rec` names; `NoSuchRecord` exactly when that record is not visible. */
    ghost function ExistingRecord(codec: Codec, rec: NativeRecord): (r: Result<LocalRecord>)
      reads this, db
      ensures ExistingGuid(codec, rec).Failure? ==> r == Failure(ExistingGuid(codec, rec).error)
      ensures ExistingGuid(codec, rec).Success? ==>
        var g := ExistingGuid(codec, rec).value;
        && (r.Success? <==> Visible(db.local, db.mirror, g))
        && (r.Failure? ==> r.error == NoSuchRecord(g))
        && (r.Success? ==> r.value == Lookup(db.local, db.mirror, g).value.data)
    {
      var g :- ExistingGuid(codec, rec);
      var shown := Lookup(db.local, db.mirror, g);
      if shown.None? then Failure(NoSuchRecord(g)) else Success(shown.value.data)
    }

    /** The stored data of the record `rec` names, or `NoSuchRecord`. */
    method GetExistingRecord(codec: Codec, rec: NativeRecord) returns (r: Result<LocalRecord>)
      ensures r == ExistingRecord(codec, rec)
    {
      var field := info.native.ownGuidField;
      var val := if field in rec then rec[field] else JNull;
      var guid :- codec.validateGuid(field, val);
      var prev := GetLocalById(guid);
      if prev.None? {
        return Failure(NoSuchRecord(guid));
      }
      r := Success(prev.value);
    }

    /** The reads `update_record` does before writing: the existing record, then the conversion. */
    ghost function UpdatePlan(codec: Codec, rec: NativeRecord): Result<(Guid, LocalRecord)>
      reads this, db
    {
      var prev :- ExistingRecord(codec, rec);
      codec.nativeToLocal(rec, Update(prev))
    }

    /**
     * The writes of `update_record` once the record's guid and new data are
     * known: ensures the local overlay, overrides the mirror row, bumps the
     * clock and rewrites the local row.
     */
    method ApplyUpdate(guid: Guid, data: LocalRecord, now: int) returns (r: Result<()>)
      requires Valid() && CounterHasRoom(db.meta)
      modifies db
      ensures Valid()
      ensures r.Failure? ==> db.State() == old(db.State())
      ensures
        var base := Overlay(old(db.local), old(db.mirror), guid);
        var ctr := GetInt(old(db.meta), ChangeCounter);
        && (base.None? ==> r == Failure(NoSuchRecord(guid)))
        && (base.Some? && base.value.isDeleted ==> r == Failure(SqlError(QueryReturnedNoRows)))
        && (base.Some? && !base.value.isDeleted && ctr.Failure? ==> r == Failure(ctr.error))
        && (base.Some? && !base.value.isDeleted && ctr.Success? ==>
              && r == Success(())
              && db.local == old(db.local)[guid := Rewritten(base.value, data, now, base.value.vclock[clientId := ctr.value + 1],
                                                              clientId, info.local.version)]
              && db.mirror == MarkOverridden(old(db.mirror), guid)
              && db.meta == old(db.meta)[ChangeCounter := IntValue(ctr.value + 1)]
              && db.schemas == old(db.schemas))
      // the new stamp is newer than every stamp this client wrote before
      ensures r.Success? ==>
        && guid in db.local && !db.local[guid].isDeleted && clientId in db.local[guid].vclock
        && (forall other :: other in old(db.local) && clientId in old(db.local)[other].vclock ==>
             old(db.local)[other].vclock[clientId] < db.local[guid].vclock[clientId])
        && (forall other :: other in old(db.mirror) && clientId in old(db.mirror)[other].vclock ==>
             old(db.mirror)[other].vclock[clientId] < db.local[guid].vclock[clientId])
    {
      var tx := db.State();
      ghost var base := Overlay(db.local, db.mirror, guid);
      var overlay :- EnsureLocalOverlayExists(guid);
      assert db.local[guid] == base.value;
      MarkMirrorOverridden(guid);
      var vclock := GetBumpedVClock(guid);
      if vclock.Failure? {
        db.Restore(tx);
        return Failure(vclock.error);
      }
      ghost var c := GetInt(tx.meta, ChangeCounter).value + 1;
      assert vclock.value == base.value.vclock[clientId := c];
      // UPDATE rec_local ... WHERE guid = :guid
      var ct := 0;
      if guid in db.local {
        var row := db.local[guid];
        db.local := db.local[guid := Rewritten(row, data, now, vclock.value, clientId, info.local.version)];
        ct := 1;
      }
      assert ct == 1;
      ghost var row := Rewritten(base.value, data, now, vclock.value, clientId, info.local.version);
      assert db.local == tx.local[guid := row];
      assert db.mirror == MarkOverridden(tx.mirror, guid);
      assert db.meta == tx.meta[ChangeCounter := IntValue(c)];
      StampedWriteKeepsInvariant(tx.local, tx.mirror, tx.meta, clientId, guid, row, c - 1);
      r := Success(());
    }

    /**
     * Overwrites an existing record with `record`. Fails with `NoSuchRecord`
     * when the record it names is not visible. Otherwise the record's local
     * row (cloned from the mirror when there was none) takes the new data,
     * this client as writer and a bumped clock stamp, its status rises to at
     * least `Changed`, and the mirror row is overridden.
     */
    method UpdateRecord(codec: Codec, record: NativeRecord, now: int) returns (r: Result<()>)
      requires Valid() && CounterHasRoom(db.meta)
      modifies db
      ensures Valid()
      ensures r.Failure? ==> db.State() == old(db.State())
      ensures old(ExistingGuid(codec, record)).Success? && !old(Visible(db.local, db.mirror, ExistingGuid(codec, record).value)) ==>
        r == Failure(NoSuchRecord(ExistingGuid(codec, record).value))
      ensures old(UpdatePlan(codec, record)).Failure? ==> r == Failure(old(UpdatePlan(codec, record)).error)
      ensures old(UpdatePlan(codec, record)).Success? ==>
        var (g, data) := old(UpdatePlan(codec, record)).value;
        var base := Overlay(old(db.local), old(db.mirror), g);
        var ctr := GetInt(old(db.meta), ChangeCounter);
        && (base.None? ==> r == Failure(NoSuchRecord(g)))
        && (base.Some? && base.value.isDeleted ==> r == Failure(SqlError(QueryReturnedNoRows)))
        && (base.Some? && !base.value.isDeleted && ctr.Failure? ==> r == Failure(ctr.error))
        && (base.Some? && !base.value.isDeleted && ctr.Success? ==>
              && r == Success(())
              && db.local == old(db.local)[g := Rewritten(base.value, data, now, base.value.vclock[clientId := ctr.value + 1],
                                                           clientId, info.local.version)]
              && db.mirror == MarkOverridden(old(db.mirror), g)
              && db.meta == old(db.meta)[ChangeCounter := IntValue(ctr.value + 1)]
              && db.schemas == old(db.schemas))
      // a conversion that keeps the record's guid never fails past the planning stage
      ensures (&& old(UpdatePlan(codec, record)).Success?
               && GetInt(old(db.meta), ChangeCounter).Success?
               && old(UpdatePlan(codec, record)).value.0 == old(ExistingGuid(codec, record)).value)
              ==> r.Success?
      ensures r.Success? ==>
        var g := old(UpdatePlan(codec, record)).value.0;
        && g in db.local && !db.local[g].isDeleted && clientId in db.local[g].vclock
        && (forall other :: other in old(db.local) && clientId in old(db.local)[other].vclock ==>
             old(db.local)[other].vclock[clientId] < db.local[g].vclock[clientId])
        && (forall other :: other in old(db.mirror) && clientId in old(db.mirror)[other].vclock ==>
             old(db.mirror)[other].vclock[clientId] < db.local[g].vclock[clientId])
    {
      var prev :- GetExistingRecord(codec, record);
      var converted :- codec.nativeToLocal(record, Update(prev));
      var (guid, data) := converted;
      // the duplicate check never finds a duplicate, so `Duplicate` is not raised
      r := ApplyUpdate(guid, data, now);
    }

    /** Whether syncing is locked out by a stored version requirement the native schema does not meet. */
    method InSyncLockout(reqMatches: (string, string) -> Option<bool>) returns (r: Result<bool>)
      requires Valid()
      modifies db
      ensures Valid()
      ensures TryGetText(old(db.meta), SyncNativeVersionThreshold).Failure? ==>
        r == Failure(TryGetText(old(db.meta), SyncNativeVersionThreshold).error) && db.State() == old(db.State())
      ensures TryGetText(old(db.meta), SyncNativeVersionThreshold) == Success(None) ==>
        r == Success(false) && db.State() == old(db.State())
      ensures forall req :: TryGetText(old(db.meta), SyncNativeVersionThreshold) == Success(Some(req)) ==>
        && (reqMatches(req, info.native.version).None? ==>
              r == Success(false) && db.meta == old(db.meta) - {SyncNativeVersionThreshold})
        && (reqMatches(req, info.native.version).Some? ==>
              r == Success(!reqMatches(req, info.native.version).value) && db.meta == old(db.meta))
      ensures db.local == old(db.local) && db.mirror == old(db.mirror) && db.schemas == old(db.schemas)
    {
      var stored :- TryGetText(db.meta, SyncNativeVersionThreshold);
      if stored.None? {
        return Success(false);
      }
      var ver := reqMatches(stored.value, info.native.version);
      if ver.None? {
        // an unparsable requirement is discarded
        db.meta := db.meta - {SyncNativeVersionThreshold};
        return Success(false);
      }
      r := Success(!ver.value);
    }

    /** A remote schema change is accepted unless it needs a dedupe upgrade, which is not implemented. */
    method UpgradeRemoteSchema(action: UpgradeRemote, between: (RecordSchema, RecordSchema) -> UpgradeKind)
      returns (r: Result<()>)
      ensures r.Failure? <==>
        !action.freshServer && action.from.Some? && between(action.from.value, info.local) == RequiresDedupe
      ensures r.Failure? ==> r.error == NotYetImplemented(DedupeUpgradeMessage)
    {
      var target := info.local;
      if action.freshServer {
        return Success(());
      }
      if action.from.None? {
        return Success(());
      }
      var compare := between(action.from.value, target);
      if compare == RequiresDedupe {
        return Failure(NotYetImplemented(DedupeUpgradeMessage));
      }
      r := Success(());
    }

    /**
     * Moves the local schema to `newLocal`: records it in the schema table and
     * the metadata, unless the upgrade needs a dedupe, which is not implemented.
     */
    method UpgradeLocal(newLocal: RecordSchema, between: (RecordSchema, RecordSchema) -> UpgradeKind)
      returns (r: Result<()>)
      requires Valid()
      modifies this, db
      ensures Valid()
      ensures between(old(info.local), newLocal) == RequiresDedupe ==>
        && r == Failure(NotYetImplemented(DedupeUpgradeMessage))
        && db.State() == old(db.State()) && info == old(info)
      ensures between(old(info.local), newLocal) != RequiresDedupe ==>
        && r == Success(())
        && db.schemas == old(db.schemas)[newLocal.version := SchemaRow(newLocal.legacy, newLocal.requiredVersion, newLocal.source)]
        && db.meta == old(db.meta)[LocalSchemaVersion := TextValue(newLocal.version)]
        && db.local == old(db.local) && db.mirror == old(db.mirror)
        && info == old(info).(local := newLocal)
    {
      var compare := between(info.local, newLocal);
      if compare == RequiresDedupe {
        return Failure(NotYetImplemented(DedupeUpgradeMessage));
      }
      // REPLACE INTO remerge_schemas, keyed by version
      var verStr := newLocal.version;
      db.schemas := db.schemas[verStr := SchemaRow(newLocal.legacy, newLocal.requiredVersion, newLocal.source)];
      db.meta := db.meta[LocalSchemaVersion := TextValue(verStr)];
      info := info.(local := newLocal);
      r := Success(());
    }
  }
}
