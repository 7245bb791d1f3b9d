# Remerge record storage, modelled in Dafny

Remerge is a generic record store that syncs. Each collection lives in one
SQLite database with four tables:

- `rec_mirror` holds records as last seen on the server.
- `rec_local` holds this device's changes. A local row overrides the mirror
  row of the same guid.
- `remerge_schemas` holds every record schema the database has seen, keyed
  by version.
- `meta` holds the collection name, the local and native schema versions,
  this client's id, the global change counter and an optional
  sync-lockout version requirement.

Every local write bumps the change counter. It stamps the record's vector
clock with this client's id and the new counter value. Each public operation
runs in one transaction, so a failing operation changes no table.

The project models the storage layer:

- `RemergeDb` (`components/remerge/src/storage/db.rs`) becomes the class
  `Db.RemergeDb`. Its connection is the class `Storage.Connection`, whose
  four fields are the four tables as maps.
- Opening a database (`components/remerge/src/storage/bootstrap.rs`) becomes
  the methods of module `Bootstrap`.
- The error kinds (`components/remerge/src/error.rs`) become the datatype
  `Errors.ErrorKind`.

A transaction is a snapshot of the tables (`Connection.State`). A rollback
restores that snapshot (`Connection.Restore`).

The contracts state these properties:

- which record is visible;
- that the local row wins over the mirror row;
- what each operation writes, and that a failure leaves every table as it was;
- a store invariant that every writer keeps:
  - a local row always overrides its mirror row;
  - the counter is never negative;
  - no stamp of this client, in a `rec_local` row or a `rec_mirror` row, exceeds the stored counter.

From the invariant, the contracts derive that each write's new stamp is newer
than every stamp of this client in either record table.

Collaborators outside the storage layer are passed in as function-typed
parameters:

- record conversion and guid validation, a `Storage.Codec`;
- schema parsing;
- semver requirement matching;
- the schema upgrade classification.

The clock (`now`) and the random client id are parameters as well.

Modules: `Errors` (errors.dfy), `Meta` (meta.dfy), `Storage` (storage.dfy),
`Bootstrap` (bootstrap.dfy), `Db` (db.dfy).

## Model

| member | source | states |
|---|---|---|
| Meta.GetInt | components/remerge/src/storage/db.rs:152 | reading an integer meta key succeeds exactly when the key is present and holds an integer, and yields that integer |
| Meta.GetText | components/remerge/src/storage/bootstrap.rs:36-38 | reading a text meta key succeeds exactly when the key is present and holds a text, and yields that text |
| Meta.TryGetText | components/remerge/src/storage/bootstrap.rs:29 | an absent key yields `None` rather than an error; a present non-text value is an error; a text value is returned |
| Storage.MaxStatus | components/remerge/src/storage/db.rs:370 | SQL `max` of two status codes is one of them and at least both |
| Storage.Lookup | components/remerge/src/storage/db.rs:235-245 | a row is shown exactly when the record is visible (a live local row or a mirror row not overridden); a live local row wins, and otherwise the live mirror row is shown |
| Storage.Connection.Restore | components/remerge/src/storage/db.rs:64-67 | rolling back a transaction puts every table back as it was when the transaction began |
| Storage.VisibleOverlayIsLive | components/remerge/src/storage/db.rs:266-301 | when every local row overrides its mirror row, a visible record is shown by one table only, and its ensured overlay is a live row carrying the clock the lookup reads |
| Storage.StampedWriteKeepsInvariant | components/remerge/src/storage/db.rs:151-166 | a local write that overrides the mirror row and stamps at most the bumped counter keeps the store invariant, and the bumped counter exceeds every stamp of this client in `rec_local` and `rec_mirror` |
| Bootstrap.Bootstrap | components/remerge/src/storage/bootstrap.rs:71-103 | a first open stores the native schema under its version and seeds the client id, both schema versions, the collection name and a change counter of 1; a schema version already stored makes the INSERT fail and nothing changes |
| Bootstrap.LoadOrBootstrap | components/remerge/src/storage/bootstrap.rs:25-69 | no stored collection name means a first open. A different stored name fails with `SchemaNameMatchError`. Otherwise: the open succeeds exactly when the three meta reads, the stored local schema and its parse succeed; it returns the stored client id; it removes the lockout key and records the native version; it changes no other meta key or table. A failure rolls everything back. On either path the returned client id is the one the metadata holds afterwards |
| Bootstrap.BootstrapEstablishesInvariant | components/remerge/src/storage/bootstrap.rs:71-103 | a successful first open of a database with no records leaves a store satisfying the invariant for the returned client id, which the metadata holds |
| Bootstrap.ReopenAfterBootstrap | components/remerge/src/storage/bootstrap.rs:25-103 | a second open of a freshly created database takes the load path and returns the client id the first open chose |
| Db.TombstoneAsWrittenLosesWriter | components/remerge/src/storage/db.rs:218-230 | the tombstone the INSERT writes, as written, has no writer, unlike the row the local UPDATE writes |
| Db.DeleteBranchesAgree | components/remerge/src/storage/db.rs:192-230 | with the writer bound, both delete branches leave a tombstone with cleared data, status `Changed`, the bumped clock, the time and this client as writer |
| Db.Rewritten | components/remerge/src/storage/db.rs:359-372 | the rewritten row's status never goes down and is at least `Changed`; its deletion flag is kept |
| Db.CollectNative | components/remerge/src/storage/db.rs:259-263 | collecting converted rows succeeds exactly when every row converts; on success the output converts every row exactly once, in some order; a failure carries the error of a row that failed |
| Db.RemergeDb.constructor | components/remerge/src/storage/db.rs:68-73 | a store is built over an opened connection whose metadata holds the given client id and whose tables satisfy the invariant, which the store then keeps |
| Db.RemergeDb.Exists | components/remerge/src/storage/db.rs:86-98 | true exactly when a live local row or a non-overridden mirror row exists for the id |
| Db.RemergeDb.CounterBump | components/remerge/src/storage/db.rs:151-166 | the counter is read, incremented and stored, and the new value returned; a failed read changes nothing; no other table changes |
| Db.RemergeDb.GetVClock | components/remerge/src/storage/db.rs:168-178 | succeeds exactly when the record is visible, returning the shown row's clock; otherwise fails with no rows |
| Db.RemergeDb.GetBumpedVClock | components/remerge/src/storage/db.rs:311-316 | the visible row's clock with this client's entry set to the bumped counter; an invisible record fails before the counter is bumped |
| Db.RemergeDb.Create | components/remerge/src/storage/db.rs:100-149 | a conversion error, a visible id (`IdNotUnique`), a counter error, or a tombstone holding the guid (unique key) fails and changes nothing. Otherwise one live local row is inserted with status `New`, this client as writer, the schema version and the clock `{client: counter+1}`. The new stamp is newer than every stamp of this client in either record table, and the invariant is kept |
| Db.RemergeDb.ApplyDelete | components/remerge/src/storage/db.rs:187-230 | for a visible record: a counter error fails and changes nothing; otherwise the local row becomes a tombstone with the bumped clock and this client as writer (inserted when only the mirror held the record), the mirror row is overridden, the record is no longer visible, the stamp is newer than every stamp of this client in either record table, and the invariant is kept |
| Db.RemergeDb.DeleteById | components/remerge/src/storage/db.rs:180-233 | an invisible id answers false and changes nothing. A visible one gets a tombstone carrying the bumped clock and this client as writer; the tombstone is written over the local row, or inserted when only the mirror held the record. The mirror row is overridden, the record is no longer visible, the stamp is newer than every stamp of this client in either record table, and the invariant is kept. The inserted tombstone's writer is the corrected value (see Findings); as written it is NULL |
| Db.RemergeDb.GetLocalById | components/remerge/src/storage/db.rs:235-245 | the data of the visible row, the local row first; none when the record is not visible |
| Db.RemergeDb.GetById | components/remerge/src/storage/db.rs:247-251 | the visible row converted for the application; none when not visible; the conversion's error when it fails |
| Db.RemergeDb.GetAll | components/remerge/src/storage/db.rs:253-264 | all live local rows followed by all non-overridden mirror rows, each converted exactly once; fails exactly when some row fails to convert, with the error of a live row that failed |
| Db.RemergeDb.EnsureLocalOverlayExists | components/remerge/src/storage/db.rs:266-279 | keeps an existing local row; otherwise clones the mirror row into the overlay; fails with `NoSuchRecord` and changes nothing when neither table has the guid |
| Db.RemergeDb.CloneMirrorToOverlay | components/remerge/src/storage/db.rs:283-301 | inserts a synced, unmodified clone of the mirror row only when the guid is in the mirror and not local; otherwise fails with `NoSuchRecord` and changes nothing |
| Db.RemergeDb.MarkMirrorOverridden | components/remerge/src/storage/db.rs:303-309 | sets the override flag of the guid's mirror row, if any, and changes nothing else |
| Db.RemergeDb.ExistingRecord | components/remerge/src/storage/db.rs:319-336 | the record named by the own-guid field (missing read as null) is found exactly when it is visible; a bad guid gives the validation error, an invisible one `NoSuchRecord` |
| Db.RemergeDb.GetExistingRecord | components/remerge/src/storage/db.rs:319-336 | computes `ExistingRecord` from the tables |
| Db.RemergeDb.ApplyUpdate | components/remerge/src/storage/db.rs:353-388 | no local or mirror row gives `NoSuchRecord`; a tombstoned local row gives no rows (its clock cannot be read once the mirror is overridden); a counter error fails; all of these change nothing. Otherwise exactly that local row is rewritten with the new data, this client, the schema version and the bumped clock, the mirror row is overridden, the stamp is newer than every stamp of this client in either record table and the invariant is kept |
| Db.RemergeDb.UpdateRecord | components/remerge/src/storage/db.rs:338-389 | an invisible named record fails with `NoSuchRecord`; a lookup or conversion failure is returned unchanged; otherwise the write above happens to the converted record's guid. A conversion that keeps the guid never fails once the counter can be read. A failure changes nothing |
| Db.RemergeDb.InSyncLockout | components/remerge/src/storage/db.rs:411-431 | no stored requirement means no lockout. An unparsable requirement is deleted and means no lockout. A parsable one locks out exactly when the native version does not match it. Record tables are untouched |
| Db.RemergeDb.UpgradeRemoteSchema | components/remerge/src/storage/db.rs:442-460 | fails, with `NotYetImplemented`, exactly when the server is not fresh, had a schema, and moving from it to the local schema requires a dedupe upgrade |
| Db.RemergeDb.UpgradeLocal | components/remerge/src/storage/db.rs:462-490 | a dedupe upgrade fails with `NotYetImplemented` and changes nothing; otherwise the new schema replaces any row of its version, becomes the local schema version in `meta` and in the bundle, and the records are untouched |

## Left out

- Connection setup is not modelled: the pragmas, the init mutex and the creation of the tables by `schema::init` (db.rs:32-66). `Db.RemergeDb.constructor` takes the connection and the result of `LoadOrBootstrap`.
- The interrupt handle and interrupt scope (db.rs:433-438, 492-495) are left out. They concern concurrency, not stored state.
- `conn`, `collection`, `info`, `client_id` and `bundle` only read fields. They are the fields `db`, `info` and `clientId` of the class.
- `MsTime::now` is the parameter `now`, and `Guid::random` is the parameter `guid` of `Bootstrap.Bootstrap`.
- Record conversion, guid validation, schema parsing, semver requirement parsing and matching, and `UpgradeKind::between` live outside the storage layer. They are function-typed parameters.
  - The semver oracle answers `None` for an unparsable requirement.
  - The own-guid field's type assertion (db.rs:326-329) is a guarantee of schema parsing and is not modelled.
- Vector clocks are maps from client id to counter; `apply` is a map update. Their JSON serialisation, like that of records, is not modelled.
- `dupe_exists` (db.rs:402-407) always answers false. `Create` and `UpdateRecord` therefore never raise `InvalidRecord::Duplicate`, and the model has no member for it.
- SQL failures other than the ones that follow from table contents are not modelled. These include I/O, a busy or interrupted database, and a failing commit. The modelled ones are: no rows, wrong column type, and a unique-key violation.
- The rows of `get_all` come back in an order SQLite chooses. The model leaves each group's order open, with ghost orders.
- `meta.rs` is not part of this model. Its keys become the datatype `Meta.MetaKey`. A missing key reads as `QueryReturnedNoRows` and a value of the other type as `InvalidColumnType`.
- `schema.rs` and the table definitions are not part of this model. The model assumes the following:
  - `rec_local.guid` is unique, so `INSERT OR IGNORE` skips an existing guid and `create` over a tombstone fails.
  - `remerge_schemas.version` is unique.
  - `is_overridden` holds 0 or 1.
  - The status codes are Synced 0, Changed 1 and New 2.
  - A column an INSERT leaves out is NULL.
- Only the variants of `error.rs` that the storage layer raises are modelled, and none of the display strings. Invalid-record reasons other than `IdNotUnique` and `Duplicate` are folded into `OtherInvalid`.
- Schema versions are kept as their text, as the tables store them.
- Db.RemergeDb.CounterBump: the panics on a negative counter and on i64 overflow are preconditions (`Meta.CounterHasRoom`) that every writer requires, not modelled panics.
- Db.RemergeDb.constructor: a reopened database is assumed to satisfy the store invariant, including the bound on this client's stamps in `rec_mirror`. `rec_mirror` is written by sync code outside this model. `Bootstrap.BootstrapEstablishesInvariant` proves the invariant only for a first open.
- Bootstrap.Bootstrap: on the INSERT conflict the model undoes its own client-id write. In the source that write is undone by the caller's transaction (db.rs:64-67).
- Bootstrap.LoadOrBootstrap: in the source the rollback on failure comes from the caller's transaction (db.rs:64-67). The model performs it inside the method.

## Findings

| source | as written | input that shows it | evidently intended | confidence | as-written member | corrected member |
|---|---|---|---|---|---|---|
| components/remerge/src/storage/db.rs:218-230 | the tombstone `INSERT OR IGNORE` names `:own_id` for `last_writer_id`, but its parameter list never binds `:own_id`, and SQLite reads an unbound parameter as NULL | `delete_by_id(id)` where `id` has a row in `rec_mirror` and none in `rec_local`: the inserted tombstone has no writer, while the UPDATE branch (db.rs:192-208) records this client | bind `:own_id` to the client id, as the UPDATE in the same function does | not executed; medium. `Db.TombstoneAsWritten` models the reading where `last_writer_id` is nullable; the table definitions are not part of this model. If the column is declared NOT NULL, the `OR IGNORE` conflict clause skips the row silently: no tombstone is inserted, the mirror row is still overridden, and the call still answers `true` (db.rs:232). That outcome is equally unintended | Db.TombstoneAsWrittenLosesWriter | Db.DeleteBranchesAgree |

`Db.TombstoneAsWritten` is the row the INSERT writes as it stands. `Db.Tombstone` is the corrected row, and `Db.RemergeDb.DeleteById` uses it.
