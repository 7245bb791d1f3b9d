/**
 * The `meta` key-value table of a remerge database, and the typed reads the
 * storage layer performs on it. A stored value is either an integer or a
 * text; reading it as the other type fails as SQLite's column conversion does.
 */
module Meta {
  import opened Errors

  /** The keys the storage layer reads and writes. */
  datatype MetaKey =
    | CollectionName              // remerge/collection-name
    | LocalSchemaVersion          // remerge/local-schema-version
    | NativeSchemaVersion         // remerge/native-schema-version
    | OwnClientId                 // remerge/client-id
    | ChangeCounter               // remerge/change-counter
    | SyncNativeVersionThreshold  // the version requirement that locks syncing out

  datatype MetaValue = IntValue(i: int) | TextValue(s: string)

  type MetaMap = map<MetaKey, MetaValue>

  /** Largest value of the signed 64-bit column the change counter lives in. */
  const I64_MAX: int := 0x7fff_ffff_ffff_ffff

  /** `meta::get` of an integer: the key must be present and hold an integer. */
  function GetInt(m: MetaMap, k: MetaKey): (r: Result<int>)
    ensures r.Success? <==> k in m && m[k].IntValue?
    ensures r.Success? ==> m[k] == IntValue(r.value)
  {
    if k !in m then Failure(SqlError(QueryReturnedNoRows))
    else if !m[k].IntValue? then Failure(SqlError(InvalidColumnType))
    else Success(m[k].i)
  }

  /** `meta::get` of a text: the key must be present and hold a text. */
  function GetText(m: MetaMap, k: MetaKey): (r: Result<string>)
    ensures r.Success? <==> k in m && m[k].TextValue?
    ensures r.Success? ==> m[k] == TextValue(r.value)
  {
    if k !in m then Failure(SqlError(QueryReturnedNoRows))
    else if !m[k].TextValue? then Failure(SqlError(InvalidColumnType))
    else Success(m[k].s)
  }

  /** `meta::try_get` of a text: an absent key is not an error. */
  function TryGetText(m: MetaMap, k: MetaKey): (r: Result<Option<string>>)
    ensures r == Success(None) <==> k !in m
    ensures r.Failure? <==> k in m && !m[k].TextValue?
    ensures r.Success? && r.value.Some? ==> m[k] == TextValue(r.value.value)
  {
    if k !in m then Success(None)
    else if !m[k].TextValue? then Failure(SqlError(InvalidColumnType))
    else Success(Some(m[k].s))
  }

  /** The stored change counter never went negative (the storage layer panics otherwise). */
  predicate CounterSound(m: MetaMap) {
    ChangeCounter in m && m[ChangeCounter].IntValue? ==> m[ChangeCounter].i >= 0
  }

  /** The stored change counter can be bumped without overflowing its i64 column. */
  predicate CounterHasRoom(m: MetaMap) {
    ChangeCounter in m && m[ChangeCounter].IntValue? ==> 0 <= m[ChangeCounter].i < I64_MAX
  }
}
