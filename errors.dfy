/**
 * The error kinds the storage layer raises, and the Option/Result wrappers
 * every fallible operation of the model returns.
 */
module Errors {

  /** The reasons a record is rejected; only the two the storage layer raises itself. */
  datatype InvalidRecord =
    | IdNotUnique   // a record with the given guid already exists
    | Duplicate     // the record violates a `dedupe_on` constraint
    | OtherInvalid(reason: string)  // any rejection raised while converting a record

  /** The ways a SQL statement fails that the model distinguishes. */
  datatype SqlFailure =
    | QueryReturnedNoRows   // a single-row query found nothing
    | InvalidColumnType     // a stored value does not have the type it is read as
    | ConstraintViolation   // an INSERT hit a unique key

  datatype ErrorKind =
    | SchemaNameMatchError(schemaName: string, collectionName: string)
    | InvalidRecord(invalid: InvalidRecord)
    | NoSuchRecord(guid: string)
    | SqlError(failure: SqlFailure)
    | SchemaError(reason: string)
    | LocalToNativeError(reason: string)
    | NotYetImplemented(what: string)

  datatype Option<+T> = None | Some(value: T)

  datatype Result<+T> = Success(value: T) | Failure(error: ErrorKind) {

    predicate IsFailure() {
      Failure?
    }

    function PropagateFailure<U>(): Result<U>
      requires Failure?
    {
      Failure(error)
    }

    function Extract(): T
      requires Success?
    {
      value
    }
  }
}
