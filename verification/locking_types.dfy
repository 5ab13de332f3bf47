/**
  Value types shared by the model of Titan's ExpectedValueCheckingTransaction:
  byte strings, store handles, cell addresses, slice entries and queries, and the
  backend errors the transaction raises or propagates.
*/
module LockingTypes {

  /** A byte string (Titan's StaticBuffer); equality is byte-exact. */
  type Bytes = seq<bv8>

  /** An opaque handle for an ExpectedValueCheckingStore; the source keys its
      table by the store object itself. */
  type StoreId = nat

  datatype Option<+T> = None | Some(value: T)

  datatype Result<+R, +E> = Success(value: R) | Failure(error: E)

  /** The address of one cell: a row key and a column (Titan's KeyColumn). */
  datatype KeyColumn = KeyColumn(key: Bytes, column: Bytes)

  /** One column/value pair returned by a slice read. */
  datatype Entry = Entry(column: Bytes, value: Bytes)

  /** A read of row `key` restricted to the columns in [sliceStart, sliceEnd). */
  datatype KeySliceQuery = KeySliceQuery(key: Bytes, sliceStart: Bytes, sliceEnd: Bytes)

  /** The BackendException hierarchy as far as this transaction is concerned.
      A collaborator may raise a temporary or a permanent error; the
      transaction itself raises only ExpectedValueMismatch, a
      PermanentLockingException naming the cell, the store and both value lists. */
  datatype BackendError =
    | TemporaryBackendError(reason: string)
    | PermanentBackendError(reason: string)
    | ExpectedValueMismatch(kc: KeyColumn, store: StoreId, expected: seq<Bytes>, actual: seq<Bytes>)
  {
    /** Permanent errors are never worth retrying. */
    predicate IsPermanent() {
      !TemporaryBackendError?
    }
  }

  /** What a call that returns nothing (void, or throws) ends with. */
  datatype Status = Ok | Raised(error: BackendError)
}
