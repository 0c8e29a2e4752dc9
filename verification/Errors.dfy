/** What an operation of either driver can fail with. Fixed messages are constructors here; SQLite's own text is kept.
 `Panic` is an index out of bounds, which aborts the Worker instead of returning. */
module Errors {
  import opened Values

  datatype ProtocolFault =
    | ColumnNameNotString
    | RowNotArray
    | ResultNotArray
    | RowWidth(values: nat, columns: nat)
    | NoCountsRow
    | TransactionFailed(reason: string)
    | CallbackNeverRan
    | UnexpectedResponse

  datatype Error =
    | Encode(encode: EncodeError)
    | Decode(decode: DecodeError)
    | Protocol(fault: ProtocolFault)
    | Database(message: string)
    | ColumnNotFound(name: string)
    | Panic
}
