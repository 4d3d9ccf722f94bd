/**
 * The transaction record the report page lists (src/app/models/transaction.ts).
 * Records are values: they are never updated after they are loaded.
 */
module Transactions {

  datatype TransactionType = Debit | Credit

  /**
   * One transaction. The source's field `type` is called `kind` here, since
   * `type` is a Dafny keyword; `date` is the date string as loaded, and
   * `amount` is an integer rather than a floating-point number.
   */
  datatype Transaction = Transaction(
    id: int,
    date: string,
    voucherNo: string,
    accountId: string,
    accountName: string,
    branch: string,
    kind: TransactionType,
    amount: int)

  /** The string stored in the source's `type` field. */
  function TypeName(t: TransactionType): string {
    match t
    case Debit => "Debit"
    case Credit => "Credit"
  }
}
