/**
 * The ledger entities the dashboard displays: a transaction with its category
 * and the aggregate balance snapshot sent by the remote service.
 */
module Ledger {
  /** A category is a structured value; only its title is known to the dashboard. */
  datatype Category = Category(title: string)

  /** Direction of a ledger entry; the stored value is a magnitude. */
  datatype TransactionType = Income | Outcome

  /**
   * One ledger entry. The source's `type` field is called `kind` here
   * (`type` is a Dafny keyword); `value` is a JavaScript number, modelled as an integer.
   */
  datatype Transaction = Transaction(
    id: string,
    title: string,
    value: int,
    kind: TransactionType,
    category: Category,
    createdAt: string)

  /** Aggregate totals as the service sends them, numeric strings. */
  datatype Balance = Balance(income: string, outcome: string, total: string)
}
