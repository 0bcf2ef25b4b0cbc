/** The transaction record both importers produce (TransactionCSVRow in
    lib/utils/import-export.ts) and the transaction_type enumeration. */
module Transactions {
  import opened Results
  import opened Numbers

  datatype TxType = Income | Expense | Transfer

  /** The lower-case name the database and the CSV files use. */
  function KindName(t: TxType): (r: string)
    ensures r in {"income", "expense", "transfer"}
  {
    match t
    case Income => "income"
    case Expense => "expense"
    case Transfer => "transfer"
  }

  /** The type a (lower-cased) name stands for, if any. */
  function KindOf(s: string): (r: Option<TxType>)
    ensures r.Some? <==> s in {"income", "expense", "transfer"}
    ensures r.Some? ==> KindName(r.value) == s
  {
    if s == "income" then Some(Income)
    else if s == "expense" then Some(Expense)
    else if s == "transfer" then Some(Transfer)
    else None
  }

  /** An imported transaction. The amount carries no sign; the direction is
      in kind. Optional fields are None where the JavaScript object leaves
      them undefined. */
  datatype TransactionRow = TransactionRow(
    date: string,
    kind: TxType,
    amount: Num,
    description: string,
    category: Option<string>,
    account: Option<string>,
    fromAccount: Option<string>,
    toAccount: Option<string>,
    notes: Option<string>)
}
