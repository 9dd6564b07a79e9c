/** Ledger facts shared by the snapshot, reconstruction and data-quality components. Instants are whole ticks. */
module Ledger {
  import opened Results
  import opened Money

  datatype AccountCategory =
    | UnknownCategory | Cash | Checking | CreditCard | Virtual | DebtAccount | Receivables | Investment | Savings
    | CertificateOfDeposit

  datatype TransactionType = UnknownTransaction | BalanceModification | Income | Expense | Transfer

  datatype Account = Account(
    id: string,
    category: AccountCategory,
    hasSubAccounts: bool,
    balance: Money,
    isAsset: bool,
    isLiability: bool,
    hidden: bool)

  datatype Transaction = Transaction(
    id: string,
    kind: TransactionType,
    categoryId: string,
    occurredAt: int,
    sourceAccountId: string,
    destinationAccountId: string,
    sourceAmount: Money,
    destinationAmount: Option<Money>,
    amountHidden: bool,
    comment: string)
  {
    /** What arrives at the destination: the destination amount if there is one, else the source amount. */
    function Arriving(): Money {
      if destinationAmount.Some? then destinationAmount.value else sourceAmount
    }
  }
}
