/** When a reconstruction is marked partial. */
module HistoryPartial {
  import opened Money
  import opened Ledger
  import opened History

  /** The last account with the id, the one that is adjusted, is held in the currency. */
  ghost predicate Adjustable(accounts: seq<Account>, id: string, currency: string) {
    exists i | 0 <= i < |accounts| ::
      && accounts[i].id == id && accounts[i].balance.currency == currency
      && forall j | i < j < |accounts| :: accounts[j].id != id
  }

  /** A later transaction that cannot be undone completely. */
  ghost predicate Incomplete(accounts: seq<Account>, tx: Transaction, end: int) {
    tx.occurredAt >= end &&
    (|| tx.amountHidden
     || tx.kind == BalanceModification || tx.kind == UnknownTransaction
     || ((tx.kind == Income || tx.kind == Expense || tx.kind == Transfer)
         && !Adjustable(accounts, tx.sourceAccountId, tx.sourceAmount.currency))
     || (tx.kind == Transfer
         && !Adjustable(accounts, tx.destinationAccountId,
                        (if tx.destinationAmount.Some? then tx.destinationAmount.value else tx.sourceAmount).currency)))
  }

  lemma AdjustableIff(accounts: seq<Account>, id: string, currency: string)
    ensures Adjustable(accounts, id, currency)
            <==> LastIndex(accounts, id).Some? && accounts[LastIndex(accounts, id).value].balance.currency == currency
  {
  }

  lemma AdjustPartial(st: State, id: string, amount: Money, add: bool)
    requires Adjust(st, id, amount, add).Ok?
    ensures Adjust(st, id, amount, add).value.partial <==> st.partial || !Adjustable(st.accounts, id, amount.currency)
  {
    AdjustableIff(st.accounts, id, amount.currency);
  }

  lemma SameShapeSameAdjustable(a: seq<Account>, b: seq<Account>, id: string, currency: string)
    requires SameShape(a, b)
    ensures Adjustable(a, id, currency) <==> Adjustable(b, id, currency)
  {
    AdjustableIff(a, id, currency);
    AdjustableIff(b, id, currency);
    SameIdsSameIndex(a, b, id);
  }

  lemma ReversePartial(st: State, tx: Transaction, end: int)
    requires Reverse(st, tx, end).Ok?
    ensures Reverse(st, tx, end).value.partial <==> st.partial || Incomplete(st.accounts, tx, end)
  {
    if tx.occurredAt >= end && !tx.amountHidden && (tx.kind.Income? || tx.kind.Expense? || tx.kind.Transfer?) {
      AdjustPartial(st, tx.sourceAccountId, tx.sourceAmount, !tx.kind.Income?);
      if tx.kind.Transfer? {
        var mid := Adjust(st, tx.sourceAccountId, tx.sourceAmount, true).value;
        AdjustPartial(mid, tx.destinationAccountId, tx.Arriving(), false);
        AdjustKeepsShape(st, tx.sourceAccountId, tx.sourceAmount, true);
        SameShapeSameAdjustable(st.accounts, mid.accounts, tx.destinationAccountId, tx.Arriving().currency);
      }
    }
  }

  lemma SameShapeSameIncomplete(a: seq<Account>, b: seq<Account>, tx: Transaction, end: int)
    requires SameShape(a, b)
    ensures Incomplete(a, tx, end) <==> Incomplete(b, tx, end)
  {
    SameShapeSameAdjustable(a, b, tx.sourceAccountId, tx.sourceAmount.currency);
    SameShapeSameAdjustable(a, b, tx.destinationAccountId, tx.Arriving().currency);
  }

  ghost predicate SomeIncomplete(accounts: seq<Account>, txs: seq<Transaction>, end: int) {
    exists tx | tx in txs :: Incomplete(accounts, tx, end)
  }

  lemma SomeIncompleteSplits(accounts: seq<Account>, after: seq<Account>, txs: seq<Transaction>, end: int)
    requires txs != [] && SameShape(after, accounts)
    ensures SomeIncomplete(accounts, txs, end) <==> Incomplete(accounts, txs[0], end) || SomeIncomplete(after, txs[1..], end)
  {
    assert txs == [txs[0]] + txs[1..];
    forall tx: Transaction
      ensures Incomplete(after, tx, end) <==> Incomplete(accounts, tx, end)
    {
      SameShapeSameIncomplete(after, accounts, tx, end);
    }
  }

  /** On success the result is partial exactly if it was before, or some later transaction cannot be undone completely. */
  lemma {:induction false} PartialIff(st: State, txs: seq<Transaction>, end: int)
    requires ReverseAll(st, txs, end).Ok?
    ensures ReverseAll(st, txs, end).value.partial <==> st.partial || SomeIncomplete(st.accounts, txs, end)
    decreases |txs|
  {
    if txs != [] {
      var mid := Reverse(st, txs[0], end).value;
      ReversePartial(st, txs[0], end);
      ReverseKeepsIds(st, txs[0], end);
      PartialIff(mid, txs[1..], end);
      SomeIncompleteSplits(st.accounts, mid.accounts, txs, end);
    }
  }
}
