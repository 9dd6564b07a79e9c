/** When a reconstruction succeeds: every running balance of an adjusted account fits. */
module HistoryRange {
  import opened Money
  import opened Ledger
  import opened History

  /** One change to an account's balance. */
  datatype Adjustment = Adjustment(id: string, amount: Money, add: bool)

  /** What undoing a transaction changes, in order. */
  function Undo(tx: Transaction, end: int): seq<Adjustment> {
    if tx.occurredAt < end || tx.amountHidden then []
    else match tx.kind
      case Income => [Adjustment(tx.sourceAccountId, tx.sourceAmount, false)]
      case Expense => [Adjustment(tx.sourceAccountId, tx.sourceAmount, true)]
      case Transfer => [Adjustment(tx.sourceAccountId, tx.sourceAmount, true), Adjustment(tx.destinationAccountId, tx.Arriving(), false)]
      case BalanceModification | UnknownTransaction => []
  }

  function UndoAll(txs: seq<Transaction>, end: int): seq<Adjustment> {
    if txs == [] then [] else Undo(txs[0], end) + UndoAll(txs[1..], end)
  }

  /** The sum of the changes made to an account under its id and in its currency. */
  function Net(adjustments: seq<Adjustment>, id: string, currency: string): int {
    if adjustments == [] then 0
    else
      var a := adjustments[0];
      (if a.id != id || a.amount.currency != currency then 0 else if a.add then a.amount.minor else 0 - a.amount.minor)
      + Net(adjustments[1..], id, currency)
  }

  /** The balance an adjustment leaves, changed by all of them up to it, is in range, if there is an account to adjust in
      that currency. */
  predicate Fits(accounts: seq<Account>, adjustments: seq<Adjustment>, k: nat)
    requires k < |adjustments|
  {
    var a := adjustments[k];
    match LastIndex(accounts, a.id)
    case None => true
    case Some(i) =>
      var b := accounts[i].balance;
      a.amount.currency == b.currency ==> InInt64(b.minor + Net(adjustments[..k + 1], a.id, b.currency))
  }

  ghost predicate AllFit(accounts: seq<Account>, adjustments: seq<Adjustment>) {
    forall k | 0 <= k < |adjustments| :: Fits(accounts, adjustments, k)
  }

  lemma FirstFits(st: State, a: Adjustment, rest: seq<Adjustment>)
    ensures Adjust(st, a.id, a.amount, a.add).Ok? <==> Fits(st.accounts, [a] + rest, 0)
  {
    assert ([a] + rest)[..1] == [a];
    assert Net([a], a.id, a.amount.currency) == (if a.add then a.amount.minor else 0 - a.amount.minor);
  }

  lemma LaterFits(st: State, a: Adjustment, rest: seq<Adjustment>, k: nat)
    requires Adjust(st, a.id, a.amount, a.add).Ok? && k < |rest|
    ensures Fits(st.accounts, [a] + rest, k + 1) <==> Fits(Adjust(st, a.id, a.amount, a.add).value.accounts, rest, k)
  {
    var after := Adjust(st, a.id, a.amount, a.add).value.accounts;
    var all := [a] + rest;
    assert all[k + 1] == rest[k] && all[..k + 2][0] == a && all[..k + 2][1..] == rest[..k + 1];
    AdjustKeepsShape(st, a.id, a.amount, a.add);
    SameIdsSameIndex(st.accounts, after, rest[k].id);
  }

  lemma FitOneByOne(st: State, a: Adjustment, rest: seq<Adjustment>)
    ensures var r := Adjust(st, a.id, a.amount, a.add);
      AllFit(st.accounts, [a] + rest) <==> r.Ok? && AllFit(r.value.accounts, rest)
  {
    var all, r := [a] + rest, Adjust(st, a.id, a.amount, a.add);
    FirstFits(st, a, rest);
    if r.Ok? {
      forall k | 0 <= k < |rest|
        ensures Fits(st.accounts, all, k + 1) <==> Fits(r.value.accounts, rest, k)
      {
        LaterFits(st, a, rest, k);
      }
      if AllFit(r.value.accounts, rest) {
        forall j | 0 <= j < |all|
          ensures Fits(st.accounts, all, j)
        {
          assert j > 0 ==> Fits(r.value.accounts, rest, j - 1);
        }
      }
    }
  }

  lemma FitOneTransaction(st: State, tx: Transaction, end: int, rest: seq<Adjustment>)
    ensures AllFit(st.accounts, Undo(tx, end) + rest) <==> Reverse(st, tx, end).Ok? && AllFit(Reverse(st, tx, end).value.accounts, rest)
  {
    var undo := Undo(tx, end);
    if undo == [] {
      assert undo + rest == rest;
    } else {
      FitOneByOne(st, undo[0], undo[1..] + rest);
      assert undo + rest == [undo[0]] + (undo[1..] + rest);
      if tx.kind.Transfer? {
        assert undo[1..] == [undo[1]];
        var first := Adjust(st, undo[0].id, undo[0].amount, undo[0].add);
        if first.Ok? {
          FitOneByOne(first.value, undo[1], rest);
        }
      } else {
        assert undo[1..] + rest == rest;
      }
    }
  }

  /** A reconstruction succeeds exactly if every adjustment leaves its account's running balance in range; the only failure
      is an overflow. */
  lemma {:induction false} ReversalSucceedsIff(st: State, txs: seq<Transaction>, end: int)
    ensures ReverseAll(st, txs, end).Ok? <==> AllFit(st.accounts, UndoAll(txs, end))
    ensures ReverseAll(st, txs, end).Err? ==> ReverseAll(st, txs, end).error == Overflow
    decreases |txs|
  {
    if txs != [] {
      FitOneTransaction(st, txs[0], end, UndoAll(txs[1..], end));
      var step := Reverse(st, txs[0], end);
      if step.Ok? {
        ReversalSucceedsIff(step.value, txs[1..], end);
      }
    }
  }
}
