/** Rebuilding past balances by reversing the transactions that happened after the end of a period. */
module History {
  import opened Results
  import opened Money
  import opened Ledger
  import opened Sorting

  // ---------- the reversal, as the source performs it ----------

  /** Where the id-to-index table points: the last account with that id. */
  function LastIndex(accounts: seq<Account>, id: string): (r: Option<nat>)
    ensures r.None? ==> forall i | 0 <= i < |accounts| :: accounts[i].id != id
    ensures r.Some? ==> r.value < |accounts| && accounts[r.value].id == id
                        && forall i | r.value < i < |accounts| :: accounts[i].id != id
  {
    if accounts == [] then None
    else if accounts[|accounts| - 1].id == id then Some(|accounts| - 1)
    else LastIndex(accounts[..|accounts| - 1], id)
  }

  /** The accounts being rebuilt, the ids that cannot be rebuilt, and whether anything was incomplete. */
  datatype State = State(accounts: seq<Account>, invalid: set<string>, partial: bool)

  function Adjust(st: State, id: string, amount: Money, add: bool): Result<State, MoneyError> {
    match LastIndex(st.accounts, id)
    case None => Ok(st.(partial := true))
    case Some(i) =>
      var account := st.accounts[i];
      if amount.currency != account.balance.currency then Ok(st.(partial := true, invalid := st.invalid + {id}))
      else match (if add then Add(account.balance, amount) else Sub(account.balance, amount))
        case Err(e) => Err(e)
        case Ok(b) => Ok(st.(accounts := st.accounts[i := account.(balance := b)]))
  }

  /** Undo one transaction: income is taken back out, expenses and outgoing transfers are put back. */
  function Reverse(st: State, tx: Transaction, end: int): Result<State, MoneyError> {
    if tx.occurredAt < end then Ok(st)
    else if tx.amountHidden then
      Ok(st.(partial := true, invalid := st.invalid + {tx.sourceAccountId, tx.destinationAccountId}))
    else match tx.kind
      case Income => Adjust(st, tx.sourceAccountId, tx.sourceAmount, false)
      case Expense => Adjust(st, tx.sourceAccountId, tx.sourceAmount, true)
      case Transfer =>
        (match Adjust(st, tx.sourceAccountId, tx.sourceAmount, true)
         case Err(e) => Err(e)
         case Ok(st') => Adjust(st', tx.destinationAccountId, tx.Arriving(), false))
      case BalanceModification => Ok(st.(partial := true, invalid := st.invalid + {tx.sourceAccountId}))
      case UnknownTransaction => Ok(st.(partial := true))
  }

  function ReverseAll(st: State, txs: seq<Transaction>, end: int): Result<State, MoneyError>
    decreases |txs|
  {
    if txs == [] then Ok(st)
    else match Reverse(st, txs[0], end)
      case Err(e) => Err(e)
      case Ok(st') => ReverseAll(st', txs[1..], end)
  }

  /** The accounts the table points to under an invalid id are hidden. */
  function HideInvalid(st: State): seq<Account> {
    seq(|st.accounts|, i requires 0 <= i < |st.accounts| =>
      var a := st.accounts[i];
      if a.id in st.invalid && LastIndex(st.accounts, a.id) == Some(i) then a.(hidden := true) else a)
  }

  method Reconstruct(accounts: seq<Account>, transactions: seq<Transaction>, end: int, partial: bool)
    returns (r: Result<(seq<Account>, bool), MoneyError>)
    ensures match ReverseAll(State(accounts, {}, partial), transactions, end)
      case Err(e) => r == Err(e)
      case Ok(st) => r == Ok((HideInvalid(st), st.partial))
  {
    var indexes := IndexById(accounts);
    var st := State(accounts, {}, partial);
    for k := 0 to |transactions|
      invariant |st.accounts| == |accounts| && forall i | 0 <= i < |accounts| :: st.accounts[i].id == accounts[i].id
      invariant ReverseAll(State(accounts, {}, partial), transactions, end) == ReverseAll(st, transactions[k..], end)
    {
      assert transactions[k..][0] == transactions[k] && transactions[k..][1..] == transactions[k + 1..];
      var step := Reverse(st, transactions[k], end);
      if step.Err? {
        return Err(step.error);
      }
      ReverseKeepsIds(st, transactions[k], end);
      st := step.value;
    }
    var rebuilt := st.accounts;
    var todo := st.invalid;
    while todo != {}
      invariant todo <= st.invalid && |rebuilt| == |st.accounts|
      invariant forall i | 0 <= i < |rebuilt| ::
        rebuilt[i] == if st.accounts[i].id in st.invalid - todo && LastIndex(st.accounts, st.accounts[i].id) == Some(i)
                      then st.accounts[i].(hidden := true) else st.accounts[i]
    {
      var id :| id in todo;
      if id in indexes {
        SameIdsSameIndex(accounts, st.accounts, id);
        rebuilt := rebuilt[indexes[id] := rebuilt[indexes[id]].(hidden := true)];
      } else {
        SameIdsSameIndex(accounts, st.accounts, id);
      }
      todo := todo - {id};
    }
    assert rebuilt == HideInvalid(st);
    r := Ok((rebuilt, st.partial));
  }

  method IndexById(accounts: seq<Account>) returns (indexes: map<string, nat>)
    ensures forall id :: if id in indexes then LastIndex(accounts, id) == Some(indexes[id]) else LastIndex(accounts, id).None?
  {
    indexes := map[];
    for i := 0 to |accounts|
      invariant forall id :: if id in indexes then LastIndex(accounts[..i], id) == Some(indexes[id]) else LastIndex(accounts[..i], id).None?
    {
      assert accounts[..i + 1][..i] == accounts[..i];
      indexes := indexes[accounts[i].id := i];
    }
    assert accounts[..|accounts|] == accounts;
  }

  lemma {:induction false} SameIdsSameIndex(a: seq<Account>, b: seq<Account>, id: string)
    requires |a| == |b| && forall i | 0 <= i < |a| :: a[i].id == b[i].id
    ensures LastIndex(a, id) == LastIndex(b, id)
  {
    if a != [] && a[|a| - 1].id != id {
      SameIdsSameIndex(a[..|a| - 1], b[..|b| - 1], id);
    }
  }

  /** Ids and currencies are never touched. */
  ghost predicate SameShape(a: seq<Account>, b: seq<Account>) {
    |a| == |b| && forall i | 0 <= i < |a| :: a[i].id == b[i].id && a[i].balance.currency == b[i].balance.currency
  }

  lemma {:induction false} AdjustKeepsShape(st: State, id: string, amount: Money, add: bool)
    requires Adjust(st, id, amount, add).Ok?
    ensures SameShape(Adjust(st, id, amount, add).value.accounts, st.accounts)
    ensures st.invalid <= Adjust(st, id, amount, add).value.invalid
  {
  }

  lemma {:induction false} ReverseKeepsIds(st: State, tx: Transaction, end: int)
    requires Reverse(st, tx, end).Ok?
    ensures SameShape(Reverse(st, tx, end).value.accounts, st.accounts)
    ensures st.invalid <= Reverse(st, tx, end).value.invalid
  {
    if tx.occurredAt >= end && !tx.amountHidden {
      if tx.kind.Income? || tx.kind.Expense? || tx.kind.Transfer? {
        AdjustKeepsShape(st, tx.sourceAccountId, tx.sourceAmount, !tx.kind.Income?);
      }
      if tx.kind.Transfer? {
        var st' := Adjust(st, tx.sourceAccountId, tx.sourceAmount, true).value;
        AdjustKeepsShape(st', tx.destinationAccountId, tx.Arriving(), false);
      }
    }
  }

  // ---------- what replaying forward means ----------

  /** The change an income, expense or transfer makes to the balance of `id` when it happens. */
  function Effect(tx: Transaction, id: string): int {
    match tx.kind
    case Income => if tx.sourceAccountId == id then tx.sourceAmount.minor else 0
    case Expense => if tx.sourceAccountId == id then 0 - tx.sourceAmount.minor else 0
    case Transfer =>
      (if tx.sourceAccountId == id then 0 - tx.sourceAmount.minor else 0) +
      (if tx.destinationAccountId == id then tx.Arriving().minor else 0)
    case _ => 0
  }

  /** The balance of `id` after the transactions from `end` on have happened, in the order given. */
  function Replay(balance: int, txs: seq<Transaction>, id: string, end: int): int
    decreases |txs|
  {
    if txs == [] then balance
    else Replay(if txs[0].occurredAt < end then balance else balance + Effect(txs[0], id), txs[1..], id, end)
  }

  /** A transaction that makes the balance of `id`, held in `currency`, impossible to rebuild. */
  predicate Spoils(tx: Transaction, id: string, currency: string, end: int) {
    tx.occurredAt >= end &&
    if tx.amountHidden then id == tx.sourceAccountId || id == tx.destinationAccountId
    else match tx.kind
      case Income | Expense => id == tx.sourceAccountId && tx.sourceAmount.currency != currency
      case Transfer =>
        || (id == tx.sourceAccountId && tx.sourceAmount.currency != currency)
        || (id == tx.destinationAccountId && tx.Arriving().currency != currency)
      case BalanceModification => id == tx.sourceAccountId
      case UnknownTransaction => false
  }

  lemma {:induction false} AdjustStep(st: State, target: string, amount: Money, add: bool, i: nat)
    requires Adjust(st, target, amount, add).Ok?
    requires i < |st.accounts| && LastIndex(st.accounts, st.accounts[i].id) == Some(i)
    ensures var st', id := Adjust(st, target, amount, add).value, st.accounts[i].id;
      && (id in st'.invalid <==> id in st.invalid || (id == target && amount.currency != st.accounts[i].balance.currency))
      && (id == target && amount.currency == st.accounts[i].balance.currency ==>
            st'.accounts[i].balance.minor == st.accounts[i].balance.minor + (if add then amount.minor else 0 - amount.minor))
      && (id != target ==> st'.accounts[i] == st.accounts[i])
  {
  }

  /** One reversal takes the transaction's effect back out of every account it does not spoil. */
  lemma {:induction false} ReverseStep(st: State, tx: Transaction, end: int, i: nat)
    requires Reverse(st, tx, end).Ok?
    requires i < |st.accounts| && LastIndex(st.accounts, st.accounts[i].id) == Some(i)
    ensures var st', a := Reverse(st, tx, end).value, st.accounts[i];
      && |st'.accounts| == |st.accounts|
      && (a.id in st'.invalid <==> a.id in st.invalid || Spoils(tx, a.id, a.balance.currency, end))
      && (!Spoils(tx, a.id, a.balance.currency, end) ==>
            st'.accounts[i].balance.minor
            == a.balance.minor - (if tx.occurredAt < end then 0 else Effect(tx, a.id)))
  {
    ReverseKeepsIds(st, tx, end);
    if tx.occurredAt >= end && !tx.amountHidden {
      if tx.kind.Income? || tx.kind.Expense? || tx.kind.Transfer? {
        AdjustStep(st, tx.sourceAccountId, tx.sourceAmount, !tx.kind.Income?, i);
      }
      if tx.kind.Transfer? {
        var st' := Adjust(st, tx.sourceAccountId, tx.sourceAmount, true).value;
        AdjustKeepsShape(st, tx.sourceAccountId, tx.sourceAmount, true);
        SameIdsSameIndex(st.accounts, st'.accounts, st.accounts[i].id);
        AdjustStep(st', tx.destinationAccountId, tx.Arriving(), false, i);
      }
    }
  }

  lemma {:induction false} ReplayShift(balance: int, delta: int, txs: seq<Transaction>, id: string, end: int)
    ensures Replay(balance + delta, txs, id, end) == Replay(balance, txs, id, end) + delta
    decreases |txs|
  {
    if txs != [] {
      var step := if txs[0].occurredAt < end then 0 else Effect(txs[0], id);
      ReplayShift(balance + step, delta, txs[1..], id, end);
    }
  }

  /** If the balance before the first transaction replays the others, the final balance replays them all. */
  lemma ReplayUndone(final: int, txs: seq<Transaction>, id: string, end: int, before: int, now: int)
    requires txs != [] && before == now - (if txs[0].occurredAt < end then 0 else Effect(txs[0], id))
    requires Replay(final, txs[1..], id, end) == before
    ensures Replay(final, txs, id, end) == now
  {
    ReplayShift(final, now - before, txs[1..], id, end);
  }

  lemma ReplayIsNeutral(balance: int, txs: seq<Transaction>, id: string, end: int)
    ensures Replay(balance, txs, id, end) == balance <==> Replay(0, txs, id, end) == 0
  {
    ReplayShift(0, balance, txs, id, end);
  }

  /** Reversal inverts replay for every account that no transaction spoils, and marks exactly the spoiled ones. */
  lemma {:induction false} ReversalInvertsReplay(st: State, txs: seq<Transaction>, end: int, i: nat)
    requires ReverseAll(st, txs, end).Ok?
    requires i < |st.accounts| && LastIndex(st.accounts, st.accounts[i].id) == Some(i)
    ensures var st', a := ReverseAll(st, txs, end).value, st.accounts[i];
      && SameShape(st'.accounts, st.accounts)
      && (a.id in st'.invalid <==> a.id in st.invalid || exists tx | tx in txs :: Spoils(tx, a.id, a.balance.currency, end))
      && (a.id !in st'.invalid ==> Replay(st'.accounts[i].balance.minor, txs, a.id, end) == a.balance.minor)
    decreases |txs|
  {
    if txs != [] {
      var tx, a := txs[0], st.accounts[i];
      var mid := Reverse(st, tx, end).value;
      ReverseKeepsIds(st, tx, end);
      SameIdsSameIndex(st.accounts, mid.accounts, a.id);
      ReverseStep(st, tx, end, i);
      ReversalInvertsReplay(mid, txs[1..], end, i);
      var final := ReverseAll(mid, txs[1..], end).value;
      assert txs == [tx] + txs[1..];
      if a.id !in final.invalid {
        ReplayUndone(final.accounts[i].balance.minor, txs, a.id, end, mid.accounts[i].balance.minor, a.balance.minor);
      }
    }
  }

  // ---------- the reconstruction as a whole ----------

  /** The accounts a successful reconstruction returns. */
  function Rebuilt(accounts: seq<Account>, txs: seq<Transaction>, end: int, partial: bool): seq<Account>
    requires ReverseAll(State(accounts, {}, partial), txs, end).Ok?
  {
    HideInvalid(ReverseAll(State(accounts, {}, partial), txs, end).value)
  }

  /** Every account that is last of its id comes back hidden exactly if it was hidden or some later transaction
      spoils it, and otherwise replaying the later transactions, in any order, gives its current balance. */
  lemma {:induction false} RebuiltAccount(accounts: seq<Account>, txs: seq<Transaction>, end: int, partial: bool, i: nat,
                                          order: seq<Transaction>)
    requires ReverseAll(State(accounts, {}, partial), txs, end).Ok?
    requires i < |accounts| && LastIndex(accounts, accounts[i].id) == Some(i)
    requires multiset(order) == multiset(txs)
    ensures var a, b := accounts[i], Rebuilt(accounts, txs, end, partial);
      && |b| == |accounts|
      && b[i].(hidden := a.hidden, balance := a.balance) == a && b[i].balance.currency == a.balance.currency
      && (b[i].hidden <==> a.hidden || exists tx | tx in txs :: Spoils(tx, a.id, a.balance.currency, end))
      && (!b[i].hidden ==> Replay(b[i].balance.minor, order, a.id, end) == a.balance.minor)
  {
    var st := State(accounts, {}, partial);
    var st' := ReverseAll(st, txs, end).value;
    ReversalInvertsReplay(st, txs, end, i);
    SameIdsSameIndex(accounts, st'.accounts, accounts[i].id);
    OtherFieldsKept(st, txs, end, i);
    ReplayAnyOrder(st'.accounts[i].balance.minor, txs, order, accounts[i].id, end);
  }

  lemma {:induction false} AdjustKeepsFields(st: State, id: string, amount: Money, add: bool, i: nat)
    requires Adjust(st, id, amount, add).Ok? && i < |st.accounts|
    ensures var a := Adjust(st, id, amount, add).value.accounts[i];
      a.(balance := st.accounts[i].balance) == st.accounts[i]
  {
  }

  lemma {:induction false} ReverseKeepsFields(st: State, tx: Transaction, end: int, i: nat)
    requires Reverse(st, tx, end).Ok? && i < |st.accounts|
    ensures var after := Reverse(st, tx, end).value.accounts;
      |after| == |st.accounts| && after[i].(balance := st.accounts[i].balance) == st.accounts[i]
  {
    if tx.occurredAt >= end && !tx.amountHidden && (tx.kind.Income? || tx.kind.Expense? || tx.kind.Transfer?) {
      AdjustKeepsFields(st, tx.sourceAccountId, tx.sourceAmount, !tx.kind.Income?, i);
      if tx.kind.Transfer? {
        AdjustKeepsFields(Adjust(st, tx.sourceAccountId, tx.sourceAmount, true).value, tx.destinationAccountId, tx.Arriving(), false, i);
      }
    }
  }

  lemma {:induction false} OtherFieldsKept(st: State, txs: seq<Transaction>, end: int, i: nat)
    requires ReverseAll(st, txs, end).Ok? && i < |st.accounts|
    ensures var after := ReverseAll(st, txs, end).value.accounts;
      |after| == |st.accounts| && after[i].(balance := st.accounts[i].balance) == st.accounts[i]
    decreases |txs|
  {
    if txs != [] {
      ReverseKeepsFields(st, txs[0], end, i);
      OtherFieldsKept(Reverse(st, txs[0], end).value, txs[1..], end, i);
    }
  }

  ghost function EffectFrom(id: string, end: int): Transaction -> real {
    (tx: Transaction) => if tx.occurredAt < end then 0.0 else Effect(tx, id) as real
  }

  lemma {:induction false} ReplayIsASum(balance: int, txs: seq<Transaction>, id: string, end: int)
    ensures Replay(balance, txs, id, end) as real == balance as real + SumBy(EffectFrom(id, end), txs)
    decreases |txs|
  {
    if txs != [] {
      ReplayIsASum(if txs[0].occurredAt < end then balance else balance + Effect(txs[0], id), txs[1..], id, end);
    }
  }

  /** Replay gives the same balance in every order. */
  lemma {:induction false} ReplayAnyOrder(balance: int, txs: seq<Transaction>, order: seq<Transaction>, id: string, end: int)
    requires multiset(order) == multiset(txs)
    ensures Replay(balance, order, id, end) == Replay(balance, txs, id, end)
  {
    ReplayIsASum(balance, txs, id, end);
    ReplayIsASum(balance, order, id, end);
    SumByPermutation(EffectFrom(id, end), txs, order);
  }

  /** Two orders of the same transactions that both stay in range rebuild the same account. */
  lemma {:induction false} RebuiltAnyOrder(accounts: seq<Account>, txs: seq<Transaction>, order: seq<Transaction>, end: int, partial: bool, i: nat)
    requires ReverseAll(State(accounts, {}, partial), txs, end).Ok?
    requires ReverseAll(State(accounts, {}, partial), order, end).Ok?
    requires multiset(order) == multiset(txs)
    requires i < |accounts| && LastIndex(accounts, accounts[i].id) == Some(i)
    ensures var a, b := Rebuilt(accounts, txs, end, partial), Rebuilt(accounts, order, end, partial);
      |a| == |b| == |accounts| && a[i].hidden == b[i].hidden && (!a[i].hidden ==> a[i] == b[i])
  {
    RebuiltAccount(accounts, txs, end, partial, i, txs);
    RebuiltAccount(accounts, order, end, partial, i, txs);
    assert forall tx :: tx in txs <==> tx in multiset(txs);
    assert forall tx :: tx in order <==> tx in multiset(order);
    var id := accounts[i].id;
    var a, b := Rebuilt(accounts, txs, end, partial)[i], Rebuilt(accounts, order, end, partial)[i];
    ReplayShift(b.balance.minor, a.balance.minor - b.balance.minor, txs, id, end);
  }

  const SHARED_ID := Account("cash", Cash, false, Money(100, "CNY"), true, false, false)
  const LATER_EXPENSE := Transaction("t", Expense, "food", 5, "cash", "", Money(30, "CNY"), None, false, "")

  lemma {:induction false} ReverseSkipsShadowed(st: State, tx: Transaction, end: int, i: nat)
    requires Reverse(st, tx, end).Ok?
    requires i < |st.accounts| && LastIndex(st.accounts, st.accounts[i].id) != Some(i)
    ensures |Reverse(st, tx, end).value.accounts| == |st.accounts| && Reverse(st, tx, end).value.accounts[i] == st.accounts[i]
  {
    if tx.occurredAt >= end && !tx.amountHidden && tx.kind.Transfer? {
      var mid := Adjust(st, tx.sourceAccountId, tx.sourceAmount, true).value;
      AdjustKeepsShape(st, tx.sourceAccountId, tx.sourceAmount, true);
      SameIdsSameIndex(st.accounts, mid.accounts, st.accounts[i].id);
    }
  }

  lemma {:induction false} ReversalSkipsShadowed(st: State, txs: seq<Transaction>, end: int, i: nat)
    requires ReverseAll(st, txs, end).Ok?
    requires i < |st.accounts| && LastIndex(st.accounts, st.accounts[i].id) != Some(i)
    ensures SameShape(ReverseAll(st, txs, end).value.accounts, st.accounts)
    ensures ReverseAll(st, txs, end).value.accounts[i] == st.accounts[i]
    decreases |txs|
  {
    if txs != [] {
      var mid := Reverse(st, txs[0], end).value;
      ReverseKeepsIds(st, txs[0], end);
      ReverseSkipsShadowed(st, txs[0], end, i);
      SameIdsSameIndex(st.accounts, mid.accounts, st.accounts[i].id);
      ReversalSkipsShadowed(mid, txs[1..], end, i);
    }
  }

  lemma ShadowedComesBack(accounts: seq<Account>, txs: seq<Transaction>, end: int, partial: bool, i: nat)
    requires ReverseAll(State(accounts, {}, partial), txs, end).Ok?
    requires i < |accounts| && LastIndex(accounts, accounts[i].id) != Some(i)
    ensures |Rebuilt(accounts, txs, end, partial)| == |accounts| && Rebuilt(accounts, txs, end, partial)[i] == accounts[i]
  {
    var st := State(accounts, {}, partial);
    ReversalSkipsShadowed(st, txs, end, i);
    SameIdsSameIndex(accounts, ReverseAll(st, txs, end).value.accounts, accounts[i].id);
  }

  /** An account that shares its id with a later one comes back untouched, so replay gives its current balance
      exactly if the later transactions have no net effect on that id. */
  lemma ShadowedAccountIsUntouched(accounts: seq<Account>, txs: seq<Transaction>, end: int, partial: bool, i: nat)
    requires ReverseAll(State(accounts, {}, partial), txs, end).Ok?
    requires i < |accounts| && LastIndex(accounts, accounts[i].id) != Some(i)
    ensures var b, a := Rebuilt(accounts, txs, end, partial), accounts[i];
      && |b| == |accounts| && b[i] == a
      && (Replay(b[i].balance.minor, txs, a.id, end) == a.balance.minor <==> Replay(0, txs, a.id, end) == 0)
  {
    ShadowedComesBack(accounts, txs, end, partial, i);
    ReplayIsNeutral(accounts[i].balance.minor, txs, accounts[i].id, end);
  }

  /** The condition on the id is needed: an account that shares its id with a later one is not in the index
      table, so it keeps its current balance, stays visible, and a later expense on that id is not undone for it. */
  lemma ShadowedAccountIsNotRebuilt()
    ensures var accounts, txs := [SHARED_ID, SHARED_ID], [LATER_EXPENSE];
      && ReverseAll(State(accounts, {}, false), txs, 0).Ok?
      && |Rebuilt(accounts, txs, 0, false)| == 2
      && Rebuilt(accounts, txs, 0, false)[0] == SHARED_ID
      && Replay(SHARED_ID.balance.minor, txs, "cash", 0) == 70 != SHARED_ID.balance.minor
  {
    var accounts := [SHARED_ID, SHARED_ID];
    var st := State(accounts, {}, false);
    assert LastIndex(accounts, "cash") == Some(1);
    var after := st.(accounts := accounts[1 := SHARED_ID.(balance := Money(130, "CNY"))]);
    assert Reverse(st, LATER_EXPENSE, 0) == Ok(after);
    assert ReverseAll(st, [LATER_EXPENSE], 0) == ReverseAll(after, [], 0);
    assert Replay(100, [LATER_EXPENSE], "cash", 0) == Replay(70, [], "cash", 0);
  }
}
