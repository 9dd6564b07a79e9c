/** What a payoff plan says, field by field: which debts take part, in which order, and how much each gets. */
module PayoffFields {
  import opened Results
  import opened Integers
  import opened Money
  import opened DebtContract
  import opened Sorting
  import opened PayoffPlan

  /** An active debt with something left to pay. */
  predicate TakesPart(debt: Contract) {
    debt.active && debt.balance.minor >= 1
  }

  /** Avalanche asks for a rate that is not negative; every strategy asks for the one currency. */
  predicate Refused(strategy: Strategy, currency: string, debt: Contract, e: PlanError) {
    TakesPart(debt) &&
    if debt.balance.currency != currency then e == PlanCurrencyMismatch
    else strategy == Avalanche && (if debt.apr == None then e == PlanDebt(AprRequired) else debt.apr.value < 0.0 && e == PlanDebt(InvalidDebt))
  }

  ghost predicate Unusable(strategy: Strategy, currency: string, debt: Contract) {
    exists e :: Refused(strategy, currency, debt, e)
  }

  lemma ComplaintIff(strategy: Strategy, currency: string, debt: Contract, e: PlanError)
    ensures Refused(strategy, currency, debt, e) <==> Owing(debt) && Complaint(strategy, currency, debt) == Some(e)
  {
  }

  lemma UnusableIff(strategy: Strategy, currency: string, debt: Contract)
    ensures Unusable(strategy, currency, debt) <==> Owing(debt) && Complaint(strategy, currency, debt).Some?
  {
    if e :| Refused(strategy, currency, debt, e) {
      ComplaintIff(strategy, currency, debt, e);
    }
    if Owing(debt) && Complaint(strategy, currency, debt).Some? {
      ComplaintIff(strategy, currency, debt, Complaint(strategy, currency, debt).value);
    }
  }

  /** The debt at `k` is the first unusable one, with this complaint. */
  ghost predicate RefusedAt(strategy: Strategy, currency: string, debts: seq<Contract>, e: PlanError, k: nat) {
    && k < |debts| && Refused(strategy, currency, debts[k], e)
    && forall j | 0 <= j < k :: !Unusable(strategy, currency, debts[j])
  }

  lemma RefusedLater(strategy: Strategy, currency: string, debts: seq<Contract>, e: PlanError, k: nat)
    requires debts != []
    ensures RefusedAt(strategy, currency, debts, e, k + 1)
            <==> !Unusable(strategy, currency, debts[0]) && RefusedAt(strategy, currency, debts[1..], e, k)
  {
    var rest := debts[1..];
    assert forall j | 0 <= j < |rest| :: rest[j] == debts[j + 1];
    if !Unusable(strategy, currency, debts[0]) && RefusedAt(strategy, currency, rest, e, k) {
      forall j | 0 <= j < k + 1
        ensures !Unusable(strategy, currency, debts[j])
      {
        assert j > 0 ==> debts[j] == rest[j - 1];
      }
    }
  }

  /** A plan is refused exactly for its first unusable debt in input order. */
  lemma {:induction false} RefusedForTheFirst(strategy: Strategy, currency: string, debts: seq<Contract>, e: PlanError)
    ensures FirstComplaint(strategy, currency, debts) == Some(e) <==> exists k: nat :: RefusedAt(strategy, currency, debts, e, k)
    decreases |debts|
  {
    if debts != [] {
      UnusableIff(strategy, currency, debts[0]);
      ComplaintIff(strategy, currency, debts[0], e);
      RefusedForTheFirst(strategy, currency, debts[1..], e);
      forall k: nat
        ensures RefusedAt(strategy, currency, debts, e, k + 1)
                <==> !Unusable(strategy, currency, debts[0]) && RefusedAt(strategy, currency, debts[1..], e, k)
      {
        RefusedLater(strategy, currency, debts, e, k);
      }
      assert RefusedAt(strategy, currency, debts, e, 0) <==> Refused(strategy, currency, debts[0], e);
      if k: nat :| RefusedAt(strategy, currency, debts, e, k) {
        assert k > 0 ==> RefusedAt(strategy, currency, debts[1..], e, k - 1);
      }
    }
  }

  // ---------- order ----------

  /** Avalanche: higher rates first. Snowball: smaller balances first. Either way smaller ids first among equals. */
  predicate InOrder(strategy: Strategy, a: Contract, b: Contract) {
    match strategy
    case Avalanche =>
      a.apr.Some? && b.apr.Some? && a.apr.value >= b.apr.value && (a.apr.value == b.apr.value ==> a.id <= b.id)
    case _ => a.balance.minor <= b.balance.minor && (a.balance.minor == b.balance.minor ==> a.id <= b.id)
  }

  lemma {:induction false} NoComplaintMeansApr(strategy: Strategy, currency: string, debts: seq<Contract>)
    requires strategy.Avalanche? && FirstComplaint(strategy, currency, debts).None?
    ensures forall d | d in debts && Owing(d) :: d.apr.Some?
  {
    if debts != [] {
      NoComplaintMeansApr(strategy, currency, debts[1..]);
    }
  }

  lemma {:induction false} EligibleCount(debts: seq<Contract>, d: Contract)
    ensures multiset(Eligible(debts))[d] == if TakesPart(d) then multiset(debts)[d] else 0
  {
    FilterCount((x: Contract) => Owing(x), debts, d);
  }

  /** The candidates are the debts that take part, each as often as it is given, in the strategy's order. */
  lemma CandidatesInOrder(strategy: Strategy, currency: string, debts: seq<Contract>)
    requires FirstComplaint(strategy, currency, debts).None?
    ensures var c := Candidates(strategy, debts);
      && (forall d :: multiset(c)[d] == if TakesPart(d) then multiset(debts)[d] else 0)
      && (forall i, j | 0 <= i < j < |c| :: InOrder(strategy, c[i], c[j]))
      && (forall i | 0 <= i < |c| :: c[i].balance.minor >= 1)
  {
    var c := Candidates(strategy, debts);
    StableSortKeeps(strategy, Eligible(debts));
    EligibleOwes(debts);
    forall d: Contract
      ensures multiset(c)[d] == if TakesPart(d) then multiset(debts)[d] else 0
    {
      EligibleCount(debts, d);
    }
    if strategy.Avalanche? {
      NoComplaintMeansApr(strategy, currency, debts);
    }
    forall i | 0 <= i < |c|
      ensures c[i].balance.minor >= 1
    {
      assert c[i] in Eligible(debts);
    }
    forall i, j | 0 <= i < j < |c|
      ensures InOrder(strategy, c[i], c[j])
    {
      assert !Order(strategy)(c[j], c[i]);
      assert c[i] in Eligible(debts) && c[j] in Eligible(debts);
    }
  }

  // ---------- amounts ----------

  /** What the candidates before position `i` owe together. */
  function OwedBefore(c: seq<Contract>, i: nat): int
    requires i <= |c|
  {
    if i == 0 then 0 else OwedBefore(c, i - 1) + c[i - 1].balance.minor
  }

  lemma {:induction false} OwedBeforeTail(c: seq<Contract>, i: nat)
    requires c != [] && i < |c|
    ensures OwedBefore(c, i + 1) == c[0].balance.minor + OwedBefore(c[1..], i)
    decreases i
  {
    if i > 0 {
      OwedBeforeTail(c, i - 1);
    }
  }

  lemma {:induction false} OwedIsNotNegative(c: seq<Contract>, i: nat)
    requires i <= |c| && forall k | 0 <= k < |c| :: c[k].balance.minor >= 1
    ensures OwedBefore(c, i) >= 0
    decreases i
  {
    if i > 0 {
      OwedIsNotNegative(c, i - 1);
    }
  }

  /** Allocation `i` goes to candidate `i`: its balance, or what is left of the budget if that is less. */
  predicate Pays(c: seq<Contract>, budget: int, plan: seq<(Int64, int)>, i: nat)
    requires i < |plan| <= |c|
  {
    && OwedBefore(c, i) < budget
    && plan[i].0 == c[i].id && plan[i].1 == Min(c[i].balance.minor, budget - OwedBefore(c, i))
  }

  /** The candidates are paid in order as long as anything is left. */
  ghost predicate PaysInOrder(c: seq<Contract>, budget: int, plan: seq<(Int64, int)>) {
    && |plan| <= |c|
    && (forall i | 0 <= i < |plan| :: Pays(c, budget, plan, i))
    && (|plan| < |c| ==> OwedBefore(c, |plan|) >= budget)
  }

  lemma FirstIsPaid(c: seq<Contract>, budget: int, rest: seq<(Int64, int)>)
    requires c != [] && budget > 0 && forall i | 0 <= i < |c| :: c[i].balance.minor >= 1
    requires PaysInOrder(c[1..], budget - Min(budget, c[0].balance.minor), rest)
    ensures PaysInOrder(c, budget, [(c[0].id, Min(budget, c[0].balance.minor))] + rest)
  {
    var amount := Min(budget, c[0].balance.minor);
    var plan := [(c[0].id, amount)] + rest;
    forall i | 0 <= i < |plan|
      ensures Pays(c, budget, plan, i)
    {
      if i > 0 {
        assert Pays(c[1..], budget - amount, rest, i - 1);
        OwedBeforeTail(c, i - 1);
        OwedIsNotNegative(c[1..], i - 1);
      }
    }
    if |rest| < |c[1..]| {
      OwedBeforeTail(c, |rest|);
      OwedIsNotNegative(c[1..], |rest|);
    }
  }

  lemma {:induction false} ListedInOrder(c: seq<Contract>, budget: int)
    requires budget >= 0 && forall i | 0 <= i < |c| :: c[i].balance.minor >= 1
    ensures PaysInOrder(c, budget, Listed(Greedy(c, budget)))
    decreases |c|
  {
    if c != [] {
      var amount := Min(budget, c[0].balance.minor);
      var shares := Greedy(c[1..], budget - amount);
      assert ([Share(c[0], amount)] + shares)[1..] == shares;
      if budget == 0 {
        NothingLeftListsNothing(c);
      } else {
        ListedInOrder(c[1..], budget - amount);
        FirstIsPaid(c, budget, Listed(shares));
      }
    }
  }

  /** A plan without complaint pays the debts that take part, in the strategy's order, as long as anything is left. */
  lemma PlanPaysInOrder(strategy: Strategy, currency: string, debts: seq<Contract>, budget: int) returns (c: seq<Contract>)
    requires FirstComplaint(strategy, currency, debts).None? && budget >= 0
    ensures forall d :: multiset(c)[d] == if TakesPart(d) then multiset(debts)[d] else 0
    ensures forall i, j | 0 <= i < j < |c| :: InOrder(strategy, c[i], c[j])
    ensures PaysInOrder(c, budget, Listed(Greedy(Candidates(strategy, debts), budget)))
  {
    c := Candidates(strategy, debts);
    CandidatesInOrder(strategy, currency, debts);
    ListedInOrder(c, budget);
  }
}
