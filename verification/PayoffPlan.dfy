/** The greedy payoff planner: spare liquidity goes to the highest rate first, or to the smallest balance first. */
module PayoffPlan {
  import opened Results
  import opened Integers
  import opened Money
  import opened DebtContract
  import opened Sorting

  datatype Strategy = Avalanche | Snowball | OtherStrategy

  datatype PlanError = PlanCurrencyMismatch | PlanDebt(error: DebtError)

  datatype Share = Share(debt: Contract, amount: int)

  datatype Plan = Plan(strategy: Strategy, availableExtra: int, liquidityShortfall: int, allocations: seq<(Int64, int)>)

  // ---------- the planner ----------

  predicate Owing(debt: Contract) {
    debt.active && debt.balance.minor > 0
  }

  function RateOf(debt: Contract): real {
    if debt.apr.Some? then debt.apr.value else 0.0
  }

  predicate ComesFirst(strategy: Strategy, a: Contract, b: Contract) {
    if strategy.Avalanche? && RateOf(a) != RateOf(b) then RateOf(a) > RateOf(b)
    else if !strategy.Avalanche? && a.balance.minor != b.balance.minor then a.balance.minor < b.balance.minor
    else a.id < b.id
  }

  function Order(strategy: Strategy): (Contract, Contract) -> bool {
    (a: Contract, b: Contract) => ComesFirst(strategy, a, b)
  }

  /** What makes one owing debt unusable for the strategy. */
  function Complaint(strategy: Strategy, currency: string, debt: Contract): Option<PlanError> {
    if debt.balance.currency != currency then Some(PlanCurrencyMismatch)
    else if strategy.Avalanche? && debt.apr.None? then Some(PlanDebt(AprRequired))
    else if strategy.Avalanche? && debt.apr.value < 0.0 then Some(PlanDebt(InvalidDebt))
    else None
  }

  /** The complaint about the first unusable owing debt, in input order. */
  function FirstComplaint(strategy: Strategy, currency: string, debts: seq<Contract>): Option<PlanError> {
    if debts == [] then None
    else if Owing(debts[0]) && Complaint(strategy, currency, debts[0]).Some? then Complaint(strategy, currency, debts[0])
    else FirstComplaint(strategy, currency, debts[1..])
  }

  function Eligible(debts: seq<Contract>): seq<Contract> {
    Filter((d: Contract) => Owing(d), debts)
  }

  /** Each debt in turn takes what is left, up to its balance. */
  function Greedy(candidates: seq<Contract>, budget: int): seq<Share> {
    if candidates == [] then []
    else
      var amount := Min(budget, candidates[0].balance.minor);
      [Share(candidates[0], amount)] + Greedy(candidates[1..], budget - amount)
  }

  /** The shares that allocate something, as the plan lists them. */
  function Listed(shares: seq<Share>): seq<(Int64, int)> {
    if shares == [] then []
    else (if shares[0].amount > 0 then [(shares[0].debt.id, shares[0].amount)] else []) + Listed(shares[1..])
  }

  function Candidates(strategy: Strategy, debts: seq<Contract>): seq<Contract> {
    StableSort(Order(strategy), Eligible(debts))
  }

  /** Filter, order, then hand out what is available until nothing remains. */
  method BuildPayoffPlan(debts: seq<Contract>, liquid: Money, floor: Money, strategy: Strategy) returns (r: Result<Plan, PlanError>)
    ensures
      if liquid.currency != floor.currency then r == Err(PlanCurrencyMismatch)
      else if liquid.minor < 0 || floor.minor < 0 then r == Err(PlanDebt(InvalidDebt))
      else if strategy.OtherStrategy? then r == Err(PlanDebt(InvalidStrategy))
      else if liquid.minor <= floor.minor then r == Ok(Plan(strategy, 0, floor.minor - liquid.minor, []))
      else match FirstComplaint(strategy, liquid.currency, debts)
        case Some(e) => r == Err(e)
        case None => r == Ok(Plan(strategy, liquid.minor - floor.minor, 0,
                                  Listed(Greedy(Candidates(strategy, debts), liquid.minor - floor.minor))))
  {
    if liquid.currency != floor.currency {
      return Err(PlanCurrencyMismatch);
    }
    if liquid.minor < 0 || floor.minor < 0 {
      return Err(PlanDebt(InvalidDebt));
    }
    if strategy.OtherStrategy? {
      return Err(PlanDebt(InvalidStrategy));
    }
    if liquid.minor <= floor.minor {
      return Ok(Plan(strategy, 0, floor.minor - liquid.minor, []));
    }
    var available := liquid.minor - floor.minor;
    var complaint, candidates := CollectCandidates(debts, liquid.currency, strategy);
    if complaint.Some? {
      return Err(complaint.value);
    }
    candidates := StableSort(Order(strategy), candidates);
    StableSortKeeps(strategy, Eligible(debts));
    EligibleOwes(debts);
    var allocations := Allocate(candidates, available);
    r := Ok(Plan(strategy, available, 0, allocations));
  }

  method CollectCandidates(debts: seq<Contract>, currency: string, strategy: Strategy)
    returns (complaint: Option<PlanError>, candidates: seq<Contract>)
    ensures complaint == FirstComplaint(strategy, currency, debts)
    ensures complaint.None? ==> candidates == Eligible(debts)
  {
    complaint, candidates := None, [];
    for i := 0 to |debts|
      invariant FirstComplaint(strategy, currency, debts) == FirstComplaint(strategy, currency, debts[i..])
      invariant complaint.None? && candidates == Eligible(debts[..i])
    {
      var debt := debts[i];
      assert debts[..i + 1] == debts[..i] + [debt];
      FilterAppend((d: Contract) => Owing(d), debts[..i], debt);
      if !Owing(debt) {
        continue;
      }
      complaint := Complaint(strategy, currency, debt);
      if complaint.Some? {
        return;
      }
      candidates := candidates + [debt];
    }
    assert debts[..|debts|] == debts;
  }

  lemma ListedPrefix(allocations: seq<(Int64, int)>, shares: seq<Share>)
    requires shares != []
    ensures allocations + Listed(shares)
            == (allocations + (if shares[0].amount > 0 then [(shares[0].debt.id, shares[0].amount)] else [])) + Listed(shares[1..])
  {
    var first := if shares[0].amount > 0 then [(shares[0].debt.id, shares[0].amount)] else [];
    AppendAssociates(allocations, first, Listed(shares[1..]));
  }

  lemma {:induction false} NothingLeftListsNothing(candidates: seq<Contract>)
    requires forall d | d in candidates :: d.balance.minor > 0
    ensures Listed(Greedy(candidates, 0)) == []
  {
    if candidates != [] {
      NothingLeftListsNothing(candidates[1..]);
    }
  }

  method Allocate(candidates: seq<Contract>, available: int) returns (allocations: seq<(Int64, int)>)
    requires available >= 0 && forall d | d in candidates :: d.balance.minor > 0
    ensures allocations == Listed(Greedy(candidates, available))
  {
    var remaining := available;
    allocations := [];
    var i := 0;
    while i < |candidates|
      invariant 0 <= i <= |candidates| && 0 <= remaining
      invariant Listed(Greedy(candidates, available)) == allocations + Listed(Greedy(candidates[i..], remaining))
    {
      if remaining == 0 {
        NothingLeftListsNothing(candidates[i..]);
        return;
      }
      var amount := Min(remaining, candidates[i].balance.minor);
      ListedPrefix(allocations, Greedy(candidates[i..], remaining));
      assert candidates[i..][1..] == candidates[i + 1..];
      allocations := allocations + [(candidates[i].id, amount)];
      remaining := remaining - amount;
      i := i + 1;
    }
  }

  lemma OrderIsStrictWeak(strategy: Strategy)
    ensures StrictWeakOrder(Order(strategy))
  {
  }

  lemma StableSortKeeps(strategy: Strategy, eligible: seq<Contract>)
    ensures Sorted(Order(strategy), StableSort(Order(strategy), eligible))
    ensures multiset(StableSort(Order(strategy), eligible)) == multiset(eligible)
    ensures forall d | d in StableSort(Order(strategy), eligible) :: d in eligible
  {
    OrderIsStrictWeak(strategy);
    StableSortSorts(Order(strategy), eligible);
    forall d | d in StableSort(Order(strategy), eligible)
      ensures d in eligible
    {
      assert d in multiset(StableSort(Order(strategy), eligible));
    }
  }

  lemma {:induction false} EligibleOwes(debts: seq<Contract>)
    ensures forall d | d in Eligible(debts) :: Owing(d) && d in debts
  {
    if debts != [] {
      EligibleOwes(debts[1..]);
    }
  }
}
