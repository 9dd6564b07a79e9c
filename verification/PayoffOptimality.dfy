/** Why the greedy plan is the right one: no feasible allocation earns more rate, or clears more debts. */
module PayoffOptimality {
  import opened Integers
  import opened Money
  import opened Rounding
  import opened DebtContract
  import opened Sorting
  import opened PayoffPlan

  // ---------- allocations in general ----------

  function Debts(shares: seq<Share>): seq<Contract> {
    seq(|shares|, i requires 0 <= i < |shares| => shares[i].debt)
  }

  function Total(shares: seq<Share>): int {
    if shares == [] then 0 else shares[0].amount + Total(shares[1..])
  }

  ghost function StoppedInterest(): Share -> real {
    (s: Share) => s.amount as real * RateOf(s.debt)
  }

  /** The annual interest an allocation stops: the sum of amount times rate. */
  ghost function RateValue(shares: seq<Share>): real {
    SumBy(StoppedInterest(), shares)
  }

  function Cleared(shares: seq<Share>): nat {
    if shares == [] then 0
    else (if shares[0].amount == shares[0].debt.balance.minor then 1 else 0) + Cleared(shares[1..])
  }

  ghost predicate WithinBalances(shares: seq<Share>) {
    forall s | s in shares :: 0 <= s.amount <= s.debt.balance.minor
  }

  /** A competitor: any way, in any order, to spend at most `budget` on the eligible debts. */
  ghost predicate Feasible(shares: seq<Share>, debts: seq<Contract>, budget: int) {
    && multiset(Debts(shares)) == multiset(Eligible(debts))
    && WithinBalances(shares)
    && Total(shares) <= budget
  }

  ghost predicate AllPositive(candidates: seq<Contract>) {
    forall d | d in candidates :: d.balance.minor > 0
  }

  function BalanceSum(candidates: seq<Contract>): int {
    if candidates == [] then 0 else candidates[0].balance.minor + BalanceSum(candidates[1..])
  }

  /** The greedy shares are themselves a feasible allocation and hand out all there is to hand out. */
  lemma {:induction false} GreedySpendsEverything(candidates: seq<Contract>, budget: int)
    requires budget >= 0 && AllPositive(candidates)
    ensures Total(Greedy(candidates, budget)) == Min(budget, BalanceSum(candidates))
    ensures WithinBalances(Greedy(candidates, budget))
    ensures Debts(Greedy(candidates, budget)) == candidates
    ensures BalanceSum(candidates) >= 0
  {
    if candidates != [] {
      var amount := Min(budget, candidates[0].balance.minor);
      GreedySpendsEverything(candidates[1..], budget - amount);
      var rest := Greedy(candidates[1..], budget - amount);
      assert Debts([Share(candidates[0], amount)] + rest) == [candidates[0]] + Debts(rest);
    }
  }

  // ---------- the greedy argument, for any valuation ----------

  /** If no share is worth more than its price plus the surplus of its debt, no allocation is. */
  lemma {:induction false} PricesBoundValue(value: Share -> real, price: Share -> real, surplus: Contract -> real, shares: seq<Share>)
    requires forall s | s in shares :: value(s) <= price(s) + surplus(s.debt)
    ensures SumBy(value, shares) <= SumBy(price, shares) + SumBy(surplus, Debts(shares))
  {
    if shares != [] {
      PricesBoundValue(value, price, surplus, shares[1..]);
      assert Debts(shares)[1..] == Debts(shares[1..]);
    }
  }

  /** The greedy shares are worth the price of the whole budget plus every candidate's surplus. */
  ghost predicate MeetsPrices(value: Share -> real, scale: int -> real, surplus: Contract -> real, candidates: seq<Contract>, budget: int) {
    SumBy(value, Greedy(candidates, budget)) == scale(budget) + SumBy(surplus, candidates)
  }

  lemma {:induction false} FirstShareMeetsPrices(value: Share -> real, scale: int -> real, surplus: Contract -> real,
                                                 candidates: seq<Contract>, budget: int)
    requires candidates != []
    requires var amount := Min(budget, candidates[0].balance.minor);
      && value(Share(candidates[0], amount)) + scale(budget - amount) == scale(budget) + surplus(candidates[0])
      && MeetsPrices(value, scale, surplus, candidates[1..], budget - amount)
    ensures MeetsPrices(value, scale, surplus, candidates, budget)
  {
    var amount := Min(budget, candidates[0].balance.minor);
    var rest := Greedy(candidates[1..], budget - amount);
    assert Greedy(candidates, budget) == [Share(candidates[0], amount)] + rest;
    assert ([Share(candidates[0], amount)] + rest)[1..] == rest;
  }

  /** A candidate order in which greedy meets some prices that bound every feasible share is optimal. */
  lemma {:induction false} GreedyIsBest(value: Share -> real, price: Share -> real, scale: int -> real, surplus: Contract -> real,
                                        candidates: seq<Contract>, budget: int, shares: seq<Share>)
    requires SumBy(price, shares) <= scale(budget)
    requires forall s | s in shares :: value(s) <= price(s) + surplus(s.debt)
    requires multiset(Debts(shares)) == multiset(candidates)
    requires MeetsPrices(value, scale, surplus, candidates, budget)
    ensures SumBy(value, shares) <= SumBy(value, Greedy(candidates, budget))
  {
    PricesBoundValue(value, price, surplus, shares);
    SumByPermutation(surplus, Debts(shares), candidates);
  }

  // ---------- avalanche ----------

  /** The price of an amount at a marginal rate. */
  ghost function AtRate(margin: real): int -> real {
    (amount: int) => amount as real * margin
  }

  ghost function PriceAt(margin: real): Share -> real {
    (s: Share) => AtRate(margin)(s.amount)
  }

  /** What a whole balance earns above a marginal rate. */
  ghost function Surplus(margin: real): Contract -> real {
    (d: Contract) => if RateOf(d) > margin then d.balance.minor as real * (RateOf(d) - margin) else 0.0
  }

  lemma {:induction false} ScaleSum(a: int, b: int, x: real)
    ensures (a + b) as real * x == a as real * x + b as real * x
  {
  }

  lemma {:induction false} PriceOfTotal(shares: seq<Share>, margin: real)
    ensures SumBy(PriceAt(margin), shares) == AtRate(margin)(Total(shares))
  {
    if shares != [] {
      PriceOfTotal(shares[1..], margin);
      ScaleSum(shares[0].amount, Total(shares[1..]), margin);
    }
  }

  lemma {:induction false} AboveTheMargin(a: int, b: int, rate: real, margin: real)
    requires 0 <= a <= b && margin <= rate
    ensures a as real * rate <= a as real * margin + b as real * (rate - margin)
    ensures a == b ==> a as real * rate == a as real * margin + b as real * (rate - margin)
  {
    var gap := rate - margin;
    ScaleMonotone(a, b, gap);
    assert a as real * (margin + gap) == a as real * margin + a as real * gap;
  }

  lemma {:induction false} BelowTheMargin(a: int, rate: real, margin: real)
    requires 0 <= a && rate <= margin
    ensures a as real * rate <= a as real * margin
  {
    var gap := margin - rate;
    assert a as real * gap >= 0.0;
    assert a as real * (rate + gap) == a as real * rate + a as real * gap;
  }

  /** No share is worth more than its amount at the margin plus the surplus of its debt. */
  lemma {:induction false} ShareBound(s: Share, margin: real)
    requires 0 <= s.amount <= s.debt.balance.minor
    ensures StoppedInterest()(s) <= AtRate(margin)(s.amount) + Surplus(margin)(s.debt)
  {
    if RateOf(s.debt) > margin {
      AboveTheMargin(s.amount, s.debt.balance.minor, RateOf(s.debt), margin);
    } else {
      BelowTheMargin(s.amount, RateOf(s.debt), margin);
    }
  }

  /** A whole balance above the margin attains that bound; so does any share of the marginal debt itself. */
  lemma {:induction false} ShareAttains(d: Contract, amount: int, budget: int, margin: real)
    requires (amount == d.balance.minor && margin <= RateOf(d)) || (amount == budget && margin == RateOf(d))
    requires 0 <= amount <= d.balance.minor
    ensures StoppedInterest()(Share(d, amount)) + AtRate(margin)(budget - amount) == AtRate(margin)(budget) + Surplus(margin)(d)
  {
    ScaleSum(budget - amount, amount, margin);
    if margin < RateOf(d) {
      AboveTheMargin(amount, d.balance.minor, RateOf(d), margin);
    }
  }

  /** Positive balances by falling, non-negative rates. */
  predicate RankedByRate(candidates: seq<Contract>) {
    candidates == [] ||
    (&& candidates[0].balance.minor > 0 && RateOf(candidates[0]) >= 0.0
     && (|candidates| > 1 ==> RateOf(candidates[1]) <= RateOf(candidates[0]))
     && RankedByRate(candidates[1..]))
  }

  /** Below the marginal rate nothing has a surplus, and nothing is handed out any more. */
  lemma {:induction false} NothingLeftMeetsPrices(candidates: seq<Contract>, margin: real)
    requires RankedByRate(candidates) && (candidates != [] ==> RateOf(candidates[0]) <= margin)
    ensures MeetsPrices(StoppedInterest(), AtRate(margin), Surplus(margin), candidates, 0)
  {
    if candidates != [] {
      NothingLeftMeetsPrices(candidates[1..], margin);
      FirstShareMeetsPrices(StoppedInterest(), AtRate(margin), Surplus(margin), candidates, 0);
    }
  }

  /** With candidates by falling rate, greedy meets the prices at the rate of the marginal debt. */
  lemma {:induction false} RankedGreedyMeetsPrices(candidates: seq<Contract>, budget: int) returns (margin: real)
    requires budget >= 0 && RankedByRate(candidates)
    ensures 0.0 <= margin <= (if candidates == [] then 0.0 else RateOf(candidates[0]))
    ensures MeetsPrices(StoppedInterest(), AtRate(margin), Surplus(margin), candidates, budget)
  {
    if candidates == [] {
      margin := 0.0;
    } else {
      var amount := Min(budget, candidates[0].balance.minor);
      if budget >= candidates[0].balance.minor {
        margin := RankedGreedyMeetsPrices(candidates[1..], budget - amount);
      } else {
        margin := RateOf(candidates[0]);
        NothingLeftMeetsPrices(candidates[1..], margin);
      }
      ShareAttains(candidates[0], amount, budget, margin);
      FirstShareMeetsPrices(StoppedInterest(), AtRate(margin), Surplus(margin), candidates, budget);
    }
  }

  lemma {:induction false} RankedTail(strategy: Strategy, candidates: seq<Contract>)
    requires candidates != [] && Sorted(Order(strategy), candidates)
    ensures Sorted(Order(strategy), candidates[1..])
    ensures strategy.Avalanche? ==> forall d | d in candidates :: RateOf(d) <= RateOf(candidates[0])
    ensures strategy.Snowball? ==> forall d | d in candidates :: d.balance.minor >= candidates[0].balance.minor
  {
    forall d | d in candidates
      ensures strategy.Avalanche? ==> RateOf(d) <= RateOf(candidates[0])
      ensures strategy.Snowball? ==> d.balance.minor >= candidates[0].balance.minor
    {
      var i :| 0 <= i < |candidates| && candidates[i] == d;
      assert i > 0 ==> !Order(strategy)(candidates[i], candidates[0]);
    }
  }

  lemma {:induction false} CandidateFacts(strategy: Strategy, debts: seq<Contract>)
    ensures Sorted(Order(strategy), Candidates(strategy, debts))
    ensures multiset(Candidates(strategy, debts)) == multiset(Eligible(debts))
    ensures AllPositive(Candidates(strategy, debts))
    ensures forall d | d in Candidates(strategy, debts) :: Owing(d) && d in debts
  {
    StableSortKeeps(strategy, Eligible(debts));
    EligibleOwes(debts);
  }

  /** Every plan hands out exactly the smaller of what is available and what is owed. */
  lemma {:induction false} PlanSpendsEverything(strategy: Strategy, debts: seq<Contract>, budget: int)
    requires budget >= 0
    ensures Total(Greedy(Candidates(strategy, debts), budget)) == Min(budget, BalanceSum(Candidates(strategy, debts)))
    ensures Feasible(Greedy(Candidates(strategy, debts), budget), debts, budget)
  {
    CandidateFacts(strategy, debts);
    GreedySpendsEverything(Candidates(strategy, debts), budget);
  }

  function ListedSum(listed: seq<(Int64, int)>): int {
    if listed == [] then 0 else listed[0].1 + ListedSum(listed[1..])
  }

  lemma {:induction false} ListingKeepsTotal(shares: seq<Share>)
    requires WithinBalances(shares)
    ensures ListedSum(Listed(shares)) == Total(shares)
  {
    if shares != [] {
      assert shares[0] in shares;
      ListingKeepsTotal(shares[1..]);
      if shares[0].amount > 0 {
        var first := (shares[0].debt.id, shares[0].amount);
        assert ([first] + Listed(shares[1..]))[1..] == Listed(shares[1..]);
      } else {
        assert Listed(shares) == Listed(shares[1..]);
      }
    }
  }

  ghost function BalanceOf(): Contract -> real {
    (d: Contract) => d.balance.minor as real
  }

  lemma {:induction false} BalanceSumIsASum(s: seq<Contract>)
    ensures BalanceSum(s) as real == SumBy(BalanceOf(), s)
  {
    if s != [] {
      BalanceSumIsASum(s[1..]);
    }
  }

  /** The amounts a plan lists add up to the smaller of what is available and what the owing debts owe together. */
  lemma PlanListsExactlyTheBudget(strategy: Strategy, debts: seq<Contract>, budget: int)
    requires budget >= 0
    ensures ListedSum(Listed(Greedy(Candidates(strategy, debts), budget))) == Min(budget, BalanceSum(Eligible(debts)))
  {
    CandidateFacts(strategy, debts);
    GreedySpendsEverything(Candidates(strategy, debts), budget);
    ListingKeepsTotal(Greedy(Candidates(strategy, debts), budget));
    BalanceSumIsASum(Candidates(strategy, debts));
    BalanceSumIsASum(Eligible(debts));
    SumByPermutation(BalanceOf(), Candidates(strategy, debts), Eligible(debts));
  }

  lemma {:induction false} NoComplaintMeansRates(strategy: Strategy, currency: string, debts: seq<Contract>)
    requires strategy.Avalanche? && FirstComplaint(strategy, currency, debts).None?
    ensures forall d | d in debts && Owing(d) :: RateOf(d) >= 0.0
  {
    if debts != [] {
      NoComplaintMeansRates(strategy, currency, debts[1..]);
    }
  }

  lemma {:induction false} CandidatesAreRanked(candidates: seq<Contract>)
    requires Sorted(Order(Avalanche), candidates) && AllPositive(candidates)
    requires forall d | d in candidates :: RateOf(d) >= 0.0
    ensures RankedByRate(candidates)
  {
    if candidates != [] {
      RankedTail(Avalanche, candidates);
      CandidatesAreRanked(candidates[1..]);
      assert |candidates| > 1 ==> candidates[1] in candidates;
    }
  }

  lemma {:induction false} PriceWithinBudget(shares: seq<Share>, budget: int, margin: real)
    requires Total(shares) <= budget && margin >= 0.0
    ensures SumBy(PriceAt(margin), shares) <= AtRate(margin)(budget)
  {
    PriceOfTotal(shares, margin);
    ScaleMonotone(Total(shares), budget, margin);
  }

  lemma {:induction false} SharesBounded(shares: seq<Share>, margin: real)
    requires WithinBalances(shares)
    ensures forall s | s in shares :: StoppedInterest()(s) <= PriceAt(margin)(s) + Surplus(margin)(s.debt)
  {
    forall s | s in shares
      ensures StoppedInterest()(s) <= PriceAt(margin)(s) + Surplus(margin)(s.debt)
    {
      ShareBound(s, margin);
    }
  }

  lemma {:induction false} RankedGreedyIsBest(candidates: seq<Contract>, budget: int, shares: seq<Share>)
    requires budget >= 0 && RankedByRate(candidates)
    requires multiset(Debts(shares)) == multiset(candidates) && WithinBalances(shares) && Total(shares) <= budget
    ensures RateValue(shares) <= RateValue(Greedy(candidates, budget))
  {
    var margin := RankedGreedyMeetsPrices(candidates, budget);
    PriceWithinBudget(shares, budget, margin);
    SharesBounded(shares, margin);
    GreedyIsBest(StoppedInterest(), PriceAt(margin), AtRate(margin), Surplus(margin), candidates, budget, shares);
  }

  /** The avalanche plan stops the most interest: no feasible allocation has a larger sum of amount times rate. */
  lemma {:induction false} AvalancheMaximisesRate(debts: seq<Contract>, currency: string, budget: int, shares: seq<Share>)
    requires budget >= 0 && FirstComplaint(Avalanche, currency, debts).None?
    requires Feasible(shares, debts, budget)
    ensures RateValue(shares) <= RateValue(Greedy(Candidates(Avalanche, debts), budget))
  {
    CandidateFacts(Avalanche, debts);
    NoComplaintMeansRates(Avalanche, currency, debts);
    CandidatesAreRanked(Candidates(Avalanche, debts));
    RankedGreedyIsBest(Candidates(Avalanche, debts), budget, shares);
  }

  // ---------- snowball ----------

  /** What a debt's balance falls short of a threshold by. */
  ghost function Slack(threshold: int): Contract -> real {
    (d: Contract) => if d.balance.minor < threshold then (threshold - d.balance.minor) as real else 0.0
  }

  lemma OneMore(c: int, threshold: int)
    ensures (c + 1) * threshold == c * threshold + threshold
  {
  }

  /** Clearing m debts costs at least m thresholds minus every debt's slack. */
  lemma {:induction false} ClearedBound(shares: seq<Share>, threshold: int)
    requires WithinBalances(shares)
    ensures (Cleared(shares) * threshold) as real <= Total(shares) as real + SumBy(Slack(threshold), Debts(shares))
  {
    if shares != [] {
      ClearedBound(shares[1..], threshold);
      OneMore(Cleared(shares[1..]), threshold);
      assert Debts(shares)[1..] == Debts(shares[1..]);
      assert Slack(threshold)(shares[0].debt) >= (threshold - shares[0].debt.balance.minor) as real;
    }
  }

  lemma {:induction false} NoSlackBelow(candidates: seq<Contract>, threshold: int)
    requires forall d | d in candidates :: threshold <= d.balance.minor
    ensures SumBy(Slack(threshold), candidates) == 0.0
  {
    if candidates != [] {
      NoSlackBelow(candidates[1..], threshold);
    }
  }

  lemma {:induction false} NothingLeftClearsNothing(candidates: seq<Contract>)
    requires AllPositive(candidates)
    ensures Cleared(Greedy(candidates, 0)) == 0
  {
    if candidates != [] {
      NothingLeftClearsNothing(candidates[1..]);
    }
  }

  /** With candidates by rising balance, the greedy shares clear everything, or one more at the balance of the
      first debt left uncleared would cost more than there is. */
  lemma {:induction false} GreedyClears(candidates: seq<Contract>, budget: int) returns (threshold: int)
    requires budget >= 0 && AllPositive(candidates)
    requires Sorted(Order(Snowball), candidates)
    ensures threshold > 0
    ensures var cleared := Cleared(Greedy(candidates, budget));
      || cleared == |candidates|
      || (&& threshold >= candidates[0].balance.minor
          && ((cleared + 1) * threshold) as real > budget as real + SumBy(Slack(threshold), candidates))
  {
    if candidates == [] {
      threshold := 1;
    } else {
      var d, rest := candidates[0], candidates[1..];
      RankedTail(Snowball, candidates);
      if budget >= d.balance.minor {
        threshold := GreedyClears(rest, budget - d.balance.minor);
        if Cleared(Greedy(rest, budget - d.balance.minor)) != |rest| {
          assert rest[0] in candidates;
          var c := Cleared(Greedy(rest, budget - d.balance.minor));
          OneMore(c + 1, threshold);
        }
      } else {
        threshold := d.balance.minor;
        NoSlackBelow(candidates, threshold);
        NothingLeftClearsNothing(rest);
      }
    }
  }

  lemma {:induction false} ClearedAtMostAll(shares: seq<Share>)
    ensures Cleared(shares) <= |shares|
  {
    if shares != [] {
      ClearedAtMostAll(shares[1..]);
    }
  }

  lemma MultiplesGrow(a: int, b: int, threshold: int)
    requires a <= b && threshold > 0
    ensures a * threshold <= b * threshold
  {
    assert (b - a) * threshold >= 0;
  }

  lemma {:induction false} NoMoreThanCleared(m: int, c: int, n: int, threshold: int, budget: int, total: int, slack: real)
    requires m <= n && threshold > 0 && total <= budget
    requires (m * threshold) as real <= total as real + slack
    requires c == n || ((c + 1) * threshold) as real > budget as real + slack
    ensures m <= c
  {
    if m > c {
      MultiplesGrow(c + 1, m, threshold);
    }
  }

  /** The snowball plan clears the most debts: no feasible allocation pays more of them in full. */
  lemma {:induction false} SnowballMaximisesCleared(debts: seq<Contract>, budget: int, shares: seq<Share>)
    requires budget >= 0 && Feasible(shares, debts, budget)
    ensures Cleared(shares) <= Cleared(Greedy(Candidates(Snowball, debts), budget))
  {
    var candidates := Candidates(Snowball, debts);
    CandidateFacts(Snowball, debts);
    var threshold := GreedyClears(candidates, budget);
    ClearedBound(shares, threshold);
    SumByPermutation(Slack(threshold), Debts(shares), candidates);
    ClearedAtMostAll(shares);
    assert |shares| == |multiset(Debts(shares))| == |multiset(candidates)| == |candidates|;
    NoMoreThanCleared(Cleared(shares), Cleared(Greedy(candidates, budget)), |candidates|, threshold, budget,
                      Total(shares), SumBy(Slack(threshold), candidates));
  }

  // ---------- input order ----------

  ghost predicate DistinctIds(debts: seq<Contract>) {
    forall i, j | 0 <= i < j < |debts| :: debts[i].id != debts[j].id
  }

  lemma {:induction false} DistinctIdsFilter(debts: seq<Contract>)
    requires DistinctIds(debts)
    ensures DistinctIds(Eligible(debts))
  {
    if debts != [] {
      DistinctIdsFilter(debts[1..]);
      EligibleOwes(debts[1..]);
      forall d | d in Eligible(debts[1..])
        ensures d.id != debts[0].id
      {
        assert d in debts[1..];
      }
    }
  }

  lemma {:induction false} DistinctIdsOccurOnce(s: seq<Contract>, x: Contract)
    requires DistinctIds(s)
    ensures multiset(s)[x] <= 1
  {
    if s != [] {
      assert s == [s[0]] + s[1..];
      DistinctIdsOccurOnce(s[1..], x);
      if x == s[0] {
        assert x !in s[1..];
      }
    }
  }

  lemma {:induction false} TwoPlacesCountTwice(t: seq<Contract>, i: nat, j: nat)
    requires i < j < |t| && t[i] == t[j]
    ensures multiset(t)[t[i]] >= 2
  {
    assert t == t[..i] + [t[i]] + t[i + 1..j] + [t[j]] + t[j + 1..];
  }

  lemma {:induction false} DistinctIdsOfMultiset(s: seq<Contract>, t: seq<Contract>)
    requires DistinctIds(s) && multiset(s) == multiset(t)
    ensures DistinctIds(t)
  {
    forall i, j | 0 <= i < j < |t|
      ensures t[i].id != t[j].id
    {
      if t[i] == t[j] {
        TwoPlacesCountTwice(t, i, j);
        DistinctIdsOccurOnce(s, t[i]);
      } else {
        assert t[i] in multiset(t) && t[j] in multiset(t);
        var k := SamePosition(s, t[i]);
        var l := SamePosition(s, t[j]);
      }
    }
  }

  lemma EligibleMultiset(debts: seq<Contract>, other: seq<Contract>)
    requires multiset(debts) == multiset(other)
    ensures multiset(Eligible(debts)) == multiset(Eligible(other))
  {
    FilterPermutation((d: Contract) => Owing(d), debts, other);
  }

  lemma DistinctCandidatesDoNotTie(strategy: Strategy, s: seq<Contract>)
    requires DistinctIds(s)
    ensures NoTies(Order(strategy), s)
  {
  }

  /** With distinct debt ids the plan does not depend on the order the debts are listed in. */
  lemma PlanIgnoresInputOrder(strategy: Strategy, debts: seq<Contract>, other: seq<Contract>)
    requires DistinctIds(debts) && multiset(debts) == multiset(other)
    ensures Candidates(strategy, debts) == Candidates(strategy, other)
  {
    var less, s, t := Order(strategy), Candidates(strategy, debts), Candidates(strategy, other);
    assert StrictWeakOrder(less) by {
      OrderIsStrictWeak(strategy);
    }
    assert Sorted(less, s) && multiset(s) == multiset(Eligible(debts)) by {
      StableSortSorts(less, Eligible(debts));
    }
    assert Sorted(less, t) && multiset(t) == multiset(Eligible(other)) by {
      StableSortSorts(less, Eligible(other));
    }
    assert NoTies(less, s) by {
      DistinctIdsFilter(debts);
      DistinctIdsOfMultiset(Eligible(debts), s);
      DistinctCandidatesDoNotTie(strategy, s);
    }
    EligibleMultiset(debts, other);
    SortedIsUnique(less, s, t);
  }
}
