/** When goals can be projected at all, and what is shared over them, field by field. */
module GoalFields {
  import opened Results
  import opened Money
  import opened Integers
  import opened Residuals
  import opened Sorting
  import opened Goals

  predicate InOneCurrency(g: Goal) {
    g.target.currency != "" && g.funded.currency == g.target.currency && g.monthlyContribution.currency == g.target.currency
  }

  predicate NothingNegative(g: Goal) {
    g.target.minor >= 0 && g.funded.minor >= 0 && g.monthlyContribution.minor >= 0
  }

  /** Still to be saved for, with time left to do it. */
  predicate StillOpen(g: Goal, asOf: Date) {
    g.target.minor > g.funded.minor && asOf.Before(g.targetDate)
  }

  /** What the planned contributions make of the goal by its date is a 64-bit amount. */
  predicate OutcomeFits(g: Goal, asOf: Date) {
    StillOpen(g, asOf) ==> g.funded.minor + g.monthlyContribution.minor * CalendarMonthsRemaining(asOf, g.targetDate) <= MAX_INT64
  }

  /** A goal is refused for its currency first, then for a negative amount, then for another currency than that of the
      capacity, and only then for arithmetic, which a capacity that is not negative leaves to the planned contributions. */
  lemma {:induction false} RefusedExactly(g: Goal, asOf: Date, available: Money)
    ensures var r := ProjectGoal(g, asOf, available);
      && (r == Err(GoalMoney(CurrencyMismatch))
          <==> !InOneCurrency(g) || (NothingNegative(g) && available.currency != g.target.currency))
      && (r == Err(InvalidGoal) <==> InOneCurrency(g) && !NothingNegative(g))
      && (available.minor >= 0 ==>
            (r.Ok? <==> InOneCurrency(g) && NothingNegative(g) && available.currency == g.target.currency && OutcomeFits(g, asOf)))
  {
    MonthsRemainingIsLeast(asOf, g.targetDate, 1);
    var months, gap := CalendarMonthsRemaining(asOf, g.targetDate), g.target.minor - g.funded.minor;
    if gap > 0 && months > 0 && NothingNegative(g) {
      RequiredIsLeast(gap, months);
      if g.monthlyContribution.minor > 0 {
        DivisionGuard(g.monthlyContribution.minor, months);
      }
    }
  }

  predicate Plannable(g: Goal, asOf: Date, currency: string) {
    InOneCurrency(g) && NothingNegative(g) && g.target.currency == currency && OutcomeFits(g, asOf)
  }

  lemma {:induction false} SharedIff(goals: seq<Goal>, asOf: Date, available: Money)
    requires available.minor >= 0
    ensures Share(goals, asOf, available).Ok? <==> forall g | g in goals :: Plannable(g, asOf, available.currency)
  {
    if goals != [] {
      RefusedExactly(goals[0], asOf, available);
      assert forall g :: g in goals <==> g == goals[0] || g in goals[1..];
      if Plannable(goals[0], asOf, available.currency) {
        var p := ProjectGoal(goals[0], asOf, available).value;
        ProjectionIsHonest(goals[0], asOf, available);
        assert p.required.currency == available.currency;
        SharedIff(goals[1..], asOf, ResidualCommitment(available, p.required).value);
      }
    }
  }

  lemma SharedInAnyOrder(ordered: seq<Goal>, goals: seq<Goal>, asOf: Date, available: Money)
    requires available.minor >= 0 && multiset(ordered) == multiset(goals)
    ensures Share(ordered, asOf, available).Ok? <==> forall g | g in goals :: Plannable(g, asOf, available.currency)
  {
    forall g
      ensures g in ordered <==> g in goals
    {
      assert g in ordered <==> g in multiset(ordered);
      assert g in goals <==> g in multiset(goals);
    }
    SharedIff(ordered, asOf, available);
  }

  /** Goals are projected exactly if each of them can be. */
  lemma GoalsAreProjectedIff(goals: seq<Goal>, netCashflow: Money, asOf: Date)
    ensures Share(StableSort(Ranking(), goals), asOf, Capacity(netCashflow)).Ok?
            <==> forall g | g in goals :: Plannable(g, asOf, netCashflow.currency)
  {
    GoalsComeSorted(goals);
    SharedInAnyOrder(StableSort(Ranking(), goals), goals, asOf, Capacity(netCashflow));
  }

  /** They share the positive part of the net cashflow: what they require beyond it is the total shortfall. */
  lemma GoalsShareTheCashflow(goals: seq<Goal>, netCashflow: Money, asOf: Date)
    requires Share(StableSort(Ranking(), goals), asOf, Capacity(netCashflow)).Ok?
    ensures var items := Share(StableSort(Ranking(), goals), asOf, Capacity(netCashflow)).value;
      ShortfallSum(items) == Max(RequiredSum(items) - Max(netCashflow.minor, 0), 0)
  {
    SharingCapacity(StableSort(Ranking(), goals), asOf, Capacity(netCashflow));
  }
}
