/** The order in which goals are served, field by field. */
module GoalOrder {
  import opened Money
  import opened Residuals
  import opened Sorting
  import opened Goals

  /** Not after: by year and month together, then by day, then by the time of day. */
  predicate NotAfter(a: Date, b: Date) {
    || 12 * a.year + a.month < 12 * b.year + b.month
    || (12 * a.year + a.month == 12 * b.year + b.month && a.day < b.day)
    || (12 * a.year + a.month == 12 * b.year + b.month && a.day == b.day && a.clock <= b.clock)
  }

  predicate SameMoment(a: Date, b: Date) {
    12 * a.year + a.month == 12 * b.year + b.month && a.day == b.day && a.clock == b.clock
  }

  /** Less important never comes first, nor a later target among equals, nor a larger id among those. */
  predicate InOrder(a: Goal, b: Goal) {
    && a.priority <= b.priority
    && (a.priority == b.priority ==> NotAfter(a.targetDate, b.targetDate))
    && (a.priority == b.priority && SameMoment(a.targetDate, b.targetDate) ==> a.id <= b.id)
  }

  function GoalsOf(items: seq<Item>): seq<Goal> {
    seq(|items|, i requires 0 <= i < |items| => items[i].goal)
  }

  lemma {:induction false} ItemsAreTheGoals(goals: seq<Goal>, asOf: Date, available: Money)
    requires Share(goals, asOf, available).Ok?
    ensures GoalsOf(Share(goals, asOf, available).value) == goals
  {
    if goals != [] {
      var p := ProjectGoal(goals[0], asOf, available).value;
      var left := ResidualCommitment(available, p.required).value;
      ItemsAreTheGoals(goals[1..], asOf, left);
      var items := Share(goals, asOf, available).value;
      assert items == [Item(goals[0], p)] + Share(goals[1..], asOf, left).value;
      assert forall i | 0 < i < |items| :: items[i].goal == GoalsOf(items[1..])[i - 1];
    }
  }

  lemma RankedInOrder(a: Goal, b: Goal)
    requires !GoesFirst(b, a)
    ensures InOrder(a, b)
  {
  }

  /** The items of a successful projection are the goals, each once, the most important first. */
  lemma GoalsAreServedInOrder(goals: seq<Goal>, netCashflow: Money, asOf: Date)
    requires Share(StableSort(Ranking(), goals), asOf, Capacity(netCashflow)).Ok?
    ensures var items := Share(StableSort(Ranking(), goals), asOf, Capacity(netCashflow)).value;
      && multiset(GoalsOf(items)) == multiset(goals)
      && forall i, j | 0 <= i < j < |items| :: InOrder(items[i].goal, items[j].goal)
  {
    var sorted := StableSort(Ranking(), goals);
    var items := Share(sorted, asOf, Capacity(netCashflow)).value;
    GoalsComeSorted(goals);
    ItemsAreTheGoals(sorted, asOf, Capacity(netCashflow));
    forall i, j | 0 <= i < j < |items|
      ensures InOrder(items[i].goal, items[j].goal)
    {
      assert GoalsOf(items)[i] == sorted[i] && GoalsOf(items)[j] == sorted[j];
      assert !Ranking()(sorted[j], sorted[i]);
      RankedInOrder(sorted[i], sorted[j]);
    }
  }
}
