/** Goal projections and the waterfall that shares monthly capacity over goals in priority order. */
module Goals {
  import opened Results
  import opened Money
  import opened Integers
  import opened Residuals
  import opened Sorting

  // ---------- calendar ----------

  /** An instant with its civil date. Later civil dates are later instants; `clock` orders instants within a day. */
  datatype Date = Date(year: int, month: int, day: int, clock: int) {
    function MonthIndex(): int {
      12 * year + month
    }

    predicate Before(other: Date) {
      if MonthIndex() != other.MonthIndex() then MonthIndex() < other.MonthIndex()
      else if day != other.day then day < other.day
      else clock < other.clock
    }
  }

  function CalendarMonthsRemaining(asOf: Date, target: Date): nat {
    if !asOf.Before(target) then 0
    else
      var months := (target.year - asOf.year) * 12 + (target.month - asOf.month);
      var rounded := if target.day > asOf.day then months + 1 else months;
      if rounded < 1 then 1 else rounded
  }

  /** The day number `asOf.day`, `months` months later, is not before the target's day. */
  predicate ReachesDay(asOf: Date, months: int, target: Date) {
    asOf.MonthIndex() + months > target.MonthIndex()
    || (asOf.MonthIndex() + months == target.MonthIndex() && asOf.day >= target.day)
  }

  /** The count is zero exactly for targets not in the future, and otherwise the least positive number of months
      after which the same day of the month has reached the target day. */
  lemma MonthsRemainingIsLeast(asOf: Date, target: Date, months: int)
    ensures CalendarMonthsRemaining(asOf, target) == 0 <==> !asOf.Before(target)
    ensures asOf.Before(target) && months >= 1 ==>
              (ReachesDay(asOf, months, target) <==> months >= CalendarMonthsRemaining(asOf, target))
  {
  }

  // ---------- one goal ----------

  datatype Status = Completed | OnTrack | Behind | Conflicting | Infeasible

  datatype Goal = Goal(id: int, target: Money, funded: Money, targetDate: Date, priority: int, monthlyContribution: Money)

  datatype Projection = Projection(
    months: nat, required: Money, projectedFunded: Money, gapAtTarget: Money, shortfall: Money, status: Status)

  datatype GoalError = InvalidGoal | GoalMoney(error: MoneyError)

  /** The facts the source checks before projecting; names, priorities and date presence are taken as checked. */
  function ValidateGoal(g: Goal): Option<GoalError> {
    if g.target.currency == "" || g.funded.currency != g.target.currency || g.monthlyContribution.currency != g.target.currency then
      Some(GoalMoney(CurrencyMismatch))
    else if g.target.minor < 0 || g.funded.minor < 0 || g.monthlyContribution.minor < 0 then Some(InvalidGoal)
    else None
  }

  function MultiplyMoney(value: Money, count: nat): Result<Money, GoalError>
    requires value.minor >= 0
  {
    if count == 0 || value.minor == 0 then Ok(Zero(value.currency))
    else if count > MAX_INT64 / value.minor then Err(GoalMoney(Overflow))
    else
      DivisionGuard(value.minor, count);
      Ok(value.(minor := value.minor * count))
  }

  /** The division guard is exact: the count passes just when the product stays in the 64-bit range. */
  lemma {:induction false} DivisionGuard(v: int, count: nat)
    requires 0 < v
    ensures count <= MAX_INT64 / v <==> v * count <= MAX_INT64
    ensures v * count >= 0
  {
    var q := MAX_INT64 / v;
    assert MAX_INT64 == q * v + MAX_INT64 % v;
    assert (q + 1) * v == q * v + v;
    if count > q {
      MulMonotone(q + 1, count, v);
    } else {
      MulMonotone(count, q, v);
    }
  }

  lemma {:induction false} MulMonotone(a: int, b: int, c: int)
    requires a <= b && c >= 0
    ensures a * c <= b * c
  {
    assert (b - a) * c >= 0;
  }

  function ProjectGoal(g: Goal, asOf: Date, available: Money): Result<Projection, GoalError> {
    match ValidateGoal(g)
    case Some(e) => Err(e)
    case None =>
      if available.currency != g.target.currency then Err(GoalMoney(CurrencyMismatch))
      else
        var zero, months := Zero(g.target.currency), CalendarMonthsRemaining(asOf, g.targetDate);
        match Sub(g.target, g.funded)
        case Err(e) => Err(GoalMoney(e))
        case Ok(gap) =>
          if gap.minor <= 0 then Ok(Projection(months, zero, g.funded, zero, zero, Completed))
          else if months == 0 then Ok(Projection(0, zero, g.funded, gap, zero, Infeasible))
          else ProjectOpenGoal(g, months, gap, available)
  }

  function RequiredMinor(gap: int, months: nat): int
    requires gap > 0 && months > 0
  {
    gap / months + (if gap % months != 0 then 1 else 0)
  }

  function ProjectOpenGoal(g: Goal, months: nat, gap: Money, available: Money): Result<Projection, GoalError>
    requires gap.minor > 0 && months > 0 && g.monthlyContribution.minor >= 0
  {
    RequiredIsLeast(gap.minor, months);
    var zero, required := Zero(g.target.currency), Money(RequiredMinor(gap.minor, months), g.target.currency);
    match MultiplyMoney(g.monthlyContribution, months)
    case Err(e) => Err(e)
    case Ok(contributions) =>
      match Add(g.funded, contributions)
      case Err(e) => Err(GoalMoney(e))
      case Ok(projected) =>
        match Sub(g.target, projected)
        case Err(e) => Err(GoalMoney(e))
        case Ok(left) =>
          var open := Projection(months, required, projected, if left.minor < 0 then zero else left, zero, Behind);
          if available.minor < required.minor then
            (match Sub(required, available)
             case Err(e) => Err(GoalMoney(e))
             case Ok(s) => Ok(open.(shortfall := s, status := Conflicting)))
          else if g.monthlyContribution.minor >= required.minor then Ok(open.(status := OnTrack))
          else Ok(open)
  }

  lemma {:induction false} RequiredIsLeast(gap: int, months: nat)
    requires gap > 0 && months > 0
    ensures RequiredMinor(gap, months) * months >= gap > (RequiredMinor(gap, months) - 1) * months
    ensures 1 <= RequiredMinor(gap, months) <= gap
  {
    var q, r := gap / months, gap % months;
    assert gap == q * months + r;
    assert (q + 1) * months == q * months + months;
    assert (q - 1) * months == q * months - months;
    if q >= 1 { MulMonotone(1, months, q); }
  }

  /** Required amount, shortfall and status agree with each other and with the capacity on offer. */
  predicate Fair(available: int, p: Projection) {
    && p.required.minor >= 0
    && p.shortfall.minor == (if p.required.minor > available then p.required.minor - available else 0)
    && (p.status.Conflicting? <==> p.required.minor > available)
    && (p.status.OnTrack? ==> p.gapAtTarget.minor == 0)
    && (p.status.Behind? ==> p.gapAtTarget.minor > 0)
  }

  /** What a projection promises: the required contribution is the least that meets the target by its date, and
      the status tells whether the planned contribution does. */
  ghost predicate Honest(g: Goal, available: int, p: Projection) {
    var gap := g.target.minor - g.funded.minor;
    && Fair(available, p)
    && p.gapAtTarget.minor == (if g.target.minor > p.projectedFunded.minor then g.target.minor - p.projectedFunded.minor else 0)
    && (p.status.Completed? <==> gap <= 0)
    && (p.status.Infeasible? <==> gap > 0 && p.months == 0)
    && (p.status.Completed? || p.status.Infeasible? ==> p.required.minor == 0 && p.projectedFunded == g.funded)
    && (gap > 0 && p.months > 0 ==>
          && p.required.minor * p.months >= gap > (p.required.minor - 1) * p.months
          && p.projectedFunded.minor == g.funded.minor + g.monthlyContribution.minor * p.months)
  }

  lemma {:induction false} ProjectionIsHonest(g: Goal, asOf: Date, available: Money)
    requires available.minor >= 0
    requires ProjectGoal(g, asOf, available).Ok?
    ensures Honest(g, available.minor, ProjectGoal(g, asOf, available).value)
    ensures ProjectGoal(g, asOf, available).value.months == CalendarMonthsRemaining(asOf, g.targetDate)
  {
    MonthsRemainingIsLeast(asOf, g.targetDate, 1);
    var months := CalendarMonthsRemaining(asOf, g.targetDate);
    var gap := g.target.minor - g.funded.minor;
    if gap > 0 && months > 0 {
      RequiredIsLeast(gap, months);
      var required, c := RequiredMinor(gap, months), g.monthlyContribution.minor;
      if c >= required { MulMonotone(required, c, months); } else { MulMonotone(c, required - 1, months); }
    }
  }

  // ---------- the waterfall ----------

  predicate GoesFirst(a: Goal, b: Goal) {
    if a.priority != b.priority then a.priority < b.priority
    else if a.targetDate.Before(b.targetDate) || b.targetDate.Before(a.targetDate) then a.targetDate.Before(b.targetDate)
    else a.id < b.id
  }

  function Ranking(): (Goal, Goal) -> bool {
    (a: Goal, b: Goal) => GoesFirst(a, b)
  }

  datatype Item = Item(goal: Goal, projection: Projection)

  /** Each goal in turn is projected against what is left, then takes its requirement out of it. */
  function Share(goals: seq<Goal>, asOf: Date, available: Money): Result<seq<Item>, GoalError> {
    if goals == [] then Ok([])
    else match ProjectGoal(goals[0], asOf, available)
      case Err(e) => Err(e)
      case Ok(p) =>
        match ResidualCommitment(available, p.required)
        case Err(e) => Err(GoalMoney(e))
        case Ok(left) =>
          match Share(goals[1..], asOf, left)
          case Err(e) => Err(e)
          case Ok(rest) => Ok([Item(goals[0], p)] + rest)
  }

  function Capacity(netCashflow: Money): Money {
    netCashflow.(minor := if netCashflow.minor < 0 then 0 else netCashflow.minor)
  }

  function Before(items: seq<Item>, rest: Result<seq<Item>, GoalError>): Result<seq<Item>, GoalError> {
    match rest
    case Err(e) => Err(e)
    case Ok(tail) => Ok(items + tail)
  }

  /** The source's loop over the sorted goals; `available` shrinks as goals take their requirement. */
  method ProjectGoals(goals: seq<Goal>, netCashflow: Money, asOf: Date) returns (r: Result<seq<Item>, GoalError>)
    ensures r == Share(StableSort(Ranking(), goals), asOf, Capacity(netCashflow))
  {
    var available := Capacity(netCashflow);
    var ordered := StableSort(Ranking(), goals);
    var items: seq<Item> := [];
    var k := 0;
    assert forall tail: seq<Item> :: [] + tail == tail;
    while k < |ordered|
      invariant 0 <= k <= |ordered|
      invariant Share(ordered, asOf, Capacity(netCashflow)) == Before(items, Share(ordered[k..], asOf, available))
    {
      assert ordered[k..][1..] == ordered[k + 1..];
      var p := ProjectGoal(ordered[k], asOf, available);
      if p.Err? {
        return Err(p.error);
      }
      var left := ResidualCommitment(available, p.value.required);
      if left.Err? {
        return Err(GoalMoney(left.error));
      }
      var item := Item(ordered[k], p.value);
      assert forall tail: seq<Item> :: items + ([item] + tail) == (items + [item]) + tail;
      items, available, k := items + [item], left.value, k + 1;
    }
    assert items + [] == items;
    r := Ok(items);
  }

  function RequiredSum(items: seq<Item>): int {
    if items == [] then 0 else items[0].projection.required.minor + RequiredSum(items[1..])
  }

  function ShortfallSum(items: seq<Item>): int {
    if items == [] then 0 else items[0].projection.shortfall.minor + ShortfallSum(items[1..])
  }

  /** Every projection is fair against what the goals before it left over of `available`. */
  ghost predicate Shared(items: seq<Item>, goals: seq<Goal>, available: int)
    decreases |items|
  {
    if items == [] then goals == []
    else
      && goals != [] && items[0].goal == goals[0]
      && Fair(available, items[0].projection)
      && Shared(items[1..], goals[1..], Max(available - items[0].projection.required.minor, 0))
  }

  lemma {:induction false} ShareIsShared(goals: seq<Goal>, asOf: Date, available: Money)
    requires available.minor >= 0 && Share(goals, asOf, available).Ok?
    ensures Shared(Share(goals, asOf, available).value, goals, available.minor)
  {
    if goals != [] {
      var p := ProjectGoal(goals[0], asOf, available).value;
      ProjectionIsHonest(goals[0], asOf, available);
      var left := ResidualCommitment(available, p.required).value;
      ShareIsShared(goals[1..], asOf, left);
      var rest := Share(goals[1..], asOf, left).value;
      assert ([Item(goals[0], p)] + rest)[1..] == rest;
    }
  }

  /** The shortfalls add up to what the requirements exceed the capacity by. */
  lemma {:induction false} ShortfallsAddUp(items: seq<Item>, goals: seq<Goal>, available: int)
    requires available >= 0 && Shared(items, goals, available)
    ensures |items| == |goals| && RequiredSum(items) >= 0
    ensures ShortfallSum(items) == Max(RequiredSum(items) - available, 0)
    decreases |items|
  {
    if items != [] {
      ShortfallsAddUp(items[1..], goals[1..], Max(available - items[0].projection.required.minor, 0));
    }
  }

  lemma {:induction false} PrefixRequirement(items: seq<Item>, goals: seq<Goal>, available: int, i: nat)
    requires Shared(items, goals, available) && i <= |items|
    ensures RequiredSum(items[..i]) >= 0
    ensures i > 0 ==> RequiredSum(items[..i]) == items[0].projection.required.minor + RequiredSum(items[1..][..i - 1])
    decreases |items|
  {
    if i > 0 {
      assert items[..i][1..] == items[1..][..i - 1];
      PrefixRequirement(items[1..], goals[1..], Max(available - items[0].projection.required.minor, 0), i - 1);
    }
  }

  /** What the goals before `i` leave of the capacity. */
  lemma {:induction false} LeftForItem(items: seq<Item>, goals: seq<Goal>, available: int, i: nat)
    requires available >= 0 && Shared(items, goals, available) && i < |items|
    ensures |goals| == |items| && items[i].goal == goals[i]
    ensures Fair(Max(available - RequiredSum(items[..i]), 0), items[i].projection)
    decreases |items|
  {
    ShortfallsAddUp(items, goals, available);
    PrefixRequirement(items, goals, available, i);
    if i > 0 {
      var left := Max(available - items[0].projection.required.minor, 0);
      LeftForItem(items[1..], goals[1..], left, i - 1);
      PrefixRequirement(items[1..], goals[1..], left, i - 1);
    } else {
      assert items[..0] == [];
    }
  }

  lemma {:induction false} RequiredSumNext(items: seq<Item>, i: nat)
    requires i < |items|
    ensures RequiredSum(items[..i + 1]) == RequiredSum(items[..i]) + items[i].projection.required.minor
    decreases |items|
  {
    if i > 0 {
      RequiredSumNext(items[1..], i - 1);
      assert items[..i + 1][1..] == items[1..][..i] && items[..i][1..] == items[1..][..i - 1];
    } else {
      assert items[..1][1..] == [] && items[..0] == [];
    }
  }

  /** A goal conflicts exactly when it needs something and the running requirement exceeds the capacity. */
  lemma {:induction false} SharedItemFits(items: seq<Item>, goals: seq<Goal>, available: int, i: nat)
    requires available >= 0 && Shared(items, goals, available) && i < |items|
    ensures |goals| == |items| && ItemFits(items, i, goals[i], available)
  {
    LeftForItem(items, goals, available, i);
    RequiredSumNext(items, i);
    PrefixRequirement(items, goals, available, i);
  }

  /** Item `i` projects `goal` against what the requirements before it leave of `capacity`. */
  ghost predicate ItemFits(items: seq<Item>, i: nat, goal: Goal, capacity: int)
    requires i < |items|
  {
    var p := items[i].projection;
    && items[i].goal == goal
    && p.shortfall.minor == Max(p.required.minor - Max(capacity - RequiredSum(items[..i]), 0), 0)
    && (p.status.Conflicting? <==> p.required.minor > 0 && RequiredSum(items[..i + 1]) > capacity)
    && (p.status.OnTrack? ==> p.gapAtTarget.minor == 0)
    && (p.status.Behind? ==> p.gapAtTarget.minor > 0)
  }

  lemma {:induction false} SharedTotals(items: seq<Item>, goals: seq<Goal>, available: int)
    requires available >= 0 && Shared(items, goals, available)
    ensures |items| == |goals|
    ensures forall i | 0 <= i < |items| :: ItemFits(items, i, goals[i], available)
    ensures ShortfallSum(items) == Max(RequiredSum(items) - available, 0)
  {
    ShortfallsAddUp(items, goals, available);
    forall i | 0 <= i < |items|
      ensures ItemFits(items, i, goals[i], available)
    {
      SharedItemFits(items, goals, available, i);
    }
  }

  /** Sharing a capacity over goals in any order: shortfalls, conflicts and statuses of every item. */
  lemma {:induction false} SharingCapacity(goals: seq<Goal>, asOf: Date, available: Money)
    requires available.minor >= 0 && Share(goals, asOf, available).Ok?
    ensures var items := Share(goals, asOf, available).value;
      && |items| == |goals|
      && (forall i | 0 <= i < |items| :: ItemFits(items, i, goals[i], available.minor))
      && ShortfallSum(items) == Max(RequiredSum(items) - available.minor, 0)
  {
    ShareIsShared(goals, asOf, available);
    SharedTotals(Share(goals, asOf, available).value, goals, available.minor);
  }

  /** The goals are shared out in a sorted permutation by priority, target date and id. */
  lemma {:induction false} GoalsComeSorted(goals: seq<Goal>)
    ensures Sorted(Ranking(), StableSort(Ranking(), goals))
    ensures multiset(StableSort(Ranking(), goals)) == multiset(goals)
  {
    RankingIsStrictWeak();
    StableSortSorts(Ranking(), goals);
  }

  lemma {:induction false} RankingIsStrictWeak()
    ensures StrictWeakOrder(Ranking())
  {
  }
}
