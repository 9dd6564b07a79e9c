/** The monthly trigger in a fixed-offset zone, the period a trigger reports on, and the loop that fires triggers. */
module MonthlySchedule {
  import opened Durations
  import opened Results
  import opened Calendar
  import opened SchedulerLoop

  // Instants and durations are in nanoseconds.

  datatype Schedule = Schedule(offset: int, hour: int, minute: int)

  predicate Valid(s: Schedule) {
    0 <= s.hour <= 23 && 0 <= s.minute <= 59
  }

  function NewMonthlySchedule(offset: int, hour: int, minute: int): (r: Option<Schedule>)
    ensures r.Some? <==> 0 <= hour <= 23 && 0 <= minute <= 59
    ensures r.Some? ==> Valid(r.value) && r.value == Schedule(offset, hour, minute)
  {
    if hour < 0 || hour > 23 || minute < 0 || minute > 59 then None else Some(Schedule(offset, hour, minute))
  }

  /** The local calendar day of an instant. */
  function LocalDay(s: Schedule, at: int): (day: int)
    ensures day * DAY <= at + s.offset < (day + 1) * DAY
  {
    (at + s.offset) / DAY
  }

  function LocalMonth(s: Schedule, at: int): int {
    MonthOf(LocalDay(s, at))
  }

  /** The instant of the schedule's time of day on a local day. */
  function At(s: Schedule, day: int): int {
    day * DAY + s.hour * HOUR + s.minute * MINUTE - s.offset
  }

  /** The trigger of a month: its first day at the schedule's time. */
  function Trigger(s: Schedule, month: int): int {
    At(s, MonthStart(month))
  }

  function LatestDue(s: Schedule, at: int): int {
    var candidate := Trigger(s, LocalMonth(s, at));
    if candidate > at then At(s, AddMonths(LocalDay(s, candidate), -1)) else candidate
  }

  function Next(s: Schedule, after: int): int {
    var candidate := Trigger(s, LocalMonth(s, after));
    if candidate <= after then At(s, AddMonths(LocalDay(s, candidate), 1)) else candidate
  }

  /** The month a trigger reports on: one calendar month back from the trigger's local date. */
  function Period(s: Schedule, trigger: int): int {
    MonthOf(AddMonths(LocalDay(s, trigger), -1))
  }

  // ---------- triggers ----------

  lemma TimeOfDay(s: Schedule, day: int)
    requires Valid(s)
    ensures LocalDay(s, At(s, day)) == day
  {
  }

  lemma TriggerMonth(s: Schedule, month: int)
    requires Valid(s)
    ensures LocalMonth(s, Trigger(s, month)) == month && DayInMonth(LocalDay(s, Trigger(s, month))) == 0
  {
    TimeOfDay(s, MonthStart(month));
    MonthsFollow(month);
    MonthIsUnique(MonthStart(month), month);
  }

  function Triggers(s: Schedule): int -> int {
    (month: int) => Trigger(s, month)
  }

  ghost predicate Rising(f: int -> int) {
    forall a: int, b: int :: a < b ==> f(a) < f(b)
  }

  lemma TriggersRise(s: Schedule)
    ensures Rising(Triggers(s))
  {
    forall a: int, b: int | a < b
      ensures Triggers(s)(a) < Triggers(s)(b)
    {
      MonthsIncrease(a, b);
      DaysInOrder(s, MonthStart(a), MonthStart(b));
    }
  }

  lemma DaysInOrder(s: Schedule, day: int, other: int)
    requires day < other
    ensures At(s, day) + DAY <= At(s, other)
  {
  }

  /** Between two neighbouring values of a rising sequence there is no third. */
  lemma Rungs(f: int -> int, at: int, due: int, month: int)
    requires Rising(f) && f(due) <= at < f(due + 1)
    ensures f(month) <= f(due) || f(due + 1) <= f(month)
    ensures f(month) <= at < f(month + 1) ==> month == due
  {
    assert month < due ==> f(month) < f(due);
    assert month + 1 < due ==> f(month + 1) < f(due);
    assert month > due + 1 ==> f(due + 1) < f(month);
  }

  /** The month whose trigger is the latest one due. */
  function DueMonth(s: Schedule, at: int): int {
    var month := LocalMonth(s, at);
    if Trigger(s, month) > at then month - 1 else month
  }

  lemma DueAndNext(s: Schedule, at: int)
    requires Valid(s)
    ensures LatestDue(s, at) == Trigger(s, DueMonth(s, at)) && Next(s, at) == Trigger(s, DueMonth(s, at) + 1)
    ensures LatestDue(s, at) <= at < Next(s, at)
  {
    var month, day := LocalMonth(s, at), LocalDay(s, at);
    TriggerMonth(s, month);
    TriggersAround(s, month, day, at);
  }

  lemma TriggersAround(s: Schedule, month: int, day: int, at: int)
    requires Valid(s) && MonthStart(month) <= day < MonthStart(month + 1)
    requires day * DAY <= at + s.offset < (day + 1) * DAY
    ensures Trigger(s, month - 1) <= at < Trigger(s, month + 1)
  {
    MonthsFollow(month - 1);
    assert MonthStart(month - 1) + 28 <= day <= MonthStart(month + 1) - 1;
  }

  lemma DueMonthIsUnique(s: Schedule, at: int, month: int)
    requires Valid(s) && Triggers(s)(month) <= at < Triggers(s)(month + 1)
    ensures DueMonth(s, at) == month
  {
    DueAndNext(s, at);
    TriggersRise(s);
    Rungs(Triggers(s), at, DueMonth(s, at), month);
  }

  /** `LatestDue` is the last trigger at or before an instant, `Next` the first one after it, and nothing lies between. */
  lemma NoTriggerBetween(s: Schedule, at: int, month: int)
    requires Valid(s)
    ensures LatestDue(s, at) <= at < Next(s, at)
    ensures Trigger(s, month) <= LatestDue(s, at) || Next(s, at) <= Trigger(s, month)
  {
    DueAndNext(s, at);
    TriggersRise(s);
    var f, due := Triggers(s), DueMonth(s, at);
    assert f(due) == LatestDue(s, at) && f(due + 1) == Next(s, at) && f(month) == Trigger(s, month);
    Rungs(f, at, due, month);
  }

  /** The due trigger is its own latest due, and its next is the instant's next. */
  lemma NextOfLatestDue(s: Schedule, at: int)
    requires Valid(s)
    ensures Next(s, LatestDue(s, at)) == Next(s, at) && LatestDue(s, LatestDue(s, at)) == LatestDue(s, at)
  {
    var due := DueMonth(s, at);
    DueAndNext(s, at);
    DueAt(s, due);
  }

  lemma LatestDueOfNext(s: Schedule, at: int)
    requires Valid(s)
    ensures LatestDue(s, Next(s, at)) == Next(s, at)
  {
    DueAndNext(s, at);
    DueAt(s, DueMonth(s, at) + 1);
  }

  lemma DueAt(s: Schedule, month: int)
    requires Valid(s)
    ensures LatestDue(s, Trigger(s, month)) == Trigger(s, month) && Next(s, Trigger(s, month)) == Trigger(s, month + 1)
  {
    var f := Triggers(s);
    TriggersRise(s);
    assert f(month) < f(month + 1) && f(month) == Trigger(s, month);
    DueMonthIsUnique(s, f(month), month);
    DueAndNext(s, f(month));
  }

  lemma LaterRung(f: int -> int, reading: int, due: int, later: int)
    requires Rising(f) && f(due) <= reading && f(later) <= reading < f(later + 1)
    ensures later >= due && (later == due <==> reading < f(due + 1))
  {
    assert later + 1 < due ==> f(later + 1) < f(due);
    assert due + 1 < later ==> f(due + 1) < f(later);
  }

  // ---------- periods ----------

  /** A trigger reports on the month just ended, also across a year end. */
  lemma TriggerReportsPrecedingMonth(s: Schedule, month: int)
    requires Valid(s)
    ensures Period(s, Trigger(s, month)) == month - 1
  {
    TriggerMonth(s, month);
    OneMonthBack(LocalDay(s, Trigger(s, month)));
  }

  /** For any instant, the period is the preceding month exactly when that month has the local day of the month. */
  lemma PeriodIsPrecedingMonthIff(s: Schedule, at: int)
    ensures Period(s, at) == LocalMonth(s, at) - 1
            <==> DayInMonth(LocalDay(s, at)) < MonthLength(LocalMonth(s, at) - 1)
  {
    OneMonthBack(LocalDay(s, at));
  }

  /** It would fail for a trigger late in a month: on 31 March 1970 the period is March itself. */
  lemma LateTriggerReportsItsOwnMonth(s: Schedule)
    requires s == Schedule(0, 3, 0)
    ensures LocalMonth(s, At(s, 89)) == 2 && Period(s, At(s, 89)) == 2
  {
    TimeOfDay(s, 89);
    MonthsFollow(0);
    MonthsFollow(1);
    MonthsFollow(2);
    MonthIsUnique(89, 2);
    OneMonthBack(89);
  }

  lemma SuccessivePeriods(s: Schedule, at: int)
    requires Valid(s)
    ensures Period(s, Next(s, at)) == Period(s, LatestDue(s, at)) + 1
  {
    DuePeriods(s, at);
  }

  lemma DuePeriods(s: Schedule, at: int)
    requires Valid(s)
    ensures Period(s, LatestDue(s, at)) == DueMonth(s, at) - 1 && Period(s, Next(s, at)) == DueMonth(s, at)
  {
    DueAndNext(s, at);
    TriggerReportsPrecedingMonth(s, DueMonth(s, at));
    TriggerReportsPrecedingMonth(s, DueMonth(s, at) + 1);
  }

  lemma DueOnRungs(s: Schedule, at: int)
    requires Valid(s)
    ensures Triggers(s)(DueMonth(s, at)) == LatestDue(s, at) && Triggers(s)(DueMonth(s, at) + 1) == Next(s, at)
    ensures Triggers(s)(DueMonth(s, at)) <= at < Triggers(s)(DueMonth(s, at) + 1)
  {
    DueAndNext(s, at);
  }

  lemma DueMonthsRise(s: Schedule, f: int -> int, before: int, reading: int, latest: int, next: int, due: int, later: int)
    requires f == Triggers(s) && latest == LatestDue(s, before) && next == Next(s, before)
    requires due == DueMonth(s, before) && later == DueMonth(s, reading)
    requires Valid(s) && reading >= latest
    ensures later >= due && (later == due <==> reading < next)
  {
    assert f(due) == latest && f(due + 1) == next by {
      DueOnRungs(s, before);
    }
    assert f(later) <= reading < f(later + 1) by {
      DueOnRungs(s, reading);
    }
    assert Rising(f) by {
      TriggersRise(s);
    }
    LaterRung(f, reading, due, later);
  }

  /** A later reading's next trigger reports on a later month, the very next one exactly when no trigger was missed. */
  lemma ReadingPeriods(s: Schedule, before: int, reading: int)
    requires Valid(s) && reading >= LatestDue(s, before)
    ensures Period(s, Next(s, reading)) > Period(s, LatestDue(s, before))
    ensures Period(s, Next(s, reading)) == Period(s, LatestDue(s, before)) + 1 <==> reading < Next(s, before)
  {
    DuePeriods(s, before);
    DuePeriods(s, reading);
    DueMonthsRise(s, Triggers(s), before, reading, LatestDue(s, before), Next(s, before), DueMonth(s, before),
                  DueMonth(s, reading));
  }

  function MonthlyJob(s: Schedule): Job {
    Job((at: int) => LatestDue(s, at), (at: int) => Next(s, at), (trigger: int) => Period(s, trigger))
  }

  lemma MonthlyJobIsRegular(s: Schedule)
    requires Valid(s)
    ensures Regular(MonthlyJob(s))
  {
    var job := MonthlyJob(s);
    forall at: int
      ensures job.latestDue(at) <= at && job.latestDue(job.next(at)) == job.next(at)
    {
      DueAndNext(s, at);
      LatestDueOfNext(s, at);
    }
    forall before: int, reading: int | reading >= job.latestDue(before)
      ensures InStep(job, before, reading)
    {
      ReadingPeriods(s, before, reading);
    }
  }

  /** The monthly report loop never reports a month twice, and reports every month exactly when its rounds keep up. */
  lemma MonthlyLoopCoversEachMonthOnce(s: Schedule, start: int, readings: seq<int>)
    requires Valid(s) && TimersFireLate(MonthlyJob(s), start, readings)
    ensures forall i: nat | i < |readings| ::
              PeriodAt(MonthlyJob(s), start, readings, i + 1) > PeriodAt(MonthlyJob(s), start, readings, i)
    ensures (forall i: nat | i < |readings| :: FollowsOn(MonthlyJob(s), start, readings, i))
            <==> RoundsKeepUp(MonthlyJob(s), start, readings)
  {
    MonthlyJobIsRegular(s);
    LoopCoversEachPeriodOnce(MonthlyJob(s), start, readings);
  }
}
