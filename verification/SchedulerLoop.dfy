/** The loop that catches up the latest due run at start-up and then runs each next trigger. */
module SchedulerLoop {
  /** A job as the loop sees it: its schedule and the period a trigger reports on. */
  datatype Job = Job(latestDue: int -> int, next: int -> int, period: int -> int)

  /** The next trigger after `reading` reports on a later period than the one due at `before`, the following one iff none was missed. */
  predicate InStep(job: Job, before: int, reading: int) {
    && job.period(job.next(reading)) > job.period(job.latestDue(before))
    && (job.period(job.next(reading)) == job.period(job.latestDue(before)) + 1 <==> reading < job.next(before))
  }

  ghost predicate Regular(job: Job) {
    && (forall at: int :: job.latestDue(at) <= at && job.latestDue(job.next(at)) == job.next(at))
    && (forall before: int, reading: int | reading >= job.latestDue(before) :: InStep(job, before, reading))
  }

  /** The triggers run for the clock readings of the loop: the latest due at start-up, then the next after each reading. */
  function Fired(job: Job, start: int, readings: seq<int>): seq<int> {
    [job.latestDue(start)] + seq(|readings|, i requires 0 <= i < |readings| => job.next(readings[i]))
  }

  /** Start-up catches up the latest due run; each round sleeps until the next trigger and runs that trigger. */
  method RunLoop(job: Job, start: int, readings: seq<int>) returns (fired: seq<int>)
    ensures fired == Fired(job, start, readings)
  {
    fired := [job.latestDue(start)];
    for i := 0 to |readings|
      invariant fired == Fired(job, start, readings[..i])
    {
      fired := fired + [job.next(readings[i])];
    }
    assert readings[..|readings|] == readings;
  }

  /** The trigger run just before round `i`, or the start-up instant. */
  function Previous(job: Job, start: int, readings: seq<int>, i: nat): int
    requires i <= |readings|
  {
    if i == 0 then start else job.next(readings[i - 1])
  }

  /** A timer never fires early: the clock read after a run is not before the trigger that was run. */
  predicate TimersFireLate(job: Job, start: int, readings: seq<int>) {
    forall i: nat | i < |readings| :: readings[i] >= Previous(job, start, readings, i)
  }

  /** Every round ends before the trigger after its own one is due. */
  predicate RoundsKeepUp(job: Job, start: int, readings: seq<int>) {
    forall i: nat | i < |readings| :: readings[i] < job.next(Previous(job, start, readings, i))
  }

  /** The period reported by round `i`; round 0 is the catch-up. */
  function PeriodAt(job: Job, start: int, readings: seq<int>, i: nat): int
    requires i <= |readings|
  {
    job.period(Fired(job, start, readings)[i])
  }

  predicate FollowsOn(job: Job, start: int, readings: seq<int>, i: nat)
    requires i < |readings|
  {
    PeriodAt(job, start, readings, i + 1) == PeriodAt(job, start, readings, i) + 1
  }

  lemma FiredAt(job: Job, start: int, readings: seq<int>, i: nat)
    requires i < |readings|
    ensures Fired(job, start, readings)[i] == (if i == 0 then job.latestDue(start) else Previous(job, start, readings, i))
    ensures Fired(job, start, readings)[i + 1] == job.next(readings[i])
  {
  }

  lemma RoundAt(job: Job, start: int, readings: seq<int>, i: nat)
    requires Regular(job) && TimersFireLate(job, start, readings) && i < |readings|
    ensures PeriodAt(job, start, readings, i + 1) > PeriodAt(job, start, readings, i)
    ensures FollowsOn(job, start, readings, i) <==> readings[i] < job.next(Previous(job, start, readings, i))
  {
    var before, reading := Previous(job, start, readings, i), readings[i];
    FiredAt(job, start, readings, i);
    assert before == (if i == 0 then start else job.next(readings[i - 1]));
    assert reading >= before >= job.latestDue(before);
    assert InStep(job, before, reading);
  }

  /** No period is reported twice, and none is skipped exactly when each round keeps up with the schedule. */
  lemma LoopCoversEachPeriodOnce(job: Job, start: int, readings: seq<int>)
    requires Regular(job) && TimersFireLate(job, start, readings)
    ensures forall i: nat | i < |readings| :: PeriodAt(job, start, readings, i + 1) > PeriodAt(job, start, readings, i)
    ensures (forall i: nat | i < |readings| :: FollowsOn(job, start, readings, i)) <==> RoundsKeepUp(job, start, readings)
  {
    forall i: nat | i < |readings|
      ensures PeriodAt(job, start, readings, i + 1) > PeriodAt(job, start, readings, i)
      ensures FollowsOn(job, start, readings, i) <==> readings[i] < job.next(Previous(job, start, readings, i))
    {
      RoundAt(job, start, readings, i);
    }
  }
}
