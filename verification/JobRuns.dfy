/** Scheduled jobs over whole runs: claims, finishes, failed statements, crashes and restarts in any interleaving. */
module JobRuns {
  import opened Results
  import opened JobRunStore

  /** `Starting` until recovery has completed; jobs are started only afterwards. */
  datatype Phase = Starting | Serving

  /** `workers` are the claims in flight; `recorded` logs every success that reached the table. */
  datatype State = State(phase: Phase, rows: Table, workers: multiset<Key>, recorded: multiset<Key>)

  datatype Step =
    | Claim(key: Key, period: string, at: int)
    /** The row was claimed but the answer was lost, so no job starts. */
    | ClaimAnswerLost(key: Key, period: string, at: int)
    | Finish(key: Key, at: int, jobSucceeded: bool)
    /** The finishing statement failed; the worker gives up. */
    | FinishFails(key: Key)
    | Crash
    | Recover(at: int)

  predicate Enabled(s: State, step: Step) {
    match step
    case Claim(_, _, _) => s.phase.Serving?
    case ClaimAnswerLost(_, _, _) => s.phase.Serving?
    case Finish(key, _, _) => key in s.workers
    case FinishFails(key) => key in s.workers
    case Crash => true
    case Recover(_) => s.phase.Starting?
  }

  function Effect(s: State, step: Step): State {
    match step
    case Claim(key, period, at) =>
      s.(rows := Claimed(s.rows, key, period, at),
         workers := if Claimable(s.rows, key) then s.workers + multiset{key} else s.workers)
    case ClaimAnswerLost(key, period, at) => s.(rows := Claimed(s.rows, key, period, at))
    case Finish(key, at, jobSucceeded) =>
      s.(rows := Finished(s.rows, key, at, OutcomeOf(jobSucceeded)),
         workers := s.workers - multiset{key},
         recorded := if jobSucceeded && RunningRow(s.rows, key) then s.recorded + multiset{key} else s.recorded)
    case FinishFails(key) => s.(workers := s.workers - multiset{key})
    case Crash => s.(phase := Starting, workers := multiset{})
    case Recover(at) => s.(phase := Serving, rows := Recovered(s.rows, at))
  }

  /** A step that is not enabled does nothing. */
  function Next(s: State, step: Step): State {
    if Enabled(s, step) then Effect(s, step) else s
  }

  function After(s: State, steps: seq<Step>): State
    decreases |steps|
  {
    if steps == [] then s else After(Next(s, steps[0]), steps[1..])
  }

  function Fresh(): State {
    State(Starting, map[], multiset{}, multiset{})
  }

  /** What holds of every key at every moment. */
  predicate KeyInv(s: State, key: Key) {
    && (key in s.rows ==> ConsistentRow(s.rows[key]))
    && s.workers[key] <= 1
    && (s.phase.Starting? ==> s.workers[key] == 0)
    && (s.workers[key] == 1 ==> RunningRow(s.rows, key))
    && s.recorded[key] == if SucceededRow(s.rows, key) then 1 else 0
  }

  lemma ClaimKeepsKeyInv(s: State, step: Step, key: Key)
    requires KeyInv(s, key) && (step.Claim? || step.ClaimAnswerLost?)
    ensures KeyInv(Next(s, step), key)
  {
  }

  lemma FinishKeepsKeyInv(s: State, step: Step, key: Key)
    requires KeyInv(s, key) && step.Finish?
    ensures KeyInv(Next(s, step), key)
  {
    var t := Next(s, step);
    if step.key != key {
      assert t.workers[key] == s.workers[key] && t.recorded[key] == s.recorded[key];
    } else if key in s.workers {
      assert RunningRow(s.rows, key) && t.workers[key] == 0;
    }
  }

  lemma StepKeepsKeyInv(s: State, step: Step, key: Key)
    requires KeyInv(s, key)
    ensures KeyInv(Next(s, step), key)
  {
    if step.Claim? || step.ClaimAnswerLost? {
      ClaimKeepsKeyInv(s, step, key);
    } else if step.Finish? {
      FinishKeepsKeyInv(s, step, key);
    }
  }

  /** Every run keeps each key's row consistent, its workers to one and its recorded successes to one. */
  lemma {:induction false} RunsKeepKeyInv(s: State, steps: seq<Step>, key: Key)
    requires KeyInv(s, key)
    ensures KeyInv(After(s, steps), key)
    decreases |steps|
  {
    if steps != [] {
      StepKeepsKeyInv(s, steps[0], key);
      RunsKeepKeyInv(Next(s, steps[0]), steps[1..], key);
    }
  }

  /** From an empty table: at most one worker and one recorded success per key, whatever the interleaving. */
  lemma AtMostOneWorkerAndOneSuccess(steps: seq<Step>, key: Key)
    ensures var s := After(Fresh(), steps);
            && s.workers[key] <= 1 && s.recorded[key] <= 1
            && (s.workers[key] == 1 ==> RunningRow(s.rows, key) && s.recorded[key] == 0)
            && (s.recorded[key] == 1 <==> SucceededRow(s.rows, key))
  {
    RunsKeepKeyInv(Fresh(), steps, key);
  }

  /** A claimed worker's finishing statement updates exactly its one row, so "not claimed" cannot be reported to it. */
  lemma FinishUpdatesExactlyOneRow(steps: seq<Step>, key: Key, at: int, jobSucceeded: bool)
    requires key in After(Fresh(), steps).workers
    ensures var s := After(Fresh(), steps);
            && RunningRow(s.rows, key)
            && var t := Next(s, Finish(key, at, jobSucceeded));
            && t.rows == s.rows[key := s.rows[key].(status := if jobSucceeded then Succeeded else Failed, finishedAt := Some(at),
                                                    errorCode := if jobSucceeded then None else Some(JOB_FAILED))]
            && key !in t.workers
  {
    RunsKeepKeyInv(Fresh(), steps, key);
  }

  lemma SuccessStays(s: State, step: Step, key: Key)
    requires KeyInv(s, key) && SucceededRow(s.rows, key)
    ensures var t := Next(s, step); SucceededRow(t.rows, key) && t.rows[key] == s.rows[key]
  {
  }

  /** Once a success is recorded the row never changes and the job never runs again under that key. */
  lemma {:induction false} SuccessIsFinal(s: State, steps: seq<Step>, key: Key)
    requires KeyInv(s, key) && SucceededRow(s.rows, key)
    ensures var t := After(s, steps);
            SucceededRow(t.rows, key) && t.rows[key] == s.rows[key] && t.workers[key] == 0 && t.recorded[key] == 1
    decreases |steps|
  {
    if steps != [] {
      StepKeepsKeyInv(s, steps[0], key);
      SuccessStays(s, steps[0], key);
      SuccessIsFinal(Next(s, steps[0]), steps[1..], key);
    }
  }

  predicate Orphaned(s: State, key: Key) {
    key in s.rows && s.rows[key].status == Running && key !in s.workers
  }

  /** The answer to a claim that took the row was lost, the finishing statement of its worker failed, or the process crashed
      while its worker was at work. */
  predicate LosesWorker(s: State, step: Step, key: Key) {
    || (step.ClaimAnswerLost? && step.key == key && s.phase == Serving && (key !in s.rows || s.rows[key].status == Failed))
    || (step == FinishFails(key) && key in s.workers)
    || (step == Crash && key in s.workers)
  }

  lemma ClaimOrphans(s: State, step: Step, key: Key)
    requires KeyInv(s, key) && !Orphaned(s, key) && (step.Claim? || step.ClaimAnswerLost?)
    ensures Orphaned(Next(s, step), key) <==> LosesWorker(s, step, key)
  {
  }

  lemma FinishOrphans(s: State, step: Step, key: Key)
    requires KeyInv(s, key) && !Orphaned(s, key) && (step.Finish? || step.FinishFails?)
    ensures Orphaned(Next(s, step), key) <==> LosesWorker(s, step, key)
  {
    var t := Next(s, step);
    if step.key != key {
      assert t.workers[key] == s.workers[key];
    } else if key in s.workers {
      assert t.workers[key] == 0;
    }
  }

  lemma RestartOrphans(s: State, step: Step, key: Key)
    requires KeyInv(s, key) && !Orphaned(s, key) && (step.Crash? || step.Recover?)
    ensures Orphaned(Next(s, step), key) <==> LosesWorker(s, step, key)
  {
  }

  /** In every run a row comes to be running without a worker exactly by a step that loses its worker. */
  lemma OrphanedExactlyBy(steps: seq<Step>, step: Step, key: Key)
    requires !Orphaned(After(Fresh(), steps), key)
    ensures var s := After(Fresh(), steps); Orphaned(Next(s, step), key) <==> LosesWorker(s, step, key)
  {
    RunsKeepKeyInv(Fresh(), steps, key);
    var s := After(Fresh(), steps);
    match step
    case Claim(_, _, _) => ClaimOrphans(s, step, key);
    case ClaimAnswerLost(_, _, _) => ClaimOrphans(s, step, key);
    case Finish(_, _, _) => FinishOrphans(s, step, key);
    case FinishFails(_) => FinishOrphans(s, step, key);
    case Crash => RestartOrphans(s, step, key);
    case Recover(_) => RestartOrphans(s, step, key);
  }

  lemma OrphanStays(s: State, step: Step, key: Key)
    requires KeyInv(s, key) && RunningRow(s.rows, key) && s.workers[key] == 0 && !step.Recover?
    ensures var t := Next(s, step); RunningRow(t.rows, key) && t.rows[key] == s.rows[key] && t.workers[key] == 0
  {
  }

  /** A running row without a worker, left by a lost answer or a failed finish, blocks its key until the process restarts. */
  lemma {:induction false} OrphanWaitsForRestart(s: State, steps: seq<Step>, key: Key)
    requires KeyInv(s, key) && RunningRow(s.rows, key) && s.workers[key] == 0
    requires forall step | step in steps :: !step.Recover?
    ensures var t := After(s, steps); RunningRow(t.rows, key) && t.rows[key] == s.rows[key] && t.workers[key] == 0
    decreases |steps|
  {
    if steps != [] {
      assert steps[0] in steps;
      StepKeepsKeyInv(s, steps[0], key);
      OrphanStays(s, steps[0], key);
      OrphanWaitsForRestart(Next(s, steps[0]), steps[1..], key);
    }
  }

  /** After a restart exactly the runs that had not succeeded can be claimed, and finished rows are untouched. */
  lemma RestartFreesUnfinishedRuns(steps: seq<Step>, at: int, key: Key)
    ensures var s := After(Fresh(), steps); var t := Next(Next(s, Crash), Recover(at));
            && t.phase == Serving && t.workers == multiset{}
            && (Claimable(t.rows, key) <==> !SucceededRow(s.rows, key))
            && (key in s.rows && !RunningRow(s.rows, key) ==> key in t.rows && t.rows[key] == s.rows[key])
  {
  }

  /** Why recovery precedes serving: recovering beside a live worker would let its key be claimed twice at once. */
  lemma RecoveryBesideLiveWorkerBreaksTheClaim(s: State, key: Key, at: int)
    requires s.phase.Serving? && KeyInv(s, key) && key in s.workers
    ensures Next(s.(rows := Recovered(s.rows, at)), Claim(key, "", at)).workers[key] == 2
  {
    var early := s.(rows := Recovered(s.rows, at));
    assert Claimable(early.rows, key);
  }
}
