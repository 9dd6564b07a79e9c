/** The persisted rows behind scheduled jobs, and the statements that claim, finish and recover them. */
module JobRunStore {
  import opened Results

  /** The unique key of a run; names are already trimmed. */
  datatype Key = Key(household: int, job: string, scheduledFor: int)

  datatype Status = Running | Succeeded | Failed

  datatype Row = Row(period: string, status: Status, startedAt: int, finishedAt: Option<int>, errorCode: Option<string>)

  datatype Outcome = Outcome(status: Status, errorCode: string)

  datatype FinishError = InvalidOutcome | RunNotClaimed

  type Table = map<Key, Row>

  const JOB_FAILED := "job_failed"
  const PROCESS_RESTARTED := "process_restarted"

  /** The table's check constraint on status, finish time and error code. */
  predicate ConsistentRow(row: Row) {
    match row.status
    case Running => row.finishedAt.None? && row.errorCode.None?
    case Succeeded => row.finishedAt.Some? && row.errorCode.None?
    case Failed => row.finishedAt.Some? && row.errorCode.Some? && row.errorCode.value != ""
  }

  predicate Consistent(rows: Table) {
    forall key | key in rows :: ConsistentRow(rows[key])
  }

  /** A run may be claimed when it was never tried or its last attempt failed. */
  predicate Claimable(rows: Table, key: Key) {
    key !in rows || rows[key].status.Failed?
  }

  predicate RunningRow(rows: Table, key: Key) {
    key in rows && rows[key].status.Running?
  }

  predicate SucceededRow(rows: Table, key: Key) {
    key in rows && rows[key].status.Succeeded?
  }

  /** Insert, or take over a failed row. */
  function Claimed(rows: Table, key: Key, period: string, startedAt: int): Table {
    if Claimable(rows, key) then rows[key := Row(period, Running, startedAt, None, None)] else rows
  }

  /** Only a running row is finished. */
  function Finished(rows: Table, key: Key, finishedAt: int, outcome: Outcome): Table {
    if RunningRow(rows, key) then
      rows[key := rows[key].(status := outcome.status, finishedAt := Some(finishedAt),
                             errorCode := if outcome.status.Failed? then Some(outcome.errorCode) else None)]
    else rows
  }

  /** Every running row fails with the restart code. */
  function Recovered(rows: Table, at: int): Table {
    map key | key in rows ::
      if rows[key].status.Running? then
        rows[key].(status := Failed, finishedAt := Some(at), errorCode := Some(PROCESS_RESTARTED))
      else rows[key]
  }

  /** What recovery means: nothing is left running, only running rows changed and those can be claimed again, the
      check constraint still holds, and a second recovery, at any later time, changes nothing. */
  lemma RecoveryInterruptsExactlyTheRunning(rows: Table, at: int, again: int)
    ensures var after := Recovered(rows, at);
      && after.Keys == rows.Keys
      && (forall key | key in rows ::
            && !RunningRow(after, key)
            && (RunningRow(rows, key) <==> after[key] != rows[key])
            && (Claimable(after, key) <==> RunningRow(rows, key) || Claimable(rows, key)))
      && (Consistent(rows) ==> Consistent(after))
      && Recovered(after, again) == after
  {
  }

  /** A success carries no code, a failure carries one, and "running" is no outcome. */
  predicate ValidOutcome(outcome: Outcome) {
    match outcome.status
    case Running => false
    case Succeeded => outcome.errorCode == ""
    case Failed => outcome.errorCode != ""
  }

  /** The outcome recorded for a job: success, or failure with the one code jobs report. */
  function OutcomeOf(jobSucceeded: bool): (outcome: Outcome)
    ensures ValidOutcome(outcome) && (outcome.status.Succeeded? <==> jobSucceeded)
  {
    if jobSucceeded then Outcome(Succeeded, "") else Outcome(Failed, JOB_FAILED)
  }

  class RunStore {
    var rows: Table

    constructor ()
      ensures rows == map[]
    {
      rows := map[];
    }

    method Claim(key: Key, period: string, startedAt: int) returns (claimed: bool)
      modifies this
      ensures claimed == (key !in old(rows) || old(rows)[key].status == Failed) == Claimable(old(rows), key)
      ensures rows == if claimed then old(rows)[key := Row(period, Running, startedAt, None, None)] else old(rows)
      ensures rows == Claimed(old(rows), key, period, startedAt)
    {
      if key !in rows {
        rows := rows[key := Row(period, Running, startedAt, None, None)];
        return true;
      }
      if rows[key].status != Failed {
        return false;
      }
      rows := rows[key := rows[key].(period := period, status := Running, startedAt := startedAt,
                                     finishedAt := None, errorCode := None)];
      return true;
    }

    /** A success comes without a code and a failure with one; only a running row takes the outcome. */
    method Finish(key: Key, finishedAt: int, outcome: Outcome) returns (r: Result<(), FinishError>)
      modifies this
      ensures
        if !(outcome.status == Succeeded && outcome.errorCode == "") && !(outcome.status == Failed && outcome.errorCode != "") then
          r == Err(InvalidOutcome) && rows == old(rows)
        else if key !in old(rows) || old(rows)[key].status != Running then
          r == Err(RunNotClaimed) && rows == old(rows)
        else
          var row := old(rows)[key];
          var code := if outcome.status == Failed then Some(outcome.errorCode) else None;
          r == Ok(()) && rows == old(rows)[key := Row(row.period, outcome.status, row.startedAt, Some(finishedAt), code)]
      ensures rows == if ValidOutcome(outcome) then Finished(old(rows), key, finishedAt, outcome) else old(rows)
    {
      var code: Option<string> := None;
      match outcome.status {
        case Succeeded =>
          if outcome.errorCode != "" {
            return Err(InvalidOutcome);
          }
        case Failed =>
          if outcome.errorCode == "" {
            return Err(InvalidOutcome);
          }
          code := Some(outcome.errorCode);
        case Running =>
          return Err(InvalidOutcome);
      }
      var updated := 0;
      if key in rows && rows[key].status == Running {
        rows := rows[key := rows[key].(status := outcome.status, finishedAt := Some(finishedAt), errorCode := code)];
        updated := 1;
      }
      if updated != 1 {
        return Err(RunNotClaimed);
      }
      return Ok(());
    }

    /** The one statement, row by row: every running row fails with the restart code, no other row changes. */
    method RecoverInterrupted(at: int)
      modifies this
      ensures rows.Keys == old(rows).Keys
      ensures forall key | key in old(rows) :: var row := old(rows)[key];
        rows[key] == if row.status == Running then Row(row.period, Failed, row.startedAt, Some(at), Some("process_restarted")) else row
      ensures rows == Recovered(old(rows), at)
    {
      var todo := rows.Keys;
      while todo != {}
        invariant todo <= rows.Keys == old(rows).Keys
        invariant forall key | key in rows ::
          rows[key] == if key in todo then old(rows)[key] else Recovered(old(rows), at)[key]
      {
        var key :| key in todo;
        todo := todo - {key};
        if rows[key].status == Running {
          rows := rows[key := rows[key].(status := Failed, finishedAt := Some(at), errorCode := Some(PROCESS_RESTARTED))];
        }
      }
    }

    /** One undisturbed run: the job executes only if the claim succeeds, and its outcome is what gets recorded. */
    method RunDue(key: Key, period: string, startedAt: int, finishedAt: int, jobSucceeds: bool) returns (executed: bool, failed: bool)
      modifies this
      ensures executed == (key !in old(rows) || old(rows)[key].status == Failed) && failed == (executed && !jobSucceeds)
      ensures !executed ==> rows == old(rows)
      ensures executed ==> rows == old(rows)[key := if jobSucceeds then Row(period, Succeeded, startedAt, Some(finishedAt), None)
                                                    else Row(period, Failed, startedAt, Some(finishedAt), Some("job_failed"))]
    {
      executed := Claim(key, period, startedAt);
      if !executed {
        return false, false;
      }
      var recorded := Finish(key, finishedAt, OutcomeOf(jobSucceeds));
      failed := !jobSucceeds;
    }
  }
}
