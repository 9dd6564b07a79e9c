/** Replay protection over whole runs: accepted counters, the secret they were verified against, and how many logins fit a period. */
module SecondFactorCounters {
  import opened Results
  import opened Counting
  import opened Totp
  import opened AuthTables
  import opened SecondFactor
  import opened SecondFactorRuns

  // ---------- counters strictly increase ----------

  predicate CodeEntry(entry: Entry, user: UserId) {
    entry.user == user && entry.proof.ByCode?
  }

  /** Two entries of one user and one enrolment. */
  predicate SameEnrolment(a: Entry, b: Entry) {
    a.proof.ByCode? && b.proof.ByCode? && a.user == b.user && a.proof.enrolment == b.proof.enrolment
  }

  /** What the user row and the number of enrolments say about the counters logged so far. */
  predicate CounterInv(enrolled: bool, last: Option<int>, enrolments: nat, log: seq<Entry>, user: UserId) {
    && (forall i | 0 <= i < |log| :: CodeEntry(log[i], user) ==>
          && log[i].proof.enrolment <= enrolments
          && (log[i].proof.enrolment == enrolments && enrolled ==> last.Some? && log[i].proof.counter <= last.value))
    && (forall i, j | 0 <= i < j < |log| :: SameEnrolment(log[i], log[j]) && log[i].user == user
          ==> log[i].proof.counter < log[j].proof.counter)
  }

  predicate IsEnrolled(s: State, user: UserId) {
    user in s.db.users && s.db.users[user].enrolled
  }

  function Last(s: State, user: UserId): Option<int> {
    if user in s.db.users then s.db.users[user].lastCounter else None
  }

  predicate CounterInvAt(s: State, user: UserId) {
    CounterInv(IsEnrolled(s, user), Last(s, user), EnrolmentsOf(s, user), s.log, user)
  }

  predicate Completing(s: State, id: Token) {
    id in s.requests && (s.requests[id].Proving? || s.requests[id].Recovering? || s.requests[id].Enrolling?)
  }

  /** How a completion moves the user's counter: forward within an enrolment, or into a new enrolment, or not at all. */
  lemma CompletedCounter(s: State, id: Token, user: UserId)
    requires Completing(s, id)
    ensures var t := Completed(s, id);
            t.log != s.log ==>
              && |t.log| == |s.log| + 1 && t.log == s.log + [t.log[|s.log|]]
              && var entry := t.log[|s.log|];
              if CodeEntry(entry, user) && s.requests[id].Proving? then
                && IsEnrolled(s, user) && (Last(s, user).Some? ==> Last(s, user).value < entry.proof.counter)
                && IsEnrolled(t, user) && Last(t, user) == Some(entry.proof.counter)
                && entry.proof.enrolment == EnrolmentsOf(s, user) == EnrolmentsOf(t, user)
              else if CodeEntry(entry, user) then
                && IsEnrolled(t, user) && Last(t, user) == Some(entry.proof.counter)
                && entry.proof.enrolment == EnrolmentsOf(t, user) == EnrolmentsOf(s, user) + 1
              else
                IsEnrolled(t, user) == IsEnrolled(s, user) && Last(t, user) == Last(s, user)
                && EnrolmentsOf(t, user) == EnrolmentsOf(s, user)
  {
    CompletedShape(s, id);
  }

  lemma CounterAppend(enrolled: bool, last: Option<int>, enrolments: nat, log: seq<Entry>, user: UserId, entry: Entry, after: nat)
    requires CounterInv(enrolled, last, enrolments, log, user) && CodeEntry(entry, user) && entry.proof.enrolment == after
    requires after == enrolments + 1 || (after == enrolments && enrolled && (last.Some? ==> last.value < entry.proof.counter))
    ensures CounterInv(true, Some(entry.proof.counter), after, log + [entry], user)
  {
  }

  lemma OtherAppend(enrolled: bool, last: Option<int>, enrolments: nat, log: seq<Entry>, user: UserId, entry: Entry)
    requires CounterInv(enrolled, last, enrolments, log, user) && !CodeEntry(entry, user)
    ensures CounterInv(enrolled, last, enrolments, log + [entry], user)
  {
  }

  lemma CompleteKeepsCounters(s: State, id: Token, user: UserId)
    requires Completing(s, id) && CounterInvAt(s, user)
    ensures CounterInvAt(Completed(s, id), user)
  {
    var t := Completed(s, id);
    CompletedShape(s, id);
    CompletedCounter(s, id, user);
    if t.log != s.log {
      var entry := t.log[|s.log|];
      if CodeEntry(entry, user) {
        CounterAppend(IsEnrolled(s, user), Last(s, user), EnrolmentsOf(s, user), s.log, user, entry, EnrolmentsOf(t, user));
      } else {
        OtherAppend(IsEnrolled(s, user), Last(s, user), EnrolmentsOf(s, user), s.log, user, entry);
      }
    }
  }

  /** Every other step leaves the log and the enrolment count alone and either keeps the counter or un-enrols the user. */
  lemma OtherStepCounter(codes: Codebook, s: State, step: Step, user: UserId)
    requires !step.Complete?
    ensures var t := Next(codes, s, step);
            && t.log == s.log && EnrolmentsOf(t, user) == EnrolmentsOf(s, user)
            && (IsEnrolled(t, user) ==> IsEnrolled(s, user) && Last(t, user) == Last(s, user))
  {
  }

  lemma StepKeepsCounters(codes: Codebook, s: State, step: Step, user: UserId)
    requires CounterInvAt(s, user)
    ensures CounterInvAt(Next(codes, s, step), user)
  {
    if step.Complete? {
      if Enabled(codes, s, step) {
        CompleteKeepsCounters(s, step.id, user);
      }
    } else {
      OtherStepCounter(codes, s, step, user);
    }
  }

  lemma {:induction false} RunsKeepCounters(codes: Codebook, s: State, steps: seq<Step>, user: UserId)
    requires CounterInvAt(s, user)
    ensures CounterInvAt(After(codes, s, steps), user)
    decreases |steps|
  {
    if steps != [] {
      StepKeepsCounters(codes, s, steps[0], user);
      RunsKeepCounters(codes, Next(codes, s, steps[0]), steps[1..], user);
    }
  }

  /** Between two enrolments a user's accepted counters strictly increase: no code is ever accepted twice. */
  lemma AcceptedCountersIncrease(codes: Codebook, s: State, steps: seq<Step>, i: nat, j: nat)
    requires Initial(s) && i < j < |After(codes, s, steps).log|
    requires SameEnrolment(After(codes, s, steps).log[i], After(codes, s, steps).log[j])
    ensures After(codes, s, steps).log[i].proof.counter < After(codes, s, steps).log[j].proof.counter
  {
    RunsKeepCounters(codes, s, steps, After(codes, s, steps).log[i].user);
  }

  // ---------- what a request in flight was verified against ----------

  predicate InWindow(counter: int, now: int) {
    TimeStep(Unix(now)) - 1 <= counter <= TimeStep(Unix(now)) + 1
  }

  /** The user's secret is the one a proving request verified its code against, unless its challenge can no longer be used. */
  predicate RequestInv(s: State, id: Token) {
    id in s.requests ==>
      match s.requests[id]
      case Opening(_) => true
      case Seen(token, row, _) =>
        token in s.used && !OpeningAt(s.requests, token)
        && (token in s.db.challenges ==> s.db.challenges[token].(consumed := row.consumed) == row)
      case Proving(token, secret, counter, now) =>
        token in s.used && !OpeningAt(s.requests, token) && InWindow(counter, now)
        && (Usable(s.db, token) ==> var user := s.db.challenges[token].user;
              user in s.db.users && s.db.users[user].secret == Some(secret) && s.db.users[user].enrolled)
      case Recovering(token, _, _) => token in s.used && !OpeningAt(s.requests, token)
      case Enrolling(token, counter, _, now) => token in s.used && !OpeningAt(s.requests, token) && InWindow(counter, now)
  }

  /** Tables change for a request in flight only by consuming or removing challenges, or by changing other users. */
  lemma CompleteKeepsRequest(s: State, other: Token, id: Token)
    requires Completing(s, other) && RequestInv(s, id)
    ensures RequestInv(Completed(s, other), id)
  {
    CompletedShape(s, other);
    var t := Completed(s, other);
    if id in t.requests && t.requests[id].Proving? && t.log != s.log && Usable(t.db, t.requests[id].token) {
      CompletedSecret(s, other, s.db.challenges[t.requests[id].token].user);
    }
  }

  lemma CompletedSecret(s: State, id: Token, user: UserId)
    requires Completing(s, id) && IsEnrolled(s, user)
    ensures IsEnrolled(Completed(s, id), user) && Completed(s, id).db.users[user].secret == s.db.users[user].secret
  {
  }

  lemma StepKeepsRequest(codes: Codebook, s: State, step: Step, id: Token)
    requires TokenInvAt(s, id) && RequestInv(s, id)
    requires step.See? ==> TokenInvAt(s, step.token)
    ensures RequestInv(Next(codes, s, step), id)
  {
    if Enabled(codes, s, step) {
      match step {
        case Complete(k) => CompleteKeepsRequest(s, k, id);
        case Begin(k, user, password, secret, now) =>
        case Store(k) =>
        case See(k, seen, now) =>
        case Prove(k, code) =>
        case Recover(k, hash) =>
        case Enrol(k, code, hashes) =>
        case Drop(k) =>
        case PasswordReset(user, password) =>
        case TotpReset(user) =>
        case Disable(user) =>
        case Enable(user) =>
      }
    }
  }

  predicate EntriesInWindow(log: seq<Entry>) {
    forall i | 0 <= i < |log| :: log[i].proof.ByCode? ==> InWindow(log[i].proof.counter, log[i].proof.at)
  }

  ghost predicate AllInv(s: State) {
    && (forall id: Token :: TokenInvAt(s, id) && RequestInv(s, id))
    && EntriesInWindow(s.log)
  }

  lemma CompletedEntry(s: State, id: Token)
    requires Completing(s, id) && RequestInv(s, id) && EntriesInWindow(s.log)
    ensures EntriesInWindow(Completed(s, id).log)
  {
    CompletedShape(s, id);
  }

  lemma StepKeepsAll(codes: Codebook, s: State, step: Step)
    requires AllInv(s)
    ensures AllInv(Next(codes, s, step))
  {
    var t := Next(codes, s, step);
    forall id: Token
      ensures TokenInvAt(t, id) && RequestInv(t, id)
    {
      if step.See? {
        assert TokenInvAt(s, step.token);
      }
      StepKeepsToken(codes, s, step, id);
      StepKeepsRequest(codes, s, step, id);
    }
    assert EntriesInWindow(t.log) by {
      if step.Complete? {
        if Enabled(codes, s, step) {
          assert RequestInv(s, step.id);
          CompletedEntry(s, step.id);
        }
      } else {
        OtherStepCounter(codes, s, step, 0);
      }
    }
  }

  lemma {:induction false} RunsKeepAll(codes: Codebook, s: State, steps: seq<Step>)
    requires AllInv(s)
    ensures AllInv(After(codes, s, steps))
    decreases |steps|
  {
    if steps != [] {
      StepKeepsAll(codes, s, steps[0]);
      RunsKeepAll(codes, Next(codes, s, steps[0]), steps[1..]);
    }
  }

  /** However stale its reads, a login that completes by code was verified against the secret the user is enrolled with now. */
  lemma CompletedCodeMatchesCurrentSecret(codes: Codebook, s: State, steps: seq<Step>, id: Token)
    requires Initial(s) && Completing(After(codes, s, steps), id) && After(codes, s, steps).requests[id].Proving?
    ensures var now := After(codes, s, steps); var t := Completed(now, id);
            t.log != now.log ==>
              && t.log == now.log + [t.log[|now.log|]]
              && var entry := t.log[|now.log|];
              IsEnrolled(t, entry.user) && t.db.users[entry.user].secret == Some(entry.proof.secret)
              && InWindow(entry.proof.counter, entry.proof.at)
  {
    RunsKeepAll(codes, s, steps);
    var now := After(codes, s, steps);
    assert RequestInv(now, id);
    CompletedShape(now, id);
    if Completed(now, id).log != now.log {
      CompletedSecret(now, id, now.db.challenges[now.requests[id].token].user);
    }
  }

  // ---------- how many logins fit a period ----------

  /** The log positions of a user's code proofs within one enrolment whose request was made in time steps `from` to `to`. */
  function CodeLogins(log: seq<Entry>, user: UserId, enrolment: nat, from: int, to: int): set<int> {
    set i | 0 <= i < |log| && CodeEntry(log[i], user) && log[i].proof.enrolment == enrolment
            && from <= TimeStep(Unix(log[i].proof.at)) <= to
  }

  function CounterOf(log: seq<Entry>): int -> int {
    (i: int) => if 0 <= i < |log| && log[i].proof.ByCode? then log[i].proof.counter else 0
  }

  lemma LogBound(log: seq<Entry>, user: UserId, enrolment: nat, from: int, to: int)
    requires from <= to && EntriesInWindow(log)
    requires forall i, j | 0 <= i < j < |log| :: SameEnrolment(log[i], log[j]) && log[i].user == user
               ==> log[i].proof.counter < log[j].proof.counter
    ensures |CodeLogins(log, user, enrolment, from, to)| <= to - from + 3
  {
    var indices, value := CodeLogins(log, user, enrolment, from, to), CounterOf(log);
    forall i | i in indices
      ensures from - 1 <= value(i) < to + 2
    {
      assert InWindow(log[i].proof.counter, log[i].proof.at);
    }
    forall i, j | i in indices && j in indices && value(i) == value(j)
      ensures i == j
    {
      assert SameEnrolment(log[i], log[j]) && SameEnrolment(log[j], log[i]);
    }
    InjectionFits(indices, value, from - 1, to + 2);
  }

  /** One enrolment completes at most three more logins by code than the number of time steps they are spread over. */
  lemma CodeLoginsAreBounded(codes: Codebook, s: State, steps: seq<Step>, user: UserId, enrolment: nat, from: int, to: int)
    requires Initial(s) && from <= to
    ensures |CodeLogins(After(codes, s, steps).log, user, enrolment, from, to)| <= to - from + 3
  {
    RunsKeepAll(codes, s, steps);
    RunsKeepCounters(codes, s, steps, user);
    LogBound(After(codes, s, steps).log, user, enrolment, from, to);
  }

  // ---------- sessions and resets ----------

  predicate Issued(before: map<Token, Session>, s: State, token: Token) {
    token in s.db.sessions && token !in before ==>
      exists i | 0 <= i < |s.log| :: s.log[i].session == token && s.log[i].user == s.db.sessions[token].user
  }

  lemma StepKeepsIssued(codes: Codebook, before: map<Token, Session>, s: State, step: Step, token: Token)
    requires Issued(before, s, token)
    ensures Issued(before, Next(codes, s, step), token)
  {
    if step.Complete? {
      if Enabled(codes, s, step) {
        var t := Completed(s, step.id);
        CompletedShape(s, step.id);
        if t.log != s.log {
          assert t.log[|s.log|].session == step.id;
          assert t.db.sessions.Keys == s.db.sessions.Keys + {step.id};
          assert forall i | 0 <= i < |s.log| :: t.log[i] == s.log[i];
        }
      }
    } else {
      OtherStepCounter(codes, s, step, 0);
      assert Next(codes, s, step).db.sessions.Keys == s.db.sessions.Keys;
    }
  }

  /** Every session row that a run adds is accounted for in the log, and belongs to the user of its entry. */
  lemma {:induction false} SessionsComeFromTheLog(codes: Codebook, before: map<Token, Session>, s: State, steps: seq<Step>, token: Token)
    requires Issued(before, s, token)
    ensures Issued(before, After(codes, s, steps), token)
    decreases |steps|
  {
    if steps != [] {
      StepKeepsIssued(codes, before, s, steps[0], token);
      SessionsComeFromTheLog(codes, before, Next(codes, s, steps[0]), steps[1..], token);
    }
  }

  /** A token once drawn whose challenge is gone and not about to be stored. */
  predicate Gone(s: State, token: Token) {
    token in s.used && token !in s.db.challenges && !OpeningAt(s.requests, token)
  }

  lemma StepKeepsGone(codes: Codebook, s: State, step: Step, token: Token)
    requires Gone(s, token)
    ensures var t := Next(codes, s, step);
            && Gone(t, token) && |s.log| <= |t.log| && t.log[..|s.log|] == s.log
            && forall i | |s.log| <= i < |t.log| :: t.log[i].challenge != token
  {
    if step.Complete? {
      if Enabled(codes, s, step) {
        CompletedShape(s, step.id);
      }
    } else {
      OtherStepCounter(codes, s, step, 0);
    }
  }

  lemma {:induction false} GoneYieldsNothing(codes: Codebook, s: State, steps: seq<Step>, token: Token)
    requires Gone(s, token)
    ensures var t := After(codes, s, steps);
            |s.log| <= |t.log| && t.log[..|s.log|] == s.log && forall i | |s.log| <= i < |t.log| :: t.log[i].challenge != token
    decreases |steps|
  {
    if steps != [] {
      var t := Next(codes, s, steps[0]);
      StepKeepsGone(codes, s, steps[0], token);
      GoneYieldsNothing(codes, t, steps[1..], token);
      var end := After(codes, t, steps[1..]);
      assert end.log[..|s.log|] == end.log[..|t.log|][..|s.log|];
      assert forall i | |s.log| <= i < |t.log| :: end.log[i] == end.log[..|t.log|][i];
    }
  }

  predicate Resets(step: Step, user: UserId) {
    (step.TotpReset? || step.PasswordReset?) && step.user == user
  }

  /** A reset revokes the user's sessions and cuts off every challenge stored so far: none of them ever yields a session again. */
  lemma ResetCutsOff(codes: Codebook, s: State, user: UserId, reset: Step, steps: seq<Step>, token: Token)
    requires TokenInvAt(s, token) && Resettable(s.db, user) && Resets(reset, user)
    ensures var t := Next(codes, s, reset);
            && (forall k | k in t.db.sessions && t.db.sessions[k].user == user :: t.db.sessions[k].revoked)
            && (reset.PasswordReset? ==> t.db.users[user].password == reset.password)
            && (reset.TotpReset? ==> !IsEnrolled(t, user) && Last(t, user) == None && forall key | key in t.db.codes :: key.0 != user)
            && (token in s.db.challenges && s.db.challenges[token].user == user ==>
                  var end := After(codes, t, steps);
                  |s.log| <= |end.log| && forall i | |s.log| <= i < |end.log| :: end.log[i].challenge != token)
  {
    var t := Next(codes, s, reset);
    if token in s.db.challenges && s.db.challenges[token].user == user {
      assert Gone(t, token);
      GoneYieldsNothing(codes, t, steps, token);
    }
  }
}
