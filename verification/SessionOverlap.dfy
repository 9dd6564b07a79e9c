/** Which gaps between overlapping requests keep a session alive, and how a delayed request can end it. */
module SessionOverlap {
  import opened Durations
  import opened Maps
  import opened Integers
  import opened AuthTables
  import opened Sessions
  import opened SessionInterleavings

  // ---------- steady use by overlapping requests ----------

  /** Requests under way were read no earlier than `from`. */
  predicate ReadSince(s: State, from: int) {
    forall id | id in s.views :: s.views[id].now >= from
  }

  /** A step of steady use: a reading comes at most `gap` after the latest one and may be up to `delay` behind it, before
      the absolute limit and with every request under way at most `delay` older; requests that must record their use are
      not dropped, and nobody revokes the session or disables its user. */
  predicate SteadyStep(s: State, step: Step, latest: int, delay: nat, gap: int) {
    match step
    case Read(id, now) =>
      id in s.views
      || (latest - delay <= now <= latest + gap && now < s.row.expiresAt && ReadSince(s, now - delay))
    case Cancel(id) => id in s.views ==> !NeedsTouch(s.views[id])
    case RevokeSession => false
    case SetActive(active) => active
    case _ => true
  }

  function Latest(s: State, step: Step, latest: int): int {
    if step.Read? && step.id !in s.views then Max(latest, step.now) else latest
  }

  predicate SteadyRun(s: State, steps: seq<Step>, latest: int, delay: nat, gap: int)
    decreases |steps|
  {
    steps == [] ||
    (SteadyStep(s, steps[0], latest, delay, gap) && SteadyRun(Next(s, steps[0]), steps[1..], Latest(s, steps[0], latest), delay, gap))
  }

  function LatestOf(s: State, steps: seq<Step>, latest: int): int
    decreases |steps|
  {
    if steps == [] then latest else LatestOf(Next(s, steps[0]), steps[1..], Latest(s, steps[0], latest))
  }

  /** How far the latest reading can be ahead of the record with nobody about to renew it. */
  function Lead(delay: nat): int {
    Max(TOUCH_CADENCE - 1, delay)
  }

  /** The gaps that are safe for a delay: at most 25 minutes less the delay, while that is under five minutes. */
  predicate Safe(delay: nat, gap: int) {
    gap + delay + Lead(delay) < IDLE_TIMEOUT
  }

  lemma SafeGaps(delay: nat, gap: int)
    ensures delay < TOUCH_CADENCE ==> (Safe(delay, gap) <==> gap <= SAFE_GAP - delay)
    ensures delay >= TOUCH_CADENCE ==> (Safe(delay, gap) <==> gap < IDLE_TIMEOUT - 2 * delay)
  {
  }

  predicate ViewInv(s: State, v: View, latest: int, delay: nat) {
    latest - delay <= v.now < s.row.expiresAt && !IsIdle(v)
  }

  /** The request will renew the record, and in time for every reading it may still overlap. */
  predicate Renews(s: State, id: nat, delay: nat) {
    id in s.views && NeedsTouch(s.views[id]) && s.views[id].now < s.row.lastSeenAt + IDLE_TIMEOUT - delay
  }

  ghost predicate OverlapInv(s: State, latest: int, delay: nat) {
    && !s.row.revoked && s.active
    && (forall id | id in s.views :: ViewInv(s, s.views[id], latest, delay))
    && (latest <= s.row.lastSeenAt + Lead(delay) || exists id :: Renews(s, id, delay))
  }

  lemma ReadIsInTime(s: State, latest: int, id: nat, now: int, delay: nat, gap: int)
    requires Safe(delay, gap) && OverlapInv(s, latest, delay) && id !in s.views
    requires SteadyStep(s, Read(id, now), latest, delay, gap)
    ensures now < s.row.lastSeenAt + IDLE_TIMEOUT
    ensures now <= s.row.lastSeenAt + Lead(delay) || now < s.row.lastSeenAt + IDLE_TIMEOUT - delay || exists r :: Renews(s, r, delay)
  {
    if latest > s.row.lastSeenAt + Lead(delay) {
      var r :| Renews(s, r, delay);
      assert s.views[r].now >= now - delay;
    }
  }

  lemma ReadKeepsOverlapInv(s: State, latest: int, id: nat, now: int, delay: nat, gap: int)
    requires Safe(delay, gap) && OverlapInv(s, latest, delay) && id !in s.views
    requires SteadyStep(s, Read(id, now), latest, delay, gap)
    ensures OverlapInv(Next(s, Read(id, now)), Max(latest, now), delay)
  {
    var t := Next(s, Read(id, now));
    ReadIsInTime(s, latest, id, now, delay, gap);
    assert t == s.(views := s.views[id := View(now, s.row.lastSeenAt, false)]);
    if r :| Renews(s, r, delay) {
      assert Renews(t, r, delay);
    } else if now > s.row.lastSeenAt + Lead(delay) {
      assert Renews(t, id, delay);
    }
  }

  lemma OtherStepKeepsOverlapInv(s: State, latest: int, step: Step, delay: nat, gap: int)
    requires OverlapInv(s, latest, delay) && SteadyStep(s, step, latest, delay, gap) && !step.Read?
    ensures OverlapInv(Next(s, step), latest, delay)
  {
    var t := Next(s, step);
    if step.Accept? && Enabled(s, step) && NeedsTouch(s.views[step.id]) {
      assert ViewInv(s, s.views[step.id], latest, delay);
    } else if r :| Renews(s, r, delay) {
      assert Renews(t, r, delay);
    }
  }

  lemma {:induction false} SteadyRunKeepsInv(s: State, steps: seq<Step>, latest: int, delay: nat, gap: int)
    requires Safe(delay, gap) && OverlapInv(s, latest, delay) && SteadyRun(s, steps, latest, delay, gap)
    ensures OverlapInv(After(s, steps), LatestOf(s, steps, latest), delay)
    decreases |steps|
  {
    if steps != [] {
      if steps[0].Read? && steps[0].id !in s.views {
        ReadKeepsOverlapInv(s, latest, steps[0].id, steps[0].now, delay, gap);
      } else if !steps[0].Read? {
        OtherStepKeepsOverlapInv(s, latest, steps[0], delay, gap);
      }
      SteadyRunKeepsInv(Next(s, steps[0]), steps[1..], Latest(s, steps[0], latest), delay, gap);
    }
  }

  /** Steady use by overlapping requests keeps a session alive until the absolute limit, however their statements
      interleave: no request ever finds it idle, none is turned away at its touch or its role, and the next one is seen. */
  lemma OverlappingUseStaysValid(user: UserId, login: int, steps: seq<Step>, delay: nat, gap: int, id: nat, now: int)
    requires Safe(delay, gap) && SteadyRun(LoggedIn(user, login), steps, login, delay, gap)
    ensures var s := After(LoggedIn(user, login), steps);
      && !Enabled(s, RevokeIdle(id))
      && (Enabled(s, Accept(id)) ==> LetsThrough(s, id))
      && (Enabled(s, ReadRole(id)) ==> Enabled(Next(s, ReadRole(id)), Accept(id)))
      && (id !in s.views && SteadyStep(s, Read(id, now), LatestOf(LoggedIn(user, login), steps, login), delay, gap) ==>
            Enabled(Next(s, Read(id, now)), ReadRole(id)))
  {
    SteadyRunKeepsInv(LoggedIn(user, login), steps, login, delay, gap);
    var s, latest := After(LoggedIn(user, login), steps), LatestOf(LoggedIn(user, login), steps, login);
    if id in s.views {
      assert ViewInv(s, s.views[id], latest, delay);
    } else if SteadyStep(s, Read(id, now), latest, delay, gap) {
      ReadIsInTime(s, latest, id, now, delay, gap);
    }
  }

  // ---------- the gaps are exact ----------

  /** After a run the request of some id finds the session idle. */
  predicate EndsIdle(s: State, steps: seq<Step>, id: nat) {
    Enabled(After(s, steps), RevokeIdle(id))
  }

  /** A steady run that ends in a given state, with a given latest reading. */
  predicate Leads(s: State, steps: seq<Step>, latest: int, delay: nat, gap: int, end: State, last: int) {
    SteadyRun(s, steps, latest, delay, gap) && After(s, steps) == end && LatestOf(s, steps, latest) == last
  }

  lemma StepThen(s: State, step: Step, rest: seq<Step>, latest: int, delay: nat, gap: int, end: State, last: int)
    requires SteadyStep(s, step, latest, delay, gap)
    requires Leads(Next(s, step), rest, Latest(s, step, latest), delay, gap, end, last)
    ensures Leads(s, [step] + rest, latest, delay, gap, end, last)
  {
    assert ([step] + rest)[0] == step && ([step] + rest)[1..] == rest;
  }

  lemma {:induction false} ThenStep(s: State, steps: seq<Step>, step: Step, latest: int, delay: nat, gap: int, mid: State, last: int)
    requires Leads(s, steps, latest, delay, gap, mid, last) && SteadyStep(mid, step, last, delay, gap)
    ensures Leads(s, steps + [step], latest, delay, gap, Next(mid, step), Latest(mid, step, last))
    decreases |steps|
  {
    if steps == [] {
      assert steps + [step] == [step] && [step][1..] == [];
    } else {
      assert (steps + [step])[0] == steps[0] && (steps + [step])[1..] == steps[1..] + [step];
      ThenStep(Next(s, steps[0]), steps[1..], step, Latest(s, steps[0], latest), delay, gap, mid, last);
    }
  }

  /** Two requests from the login on, the first of them recorded last: a state with no request under way. */
  function RecordedLate(user: UserId, login: int, first: int, second: int): State {
    State(NewSession(user, login).(lastSeenAt := first), true, map[], {first, second})
  }

  /** The first request reads, the second reads and is let through, and then the first touches. */
  function LateTouch(first: int, second: int): seq<Step> {
    [Read(0, first), ReadRole(0), Read(1, second), ReadRole(1), Accept(1), Accept(0)]
  }

  function BothRead(user: UserId, login: int, first: int, second: int, checked: bool): State {
    State(NewSession(user, login), true, map[0 := View(first, login, true), 1 := View(second, login, checked)], {})
  }

  lemma BothReadLeads(user: UserId, login: int, first: int, second: int, delay: nat, gap: int)
    requires login + TOUCH_CADENCE <= first <= second < login + IDLE_TIMEOUT
    requires first - login <= gap && second - first <= gap && second - first <= delay
    ensures Leads(LoggedIn(user, login), LateTouch(first, second)[..4], login, delay, gap,
                  BothRead(user, login, first, second, true), second)
  {
    var s0 := LoggedIn(user, login);
    var s2 := s0.(views := map[0 := View(first, login, true)]);
    assert Next(Next(s0, Read(0, first)), ReadRole(0)) == s2;
    var s3, s4 := BothRead(user, login, first, second, false), BothRead(user, login, first, second, true);
    assert Next(s2, Read(1, second)) == s3 && Next(s3, ReadRole(1)) == s4;
    var last, rest := [ReadRole(1)], [Read(1, second), ReadRole(1)];
    var steps := [ReadRole(0), Read(1, second), ReadRole(1)];
    assert last == [ReadRole(1)] + [] && rest == [Read(1, second)] + last && steps == [ReadRole(0)] + rest;
    assert LateTouch(first, second)[..4] == [Read(0, first)] + steps;
    StepThen(s3, ReadRole(1), [], second, delay, gap, s4, second);
    StepThen(s2, Read(1, second), last, first, delay, gap, s4, second);
    StepThen(Next(s0, Read(0, first)), ReadRole(0), rest, first, delay, gap, s4, second);
    StepThen(s0, Read(0, first), steps, login, delay, gap, s4, second);
  }

  lemma LateTouchLeads(user: UserId, login: int, first: int, second: int, delay: nat, gap: int)
    requires login + TOUCH_CADENCE <= first <= second < login + IDLE_TIMEOUT
    requires first - login <= gap && second - first <= gap && second - first <= delay
    ensures Leads(LoggedIn(user, login), LateTouch(first, second)[..5], login, delay, gap,
                  State(NewSession(user, login).(lastSeenAt := second), true, map[0 := View(first, login, true)], {second}), second)
    ensures Leads(LoggedIn(user, login), LateTouch(first, second), login, delay, gap, RecordedLate(user, login, first, second), second)
  {
    var s0, s4 := LoggedIn(user, login), BothRead(user, login, first, second, true);
    var s5 := State(s0.row.(lastSeenAt := second), true, map[0 := View(first, login, true)], {second});
    var steps := LateTouch(first, second);
    assert Without(s4.views, 1) == s5.views && Next(s4, Accept(1)) == s5;
    assert Without(s5.views, 0) == map[] && {second} + {first} == {first, second};
    assert Next(s5, Accept(0)) == RecordedLate(user, login, first, second);
    BothReadLeads(user, login, first, second, delay, gap);
    ThenStep(s0, steps[..4], Accept(1), login, delay, gap, s4, second);
    assert steps[..5] == steps[..4] + [Accept(1)];
    ThenStep(s0, steps[..5], Accept(0), login, delay, gap, s5, second);
    assert steps == steps[..5] + [Accept(0)];
  }

  /** A delayed touch can end a session in use: of two requests read six and twenty minutes after the login the second is
      let through first, so the recorded use goes from twenty minutes back to six, and a request seventeen minutes after
      one that was let through finds the session idle. */
  lemma LateTouchEndsASessionInUse(user: UserId, login: int)
    ensures var start, steps := LoggedIn(user, login), LateTouch(login + 6 * MINUTE, login + 20 * MINUTE);
      && After(start, steps[..5]).row.lastSeenAt == login + 20 * MINUTE
      && After(start, steps).row.lastSeenAt == login + 6 * MINUTE
      && After(start, steps).accepted == {login + 6 * MINUTE, login + 20 * MINUTE}
      && Enabled(Next(After(start, steps), Read(2, login + 37 * MINUTE)), RevokeIdle(2))
  {
    LateTouchLeads(user, login, login + 6 * MINUTE, login + 20 * MINUTE, 14 * MINUTE, 14 * MINUTE);
  }

  /** A delay below five minutes: the last reading that needs no record, one that still waits to make it, and one that far
      behind the wait. */
  lemma ShortDelayFails(user: UserId, login: int, delay: nat, gap: int) returns (steps: seq<Step>)
    requires !Safe(delay, gap) && delay < TOUCH_CADENCE
    ensures SteadyRun(LoggedIn(user, login), steps, login, delay, gap) && EndsIdle(LoggedIn(user, login), steps, 2)
  {
    var s0, first := LoggedIn(user, login), login + TOUCH_CADENCE - 1;
    var s2 := s0.(views := map[0 := View(first, login, true)]);
    var s3, second := s0.(accepted := {first}), login + IDLE_TIMEOUT - delay;
    var s4 := s3.(views := map[1 := View(second, login, false)]);
    assert Next(Next(s0, Read(0, first)), ReadRole(0)) == s2;
    assert Without(s2.views, 0) == map[] && {} + {first} == {first} && Next(s2, Accept(0)) == s3;
    assert Next(s3, Read(1, second)) == s4;
    var end, last := Next(s4, Read(2, login + IDLE_TIMEOUT)), login + IDLE_TIMEOUT;
    StepThen(s4, Read(2, last), [], second, delay, gap, end, last);
    StepThen(s3, Read(1, second), [Read(2, last)], first, delay, gap, end, last);
    StepThen(s2, Accept(0), [Read(1, second), Read(2, last)], first, delay, gap, end, last);
    StepThen(Next(s0, Read(0, first)), ReadRole(0), [Accept(0), Read(1, second), Read(2, last)], first, delay, gap, end, last);
    StepThen(s0, Read(0, first), [ReadRole(0), Accept(0), Read(1, second), Read(2, last)], login, delay, gap, end, last);
    steps := [Read(0, first), ReadRole(0), Accept(0), Read(1, second), Read(2, last)];
  }

  // Longer delays may exceed the gap, so other requests have to come in between.

  lemma AnsweredAtOnce(s: State, id: nat, now: int)
    requires id !in s.views && Visible(s.row, s.active, now) && !Idle(s.row, now)
    ensures var read := Next(s, Read(id, now));
      var checked := Next(read, ReadRole(id));
      && read.row == s.row && read.active && read.views == s.views[id := View(now, s.row.lastSeenAt, false)]
      && checked.row == s.row && checked.active && checked.views == s.views[id := View(now, s.row.lastSeenAt, true)]
      && Next(checked, Accept(id)) == s.(row := AfterRequest(s.row, s.active, now), accepted := s.accepted + {now})
  {
    assert Without(s.views[id := View(now, s.row.lastSeenAt, true)], id) == s.views;
  }

  /** Requests answered at once, from one reading to a later one: they leave those under way alone and keep the record
      from falling behind `base`. */
  lemma {:induction false} FillAnswered(s: State, from: int, until: int, id: nat, base: int, delay: nat, gap: int)
    returns (steps: seq<Step>, end: State)
    requires gap >= 1 && from <= until < base + IDLE_TIMEOUT && base <= s.row.lastSeenAt && base <= from
    requires !s.row.revoked && s.active && until < s.row.expiresAt && id !in s.views && ReadSince(s, until - delay)
    ensures Leads(s, steps, from, delay, gap, end, until)
    ensures end.views == s.views && end.active && base <= end.row.lastSeenAt
    ensures end.row == s.row.(lastSeenAt := end.row.lastSeenAt)
    ensures until < s.row.lastSeenAt + TOUCH_CADENCE ==> end.row == s.row
    decreases until - from
  {
    if from == until {
      steps, end := [], s;
    } else {
      var now := Min(from + gap, until);
      var read := Next(s, Read(id, now));
      var checked := Next(read, ReadRole(id));
      var mid := Next(checked, Accept(id));
      AnsweredAtOnce(s, id, now);
      var rest;
      rest, end := FillAnswered(mid, now, until, id, base, delay, gap);
      StepThen(checked, Accept(id), rest, now, delay, gap, end, until);
      StepThen(read, ReadRole(id), [Accept(id)] + rest, now, delay, gap, end, until);
      StepThen(s, Read(id, now), [ReadRole(id)] + ([Accept(id)] + rest), from, delay, gap, end, until);
      steps := [Read(id, now)] + ([ReadRole(id)] + ([Accept(id)] + rest));
    }
  }

  /** Requests left under way, up to one that comes 30 minutes after the record. */
  lemma {:induction false} FillHeld(s: State, from: int, id: nat, delay: nat, gap: int) returns (steps: seq<Step>, last: nat)
    requires var until := s.row.lastSeenAt + IDLE_TIMEOUT;
      gap >= 1 && until - delay <= from < until < s.row.expiresAt && ReadSince(s, until - delay)
    requires !s.row.revoked && s.active && forall k | k in s.views :: k < id
    ensures SteadyRun(s, steps, from, delay, gap) && EndsIdle(s, steps, last)
    decreases s.row.lastSeenAt + IDLE_TIMEOUT - from
  {
    var until := s.row.lastSeenAt + IDLE_TIMEOUT;
    var now := Min(from + gap, until);
    var next := Next(s, Read(id, now));
    assert next == s.(views := s.views[id := View(now, s.row.lastSeenAt, false)]);
    if now == until {
      steps, last := [Read(id, now)], id;
      assert steps[1..] == [];
    } else {
      var rest;
      rest, last := FillHeld(next, now, id + 1, delay, gap);
      steps := [Read(id, now)] + rest;
      assert steps[0] == Read(id, now) && steps[1..] == rest;
    }
  }

  lemma {:induction false} Joined(s: State, steps: seq<Step>, latest: int, delay: nat, gap: int, mid: State, last: int, rest: seq<Step>, id: nat)
    requires Leads(s, steps, latest, delay, gap, mid, last) && SteadyRun(mid, rest, last, delay, gap) && EndsIdle(mid, rest, id)
    ensures SteadyRun(s, steps + rest, latest, delay, gap) && EndsIdle(s, steps + rest, id)
    decreases |steps|
  {
    if steps == [] {
      assert steps + rest == rest;
    } else {
      assert (steps + rest)[0] == steps[0] && (steps + rest)[1..] == steps[1..] + rest;
      Joined(Next(s, steps[0]), steps[1..], Latest(s, steps[0], latest), delay, gap, mid, last, rest, id);
    }
  }

  lemma {:induction false} Chain(s: State, a: seq<Step>, b: seq<Step>, latest: int, delay: nat, gap: int, mid: State, at: int, end: State, last: int)
    requires Leads(s, a, latest, delay, gap, mid, at) && Leads(mid, b, at, delay, gap, end, last)
    ensures Leads(s, a + b, latest, delay, gap, end, last)
    decreases |a|
  {
    if a == [] {
      assert a + b == b;
    } else {
      assert (a + b)[0] == a[0] && (a + b)[1..] == a[1..] + b;
      Chain(Next(s, a[0]), a[1..], b, Latest(s, a[0], latest), delay, gap, mid, at, end, last);
    }
  }

  /** A request that reads five minutes after the login and touches only after another reading up to `delay` later. */
  lemma RecordedBehind(user: UserId, login: int, delay: nat, gap: int) returns (steps: seq<Step>, end: State, latest: int)
    requires gap >= 1
    ensures latest == Min(login + TOUCH_CADENCE + delay, login + IDLE_TIMEOUT - 1)
    ensures Leads(LoggedIn(user, login), steps, login, delay, gap, end, latest)
    ensures end.views == map[] && end.active && end.row == NewSession(user, login).(lastSeenAt := login + TOUCH_CADENCE)
  {
    var start, first := LoggedIn(user, login), login + TOUCH_CADENCE;
    latest := Min(first + delay, login + IDLE_TIMEOUT - 1);
    var s1, s4, more;
    steps, s1 := FillAnswered(start, login, first - 1, 0, login, delay, gap);
    ThenStep(start, steps, Read(0, first), login, delay, gap, s1, first - 1);
    var s2 := Next(s1, Read(0, first));
    ThenStep(start, steps + [Read(0, first)], ReadRole(0), login, delay, gap, s2, first);
    var s3 := Next(s2, ReadRole(0));
    assert s3.views == map[0 := View(first, login, true)];
    steps := steps + [Read(0, first)] + [ReadRole(0)];
    more, s4 := FillAnswered(s3, first, latest, 1, login, delay, gap);
    Chain(start, steps, more, login, delay, gap, s3, first, s4, latest);
    ThenStep(start, steps + more, Accept(0), login, delay, gap, s4, latest);
    end := Next(s4, Accept(0));
    assert Without(s4.views, 0) == map[];
    steps := steps + more + [Accept(0)];
  }

  /** A delay of five minutes or more: the record is left that far behind, and then one more request waits that long. */
  lemma LongDelayFails(user: UserId, login: int, delay: nat, gap: int) returns (steps: seq<Step>, id: nat)
    requires !Safe(delay, gap) && delay >= TOUCH_CADENCE && gap >= 1
    ensures SteadyRun(LoggedIn(user, login), steps, login, delay, gap) && EndsIdle(LoggedIn(user, login), steps, id)
  {
    var start, first := LoggedIn(user, login), login + TOUCH_CADENCE;
    var mid, latest;
    steps, mid, latest := RecordedBehind(user, login, delay, gap);
    if latest < first + IDLE_TIMEOUT - delay {
      var waits := Read(0, first + IDLE_TIMEOUT - delay);
      ThenStep(start, steps, waits, login, delay, gap, mid, latest);
      steps, mid, latest := steps + [waits], Next(mid, waits), waits.now;
    }
    var rest;
    rest, id := FillHeld(mid, latest, 1, delay, gap);
    Joined(start, steps, login, delay, gap, mid, latest, rest, id);
    steps := steps + rest;
  }

  /** With no gap at all no reading passes the login, and nothing is ever recorded. */
  predicate NothingRecorded(s: State, login: int) {
    s.row.lastSeenAt == login && forall id | id in s.views :: s.views[id].now <= login && s.views[id].lastSeen == login
  }

  lemma {:induction false} NoGapRecordsNothing(s: State, steps: seq<Step>, login: int, latest: int, delay: nat, gap: int)
    requires gap <= 0 && latest <= login && NothingRecorded(s, login) && SteadyRun(s, steps, latest, delay, gap)
    ensures NothingRecorded(After(s, steps), login)
    decreases |steps|
  {
    if steps != [] {
      NoGapRecordsNothing(Next(s, steps[0]), steps[1..], login, Latest(s, steps[0], latest), delay, gap);
    }
  }

  /** The safe gaps are exact: for every delay and every positive gap, steady use never finds the session idle if and only
      if the gap is safe. */
  lemma SafeExactly(user: UserId, login: int, delay: nat, gap: int)
    ensures Safe(delay, gap) || gap <= 0
            <==> forall steps: seq<Step>, id: nat | SteadyRun(LoggedIn(user, login), steps, login, delay, gap) ::
                   !EndsIdle(LoggedIn(user, login), steps, id)
  {
    var start := LoggedIn(user, login);
    if Safe(delay, gap) || gap <= 0 {
      forall steps: seq<Step>, id: nat | SteadyRun(start, steps, login, delay, gap)
        ensures !EndsIdle(start, steps, id)
      {
        if Safe(delay, gap) {
          OverlappingUseStaysValid(user, login, steps, delay, gap, id, 0);
        } else {
          NoGapRecordsNothing(start, steps, login, login, delay, gap);
        }
      }
    } else if delay < TOUCH_CADENCE {
      var steps := ShortDelayFails(user, login, delay, gap);
      assert EndsIdle(start, steps, 2);
    } else {
      var steps, id := LongDelayFails(user, login, delay, gap);
      assert EndsIdle(start, steps, id);
    }
  }
}
