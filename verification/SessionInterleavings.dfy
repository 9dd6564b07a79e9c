/** One session under concurrent requests, whose reads and writes are separate statements. */
module SessionInterleavings {
  import opened Maps
  import opened AuthTables
  import opened Sessions

  /** A request after its session was read: its clock reading, the last use it saw, and whether the role was read too. */
  datatype View = View(now: int, lastSeen: int, checked: bool)

  /** `accepted` collects the clock readings of the requests let through so far. */
  datatype State = State(row: Session, active: bool, views: map<nat, View>, accepted: set<int>)

  datatype Step =
    | Read(id: nat, now: int)
    | RevokeIdle(id: nat)
    | ReadRole(id: nat)
    | Accept(id: nat)
    | Cancel(id: nat)
    | RevokeSession
    | SetActive(active: bool)

  predicate IsIdle(v: View) {
    v.now >= v.lastSeen + IDLE_TIMEOUT
  }

  predicate NeedsTouch(v: View) {
    v.now >= v.lastSeen + TOUCH_CADENCE
  }

  predicate Enabled(s: State, step: Step) {
    match step
    case Read(id, _) => id !in s.views
    case RevokeIdle(id) => id in s.views && !s.views[id].checked && IsIdle(s.views[id])
    case ReadRole(id) => id in s.views && !s.views[id].checked && !IsIdle(s.views[id])
    case Accept(id) => id in s.views && s.views[id].checked
    case Cancel(id) => id in s.views
    case RevokeSession => true
    case SetActive(_) => true
  }

  /** A request that needs no touch is let through; any other only if the touch finds the session unrevoked and unexpired. */
  predicate LetsThrough(s: State, id: nat)
    requires id in s.views
  {
    !NeedsTouch(s.views[id]) || (!s.row.revoked && s.row.expiresAt > s.views[id].now)
  }

  function Effect(s: State, step: Step): State
    requires Enabled(s, step)
  {
    match step
    case Read(id, now) =>
      if Visible(s.row, s.active, now) then s.(views := s.views[id := View(now, s.row.lastSeenAt, false)]) else s
    case RevokeIdle(id) => s.(row := s.row.(revoked := true), views := Without(s.views, id))
    case ReadRole(id) =>
      if s.active then s.(views := s.views[id := s.views[id].(checked := true)]) else s.(views := Without(s.views, id))
    case Accept(id) =>
      var v, rest := s.views[id], s.(views := Without(s.views, id));
      if !LetsThrough(s, id) then rest
      else rest.(row := if NeedsTouch(v) then s.row.(lastSeenAt := v.now) else s.row, accepted := s.accepted + {v.now})
    case Cancel(id) => s.(views := Without(s.views, id))
    case RevokeSession => s.(row := s.row.(revoked := true))
    case SetActive(active) => s.(active := active)
  }

  function Next(s: State, step: Step): State {
    if Enabled(s, step) then Effect(s, step) else s
  }

  function After(s: State, steps: seq<Step>): State
    decreases |steps|
  {
    if steps == [] then s else After(Next(s, steps[0]), steps[1..])
  }

  function LoggedIn(user: UserId, login: int): State {
    State(NewSession(user, login), true, map[], {})
  }

  /** Every recorded or seen last use is the login or an accepted request, and seen requests were before the limit. */
  predicate Inv(s: State, login: int, id: nat) {
    && s.row.expiresAt == login + SESSION_TTL
    && s.row.lastSeenAt in {login} + s.accepted
    && (id in s.views ==>
          && s.views[id].now < login + SESSION_TTL && s.views[id].lastSeen in {login} + s.accepted
          && (s.views[id].checked ==> !IsIdle(s.views[id])))
  }

  lemma StepKeepsInv(s: State, login: int, step: Step, id: nat)
    requires Inv(s, login, id) && (step.Accept? ==> Inv(s, login, step.id))
    ensures Inv(Next(s, step), login, id)
  {
  }

  lemma {:induction false} RunsKeepInv(s: State, login: int, steps: seq<Step>)
    requires forall id: nat :: Inv(s, login, id)
    ensures forall id: nat :: Inv(After(s, steps), login, id)
    decreases |steps|
  {
    if steps != [] {
      forall id: nat
        ensures Inv(Next(s, steps[0]), login, id)
      {
        if steps[0].Accept? {
          assert Inv(s, login, steps[0].id);
        }
        StepKeepsInv(s, login, steps[0], id);
      }
      RunsKeepInv(Next(s, steps[0]), login, steps[1..]);
    }
  }

  /** Over all interleavings and whatever the clocks: a request is let through only if its reading is before the absolute
      limit and within 30 minutes of the login or of a request let through earlier. */
  lemma AcceptedRequestsAreRecent(user: UserId, login: int, steps: seq<Step>, id: nat)
    requires var s := After(LoggedIn(user, login), steps); Enabled(s, Accept(id)) && LetsThrough(s, id)
    ensures var s := After(LoggedIn(user, login), steps); var now := s.views[id].now;
            now < login + SESSION_TTL && exists seen | seen in {login} + s.accepted :: now < seen + IDLE_TIMEOUT
  {
    RunsKeepInv(LoggedIn(user, login), login, steps);
    var s := After(LoggedIn(user, login), steps);
    assert Inv(s, login, id);
    assert s.views[id].lastSeen in {login} + s.accepted;
  }

  /** A request under way outlasts a revocation exactly if it needs no touch, and no new one gets past its read. */
  lemma RevocationStopsTheRest(s: State, id: nat, later: nat, now: int)
    requires Enabled(s, Accept(id)) && later !in s.views && s.row.expiresAt > s.views[id].now
    ensures var t := Next(s, RevokeSession);
            (LetsThrough(t, id) <==> !NeedsTouch(t.views[id])) && later !in Next(t, Read(later, now)).views
  {
  }

  /** The recorded last use runs back exactly when a touch goes through whose reading is older than the record. */
  lemma UseRunsBackIff(s: State, step: Step)
    ensures Next(s, step).row.lastSeenAt < s.row.lastSeenAt
            <==> && step.Accept? && Enabled(s, step) && LetsThrough(s, step.id) && NeedsTouch(s.views[step.id])
                 && s.views[step.id].now < s.row.lastSeenAt
    ensures Next(s, step).row.lastSeenAt < s.row.lastSeenAt ==> Next(s, step).row.lastSeenAt == s.views[step.id].now
  {
  }

  /** Statements of one request with no other in between do exactly what the request does as a whole. */
  lemma UndisturbedRequestIsAtomic(s: State, id: nat, now: int)
    requires s.views == map[]
    ensures var read := Next(s, Read(id, now));
      if !Visible(s.row, s.active, now) then read == s && !Accepted(s.row, s.active, now)
      else if Enabled(read, RevokeIdle(id)) then
        && Next(read, RevokeIdle(id)).row == AfterRequest(s.row, s.active, now) && !Accepted(s.row, s.active, now)
        && Next(read, RevokeIdle(id)).accepted == s.accepted && Next(read, RevokeIdle(id)).views == map[]
      else
        var done := Next(Next(read, ReadRole(id)), Accept(id));
        && done.row == AfterRequest(s.row, s.active, now) && Accepted(s.row, s.active, now)
        && done.accepted == s.accepted + {now} && done.views == map[]
  {
  }
}
