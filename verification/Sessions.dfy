/** The sliding lifetime of a browser session over whole runs of requests. */
module Sessions {
  import opened AuthTables

  const IDLE_TIMEOUT := 1_800_000_000_000
  const TOUCH_CADENCE := 300_000_000_000
  const SAFE_GAP := 1_500_000_000_000

  /** The row is visible to a request: not revoked, not expired, and its user is active. */
  predicate Visible(row: Session, active: bool, now: int) {
    !row.revoked && row.expiresAt > now && active
  }

  predicate Idle(row: Session, now: int) {
    now >= row.lastSeenAt + IDLE_TIMEOUT
  }

  predicate Accepted(row: Session, active: bool, now: int) {
    Visible(row, active, now) && !Idle(row, now)
  }

  /** An idle session is revoked on sight; an accepted request is recorded only when the last record is five minutes old. */
  function AfterRequest(row: Session, active: bool, now: int): Session {
    if !Visible(row, active, now) then row
    else if Idle(row, now) then row.(revoked := true)
    else if now >= row.lastSeenAt + TOUCH_CADENCE then row.(lastSeenAt := now)
    else row
  }

  class SessionStore {
    var rows: map<Token, Session>

    method RevokeSession(token: Token) returns (found: bool)
      modifies this
      ensures found == (token in old(rows) && !old(rows)[token].revoked)
      ensures rows == if found then old(rows)[token := old(rows)[token].(revoked := true)] else old(rows)
    {
      found := token in rows && !rows[token].revoked;
      if found {
        rows := rows[token := rows[token].(revoked := true)];
      }
    }

    method TouchSession(token: Token, now: int) returns (found: bool)
      modifies this
      ensures found == (token in old(rows) && !old(rows)[token].revoked && old(rows)[token].expiresAt > now)
      ensures rows == if found then old(rows)[token := old(rows)[token].(lastSeenAt := now)] else old(rows)
    {
      found := token in rows && !rows[token].revoked && rows[token].expiresAt > now;
      if found {
        rows := rows[token := rows[token].(lastSeenAt := now)];
      }
    }

    /** `active` is whether the session's user exists and is not disabled. A visible session is let through before it has
        been idle for 30 minutes, which revokes it; use is recorded once the last record is 5 minutes old. */
    method AuthenticateSession(token: Token, active: bool, now: int) returns (ok: bool)
      modifies this
      ensures
        if token !in old(rows) || old(rows)[token].revoked || old(rows)[token].expiresAt <= now || !active then
          !ok && rows == old(rows)
        else
          var row := old(rows)[token];
          if now - row.lastSeenAt >= 30 * 60_000_000_000 then !ok && rows == old(rows)[token := row.(revoked := true)]
          else ok && rows == old(rows)[token := row.(lastSeenAt := if now - row.lastSeenAt >= 5 * 60_000_000_000 then now else row.lastSeenAt)]
      ensures ok == (token in old(rows) && Accepted(old(rows)[token], active, now))
      ensures rows == if token in old(rows) then old(rows)[token := AfterRequest(old(rows)[token], active, now)] else old(rows)
    {
      if token !in rows || rows[token].revoked || rows[token].expiresAt <= now || !active {
        return false;
      }
      var row := rows[token];
      if now >= row.lastSeenAt + IDLE_TIMEOUT {
        var revoked := RevokeSession(token);
        return false;
      }
      if now >= row.lastSeenAt + TOUCH_CADENCE {
        var touched := TouchSession(token, now);
        if !touched {
          return false;
        }
      }
      return true;
    }
  }

  // ---------- whole runs ----------

  datatype Event = Request(now: int, active: bool) | Revoke

  function AfterEvent(row: Session, event: Event): Session {
    match event
    case Request(now, active) => AfterRequest(row, active, now)
    case Revoke => row.(revoked := true)
  }

  function AfterRun(row: Session, events: seq<Event>): Session
    decreases |events|
  {
    if events == [] then row else AfterRun(AfterEvent(row, events[0]), events[1..])
  }

  predicate AcceptedEvent(row: Session, event: Event) {
    event.Request? && Accepted(row, event.active, event.now)
  }

  /** The instants of the accepted requests of a run. */
  function AcceptedAt(row: Session, events: seq<Event>): set<int>
    decreases |events|
  {
    if events == [] then {}
    else (if AcceptedEvent(row, events[0]) then {events[0].now} else {}) + AcceptedAt(AfterEvent(row, events[0]), events[1..])
  }

  lemma {:induction false} LastSeenIsAccepted(row: Session, events: seq<Event>)
    ensures var after := AfterRun(row, events);
            && after.createdAt == row.createdAt && after.expiresAt == row.expiresAt && after.user == row.user
            && (after.lastSeenAt == row.lastSeenAt || after.lastSeenAt in AcceptedAt(row, events))
    decreases |events|
  {
    if events != [] {
      LastSeenIsAccepted(AfterEvent(row, events[0]), events[1..]);
    }
  }

  /** A request succeeds only before the absolute limit and within 30 minutes of the login or of an earlier successful request. */
  lemma SuccessNeedsRecentActivity(user: UserId, login: int, events: seq<Event>, now: int, active: bool)
    requires Accepted(AfterRun(NewSession(user, login), events), active, now)
    ensures active && now < login + SESSION_TTL
    ensures exists seen | seen in {login} + AcceptedAt(NewSession(user, login), events) :: now < seen + IDLE_TIMEOUT
  {
    LastSeenIsAccepted(NewSession(user, login), events);
    var seen := AfterRun(NewSession(user, login), events).lastSeenAt;
    assert seen in {login} + AcceptedAt(NewSession(user, login), events);
  }

  /** Requests of an active user, each at most 25 minutes after the one before it (the first after `from`), all before `limit`. */
  predicate Steady(events: seq<Event>, from: int, limit: int)
    decreases |events|
  {
    events == [] ||
    (&& events[0].Request? && events[0].active && from <= events[0].now <= from + SAFE_GAP && events[0].now < limit
     && Steady(events[1..], events[0].now, limit))
  }

  lemma {:induction false} SteadyFrom(row: Session, events: seq<Event>, from: int, k: nat)
    requires !row.revoked && row.lastSeenAt <= from < row.lastSeenAt + TOUCH_CADENCE
    requires Steady(events, from, row.expiresAt) && k < |events|
    ensures AcceptedEvent(AfterRun(row, events[..k]), events[k])
    decreases |events|
  {
    var next := AfterEvent(row, events[0]);
    if k > 0 {
      SteadyFrom(next, events[1..], events[0].now, k - 1);
      assert events[..k][1..] == events[1..][..k - 1];
    }
  }

  /** Despite the five-minute recording cadence, requests at most 25 minutes apart all succeed until the absolute limit. */
  lemma SteadyUseStaysValid(user: UserId, login: int, events: seq<Event>, k: nat)
    requires Steady(events, login, login + SESSION_TTL) && k < |events|
    ensures AcceptedEvent(AfterRun(NewSession(user, login), events[..k]), events[k])
  {
    SteadyFrom(NewSession(user, login), events, login, k);
  }

  /** 25 minutes is exact: with any longer gap there is a run in which an active user's second request is refused. */
  lemma LongerGapCanFail(user: UserId, login: int, gap: int)
    requires gap > SAFE_GAP
    ensures var first := login + TOUCH_CADENCE - 1;
            && AcceptedEvent(NewSession(user, login), Request(first, true))
            && !Accepted(AfterRun(NewSession(user, login), [Request(first, true)]), true, first + gap)
  {
    var row, first := NewSession(user, login), Request(login + TOUCH_CADENCE - 1, true);
    assert AfterRun(row, [first]) == AfterRun(AfterEvent(row, first), []);
  }

  predicate NotBefore(events: seq<Event>, from: int)
    decreases |events|
  {
    events == [] ||
    ((events[0].Request? ==> events[0].now >= from) && NotBefore(events[1..], if events[0].Request? then events[0].now else from))
  }

  lemma {:induction false} DeadStaysDead(row: Session, events: seq<Event>, from: int)
    requires (row.revoked || row.expiresAt <= from) && NotBefore(events, from)
    ensures AcceptedAt(row, events) == {}
    decreases |events|
  {
    if events != [] {
      DeadStaysDead(AfterEvent(row, events[0]), events[1..], if events[0].Request? then events[0].now else from);
    }
  }

  /** Refusing an active user's request, or revoking, ends the session for good under a clock that does not run back. */
  lemma RefusalIsFinal(row: Session, now: int, events: seq<Event>)
    requires !Accepted(row, true, now) && NotBefore(events, now)
    ensures AcceptedAt(AfterRequest(row, true, now), events) == {}
  {
    DeadStaysDead(AfterRequest(row, true, now), events, now);
  }

  lemma {:induction false} RevokedStaysRevoked(row: Session, events: seq<Event>)
    requires row.revoked
    ensures AcceptedAt(row, events) == {} && AfterRun(row, events).revoked
    decreases |events|
  {
    if events != [] {
      RevokedStaysRevoked(AfterEvent(row, events[0]), events[1..]);
    }
  }

  /** After a revocation nothing is accepted any more, whatever the clocks and requests. */
  lemma RevocationIsFinal(row: Session, events: seq<Event>)
    ensures AcceptedAt(AfterEvent(row, Revoke), events) == {} && AfterRun(AfterEvent(row, Revoke), events).revoked
  {
    RevokedStaysRevoked(AfterEvent(row, Revoke), events);
  }
}
