/** What each statement of a request on a session does, with the limits of thirty and five minutes written out. */
module SessionSteps {
  import opened SessionInterleavings

  predicate Waiting(s: State, id: nat) {
    id in s.views && !s.views[id].checked
  }

  predicate IdleFor(v: View, minutes: int) {
    v.now - v.lastSeen >= minutes * 60 * 1_000_000_000
  }

  function OthersOf(views: map<nat, View>, id: nat): map<nat, View> {
    map k | k in views && k != id :: views[k]
  }

  /** A new request sees a session that is not revoked and not expired, of an active user, with its last use. */
  lemma ReadExactly(s: State, id: nat, now: int)
    ensures Next(s, Read(id, now))
            == if id !in s.views && !s.row.revoked && now < s.row.expiresAt && s.active
               then s.(views := s.views[id := View(now, s.row.lastSeenAt, false)]) else s
  {
  }

  /** A request that saw the session idle for thirty minutes revokes it and is over; any other goes on to the role, if
      the user is still active. */
  lemma CheckExactly(s: State, id: nat)
    ensures Next(s, RevokeIdle(id))
            == if Waiting(s, id) && IdleFor(s.views[id], 30)
               then s.(row := s.row.(revoked := true), views := OthersOf(s.views, id)) else s
    ensures Next(s, ReadRole(id))
            == if !Waiting(s, id) || IdleFor(s.views[id], 30) then s
               else if s.active then s.(views := s.views[id := View(s.views[id].now, s.views[id].lastSeen, true)])
               else s.(views := OthersOf(s.views, id))
  {
  }

  /** A checked request is let through and recorded if it saw a last use five minutes old, for which the session must still
      be neither revoked nor expired at the reading of the request. */
  lemma AcceptExactly(s: State, id: nat)
    ensures var t := Next(s, Accept(id));
      if id in s.views && s.views[id].checked then
        var now, touches := s.views[id].now, IdleFor(s.views[id], 5);
        var through := !touches || (!s.row.revoked && now < s.row.expiresAt);
        t == State(if touches && through then s.row.(lastSeenAt := now) else s.row, s.active, OthersOf(s.views, id),
                   if through then s.accepted + {now} else s.accepted)
      else t == s
  {
  }

  /** A cancelled request is over, a revocation marks the session alone, and a user's state changes nothing else. */
  lemma OtherStepsExactly(s: State, id: nat, active: bool)
    ensures Next(s, Cancel(id)) == if id in s.views then s.(views := OthersOf(s.views, id)) else s
    ensures Next(s, RevokeSession) == s.(row := s.row.(revoked := true))
    ensures Next(s, SetActive(active)) == s.(active := active)
  {
  }
}
