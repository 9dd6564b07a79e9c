/** Which requests under way outlast a reset or a disable of their user. */
module SecondFactorRaces {
  import opened AuthTables
  import opened SecondFactor
  import opened SecondFactorRuns
  import opened SecondFactorCounters

  /** Would the request's transaction commit on these tables? */
  predicate Commits(db: Tables, id: Token, request: Request)
    requires request.Proving? || request.Recovering? || request.Enrolling?
  {
    Transaction(db, id, request).Some?
  }

  predicate ForUser(db: Tables, token: Token, user: UserId) {
    token in db.challenges && db.challenges[token].user == user
  }

  lemma OtherUsersKeepTables(codes: Codebook, s: State, user: UserId, reset: Step, token: Token)
    requires Resets(reset, user) && token in s.db.challenges && s.db.challenges[token].user != user
    ensures var db, after := s.db, Next(codes, s, reset).db;
      var other := db.challenges[token].user;
      && token in after.challenges && after.challenges[token] == db.challenges[token]
      && (other in after.users <==> other in db.users) && (other in db.users ==> after.users[other] == db.users[other])
      && after.sessions.Keys == db.sessions.Keys && after.spent == db.spent
      && (forall hash :: (other, hash) in after.codes <==> (other, hash) in db.codes)
      && (forall hash | (other, hash) in db.codes :: after.codes[(other, hash)] == db.codes[(other, hash)])
  {
  }

  /** A proof or an enrolment under way survives a reset of `user` exactly if its challenge belongs to someone else. */
  lemma CompletionsThatOutlastAReset(codes: Codebook, s: State, user: UserId, reset: Step, id: Token)
    requires Completing(s, id) && Resettable(s.db, user) && Resets(reset, user)
    ensures var t := Next(codes, s, reset);
      && t.requests == s.requests
      && (Commits(t.db, id, s.requests[id])
          <==> Commits(s.db, id, s.requests[id]) && !ForUser(s.db, s.requests[id].token, user))
  {
    var token := s.requests[id].token;
    if token in s.db.challenges && s.db.challenges[token].user != user {
      OtherUsersKeepTables(codes, s, user, reset, token);
    }
  }

  /** A login whose password was accepted before a reset, but whose challenge is stored only after it, does survive: the
      challenge is stored, it is open until it expires, and no challenge of the user stored before the reset is. */
  lemma LoginsThatOutlastAReset(codes: Codebook, s: State, user: UserId, reset: Step, id: Token, token: Token, now: int)
    requires Resettable(s.db, user) && Resets(reset, user) && OpeningAt(s.requests, id) && TokenInvAt(s, id)
    requires s.requests[id].challenge.user == user && !s.requests[id].challenge.consumed
    ensures var t := Next(codes, Next(codes, s, reset), Store(id));
      && (Open(t.db, id, now) <==> now < s.requests[id].challenge.expiresAt)
      && (ForUser(t.db, token, user) <==> token == id)
  {
  }

  /** A disable lets exactly the recovery logins of its user commit: proofs and enrolments roll back. */
  lemma CompletionsThatOutlastADisable(codes: Codebook, s: State, user: UserId, id: Token)
    requires Completing(s, id) && user in s.db.users
    ensures var t := Next(codes, s, Disable(user));
      && t.requests == s.requests
      && (Commits(t.db, id, s.requests[id])
          <==> Commits(s.db, id, s.requests[id]) && (ForUser(s.db, s.requests[id].token, user) ==> s.requests[id].Recovering?))
  {
  }

  /** The session such a recovery issues is not revoked; it stays unusable as long as its user is disabled. */
  lemma RecoveryDuringADisable(codes: Codebook, s: State, user: UserId, id: Token)
    requires Completing(s, id) && s.requests[id].Recovering? && user in s.db.users
    requires ForUser(s.db, s.requests[id].token, user) && Commits(s.db, id, s.requests[id])
    ensures var t := Next(codes, Next(codes, s, Disable(user)), Complete(id));
      && t.db.users[user].disabled && id in t.db.sessions && t.db.sessions[id] == NewSession(user, s.requests[id].now)
      && var later := Next(codes, t, Enable(user));
      !later.db.users[user].disabled && later.db.sessions[id] == t.db.sessions[id] && !later.db.sessions[id].revoked
  {
    CompletionsThatOutlastADisable(codes, s, user, id);
  }
}
