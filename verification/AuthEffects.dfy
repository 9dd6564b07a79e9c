/** What the login and reset transactions do to every table, row by row. */
module AuthEffects {
  import opened Results
  import opened Sorting
  import opened AuthTables
  import opened SecondFactor

  // ---------- rows that a completion adds or changes ----------

  /** One more session, for this user, from now on and for twelve hours. */
  ghost predicate OneSessionMore(before: map<Token, Session>, after: map<Token, Session>, token: Token, user: UserId, now: int) {
    && token !in before && after.Keys == before.Keys + {token}
    && (forall k | k in before :: after[k] == before[k])
    && after[token].user == user && after[token].createdAt == now && after[token].lastSeenAt == now
    && after[token].expiresAt == now + 12 * 3600 * 1_000_000_000 && !after[token].revoked
  }

  /** The challenge is used up, and nothing else about it or any other changes. */
  ghost predicate OneChallengeUsed(before: map<Token, Challenge>, after: map<Token, Challenge>, token: Token) {
    && token in before && after.Keys == before.Keys
    && (forall k | k in before && k != token :: after[k] == before[k])
    && !before[token].consumed && after[token] == before[token].(consumed := true)
  }

  /** Rows of other users stay as they are. */
  ghost predicate OnlyUserChanges(before: map<UserId, User>, after: map<UserId, User>, user: UserId) {
    user in before && after.Keys == before.Keys && forall k | k in before && k != user :: after[k] == before[k]
  }

  /** An unused challenge of this kind that has not expired. */
  predicate Usable(db: Tables, token: Token, kind: ChallengeKind, now: int) {
    && token in db.challenges && db.challenges[token].kind == kind
    && !db.challenges[token].consumed && now < db.challenges[token].expiresAt
  }

  /** A login by code commits exactly for an active, enrolled user of an open login challenge with a counter that moves
      forward. It uses up the challenge, moves that counter and adds one session of the challenge's user, and that is all. */
  lemma CodeLoginEffect(db: Tables, token: Token, counter: int, session: Token, now: int)
    ensures var r := CompleteTotp(db, token, counter, session, now);
      && (r.Some? <==>
            && Usable(db, token, LoginChallenge, now) && session !in db.sessions
            && var user := db.challenges[token].user;
               && user in db.users && !db.users[user].disabled && db.users[user].enrolled
               && (db.users[user].lastCounter == None || db.users[user].lastCounter.value < counter))
      && (r.Some? ==>
            var t, user := r.value, db.challenges[token].user;
            && OneSessionMore(db.sessions, t.sessions, session, user, now)
            && OneChallengeUsed(db.challenges, t.challenges, token)
            && OnlyUserChanges(db.users, t.users, user)
            && t.users[user] == db.users[user].(lastCounter := Some(counter))
            && t.codes == db.codes && t.spent == db.spent && t.nextCode == db.nextCode)
  {
  }

  /** A recovery login commits exactly for an unspent code of the user of an open login challenge. It uses up challenge and
      code and adds one session of that user, and that is all. */
  lemma RecoveryLoginEffect(db: Tables, token: Token, hash: Hash, session: Token, now: int)
    ensures var r := CompleteRecovery(db, token, hash, session, now);
      && (r.Some? <==>
            && Usable(db, token, LoginChallenge, now) && session !in db.sessions
            && var key := (db.challenges[token].user, hash); key in db.codes && db.codes[key] !in db.spent)
      && (r.Some? ==>
            var t, user := r.value, db.challenges[token].user;
            && OneSessionMore(db.sessions, t.sessions, session, user, now)
            && OneChallengeUsed(db.challenges, t.challenges, token)
            && t.spent == db.spent + {db.codes[(user, hash)]}
            && t.users == db.users && t.codes == db.codes && t.nextCode == db.nextCode)
  {
  }

  /** The user's codes are exactly the new ones, on rows never used before; other users keep theirs. */
  ghost predicate CodesReplaced(before: map<(UserId, Hash), nat>, after: map<(UserId, Hash), nat>, user: UserId, hashes: seq<Hash>, next: nat) {
    && (forall key: (UserId, Hash) | key.0 != user :: (key in after <==> key in before) && (key in before ==> after[key] == before[key]))
    && (forall hash :: (user, hash) in after <==> hash in hashes)
    && (forall i | 0 <= i < |hashes| :: (user, hashes[i]) in after && after[(user, hashes[i])] == next + i)
  }

  lemma {:induction false} WithCodesAdds(codes: map<(UserId, Hash), nat>, user: UserId, hashes: seq<Hash>, next: nat, key: (UserId, Hash))
    requires Distinct(hashes)
    ensures var after := WithCodes(codes, user, hashes, next);
      && (key in after <==> key in codes || (key.0 == user && key.1 in hashes))
      && (key.0 == user && key.1 in hashes ==>
            exists i | 0 <= i < |hashes| :: hashes[i] == key.1 && after[key] == next + i)
      && (key in codes && !(key.0 == user && key.1 in hashes) ==> after[key] == codes[key])
    decreases |hashes|
  {
    if hashes != [] {
      var rest := hashes[1..];
      assert hashes == [hashes[0]] + rest;
      assert Distinct(rest) by {
        forall i, j | 0 <= i < j < |rest| ensures rest[i] != rest[j] { assert hashes[i + 1] != hashes[j + 1]; }
      }
      assert hashes[0] !in rest by {
        forall i | 0 <= i < |rest| ensures rest[i] != hashes[0] { assert hashes[0] != hashes[i + 1]; }
      }
      WithCodesAdds(codes[(user, hashes[0]) := next], user, rest, next + 1, key);
      if key.0 == user && key.1 in rest {
        var after := WithCodes(codes, user, hashes, next);
        var i :| 0 <= i < |rest| && rest[i] == key.1 && after[key] == next + 1 + i;
        assert hashes[i + 1] == key.1;
      }
    }
  }

  lemma CodesAreReplaced(codes: map<(UserId, Hash), nat>, user: UserId, hashes: seq<Hash>, next: nat)
    requires Distinct(hashes)
    ensures CodesReplaced(codes, WithCodes(WithoutCodes(codes, user), user, hashes, next), user, hashes, next)
  {
    var kept := WithoutCodes(codes, user);
    var after := WithCodes(kept, user, hashes, next);
    forall key: (UserId, Hash)
      ensures key in after <==> key in kept || (key.0 == user && key.1 in hashes)
      ensures key.0 != user && key in kept ==> after[key] == codes[key]
    {
      WithCodesAdds(kept, user, hashes, next, key);
    }
    forall hash: Hash
      ensures (user, hash) in after <==> hash in hashes
    {
      assert (user, hash) !in kept;
    }
    forall i | 0 <= i < |hashes|
      ensures (user, hashes[i]) in after && after[(user, hashes[i])] == next + i
    {
      WithCodesAdds(kept, user, hashes, next, (user, hashes[i]));
    }
  }

  /** An enrolment commits exactly for an active user not yet enrolled, with an open enrolment challenge that carries a secret.
      It uses up the challenge, stores its secret and the counter, replaces the user's recovery codes and adds one session
      of that user, and that is all. */
  lemma EnrolmentEffect(db: Tables, token: Token, counter: int, session: Token, hashes: seq<Hash>, now: int)
    ensures var r := CompleteEnrolment(db, token, counter, session, hashes, now);
      && (r.Some? <==>
            && Usable(db, token, EnrolmentChallenge, now) && db.challenges[token].pending != None
            && session !in db.sessions && (forall i, j | 0 <= i < j < |hashes| :: hashes[i] != hashes[j])
            && var user := db.challenges[token].user;
               user in db.users && !db.users[user].disabled && !db.users[user].enrolled)
      && (r.Some? ==>
            var t, user := r.value, db.challenges[token].user;
            && OneSessionMore(db.sessions, t.sessions, session, user, now)
            && OneChallengeUsed(db.challenges, t.challenges, token)
            && OnlyUserChanges(db.users, t.users, user)
            && t.users[user] == User(db.users[user].password, false, db.challenges[token].pending, Some(counter), true)
            && CodesReplaced(db.codes, t.codes, user, hashes, db.nextCode)
            && t.spent == db.spent && t.nextCode == db.nextCode + |hashes|)
  {
    if Distinct(hashes) && token in db.challenges {
      CodesAreReplaced(db.codes, db.challenges[token].user, hashes, db.nextCode);
    }
  }

  // ---------- resets, disables and enables ----------

  /** Exactly the user's sessions are revoked. */
  ghost predicate UserSessionsRevoked(before: map<Token, Session>, after: map<Token, Session>, user: UserId) {
    && after.Keys == before.Keys
    && forall k | k in before :: after[k] == if before[k].user == user then before[k].(revoked := true) else before[k]
  }

  /** Exactly the user's challenges are gone. */
  ghost predicate UserChallengesGone(before: map<Token, Challenge>, after: map<Token, Challenge>, user: UserId) {
    forall k :: (k in after <==> k in before && before[k].user != user) && (k in after ==> after[k] == before[k])
  }

  /** A password reset of an active user: the new password, no usable session, no challenge; otherwise nothing happens. */
  lemma PasswordResetEffect(db: Tables, user: UserId, password: Hash)
    ensures var t := ResetPassword(db, user, password);
      if user in db.users && !db.users[user].disabled then
        && UserSessionsRevoked(db.sessions, t.sessions, user) && UserChallengesGone(db.challenges, t.challenges, user)
        && OnlyUserChanges(db.users, t.users, user) && t.users[user] == db.users[user].(password := password)
        && t.codes == db.codes && t.spent == db.spent && t.nextCode == db.nextCode
      else t == db
  {
  }

  /** A second-factor reset of an active user: also no secret, no counter, not enrolled and no recovery codes. */
  lemma TotpResetEffect(db: Tables, user: UserId)
    ensures var t := ResetTotp(db, user);
      if user in db.users && !db.users[user].disabled then
        && UserSessionsRevoked(db.sessions, t.sessions, user) && UserChallengesGone(db.challenges, t.challenges, user)
        && OnlyUserChanges(db.users, t.users, user) && t.users[user] == User(db.users[user].password, false, None, None, false)
        && CodesReplaced(db.codes, t.codes, user, [], 0)
        && t.spent == db.spent && t.nextCode == db.nextCode
      else t == db
  {
  }

  /** A disable sets the flag and revokes the user's sessions, an enable clears the flag, and that is all. */
  lemma DisableAndEnableEffect(codes: Codebook, s: State, user: UserId)
    requires user in s.db.users
    ensures var t := Next(codes, s, Disable(user));
      && t == s.(db := s.db.(users := t.db.users, sessions := t.db.sessions))
      && OnlyUserChanges(s.db.users, t.db.users, user) && t.db.users[user] == s.db.users[user].(disabled := true)
      && UserSessionsRevoked(s.db.sessions, t.db.sessions, user)
    ensures var t := Next(codes, s, Enable(user));
      && t == s.(db := s.db.(users := t.db.users))
      && OnlyUserChanges(s.db.users, t.db.users, user) && t.db.users[user] == s.db.users[user].(disabled := false)
  {
  }
}
