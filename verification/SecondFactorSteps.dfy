/** What each step of a login does, and exactly when it can be taken. */
module SecondFactorSteps {
  import opened Results
  import opened Totp
  import opened AuthTables
  import opened SecondFactor

  /** A login begins exactly for an active user whose password is given, under a token never drawn before. Users with a usable
      second factor get a login challenge, all others one to enrol with the new secret; either way for five minutes. */
  lemma BeginExactly(codes: Codebook, s: State, id: Token, user: UserId, password: Hash, secret: Secret, now: int)
    ensures Next(codes, s, Begin(id, user, password, secret, now))
            == if id !in s.used && user in s.db.users && !s.db.users[user].disabled && s.db.users[user].password == password then
                 var row, end := s.db.users[user], now + 5 * 60 * 1_000_000_000;
                 var challenge := if row.enrolled && row.secret.Some? then Challenge(user, LoginChallenge, None, end, false)
                                  else Challenge(user, EnrolmentChallenge, Some(secret), end, false);
                 s.(requests := s.requests[id := Opening(challenge)], used := s.used + {id})
               else s
  {
  }

  /** The challenge is stored as it was made. */
  lemma StoreExactly(codes: Codebook, s: State, id: Token)
    requires id in s.requests && s.requests[id].Opening? && id !in s.db.challenges
    ensures var t := Next(codes, s, Store(id));
      && t == s.(db := s.db.(challenges := s.db.challenges[id := s.requests[id].challenge]), requests := t.requests)
      && t.requests.Keys == s.requests.Keys - {id} && forall k | k in t.requests :: t.requests[k] == s.requests[k]
  {
  }

  /** A challenge is read exactly while it is unused and has not expired. */
  lemma SeeExactly(codes: Codebook, s: State, id: Token, token: Token, now: int)
    ensures Next(codes, s, See(id, token, now))
            == if id !in s.used && token in s.db.challenges && !s.db.challenges[token].consumed && now < s.db.challenges[token].expiresAt
               then s.(requests := s.requests[id := Seen(token, s.db.challenges[token], now)], used := s.used + {id})
               else s
  {
  }

  /** A counter a code is good for: within one time step of thirty seconds, not negative, and after the last one. */
  predicate GoodCounter(codes: Codes, code: string, now: int, last: int, counter: int) {
    now / 1_000_000_000 / 30 - 1 <= counter <= now / 1_000_000_000 / 30 + 1 && counter >= 0 && counter > last && codes(counter) == code
  }

  /** Of several good counters the current one is taken, and the previous one before the next. */
  predicate TakenCounter(codes: Codes, code: string, now: int, last: int, counter: int) {
    var current := now / 1_000_000_000 / 30;
    && GoodCounter(codes, code, now, last, counter)
    && (GoodCounter(codes, code, now, last, current) ==> counter == current)
    && (GoodCounter(codes, code, now, last, current - 1) ==> counter != current + 1)
  }

  ghost predicate Accepts(codes: Option<Codes>, code: string, now: int, last: int) {
    && now / 1_000_000_000 >= 0 && |code| == 6 && (forall i | 0 <= i < 6 :: '0' <= code[i] <= '9')
    && codes.Some? && exists counter :: GoodCounter(codes.value, code, now, last, counter)
  }

  lemma VerifyExactly(codes: Option<Codes>, code: string, now: int, last: int)
    ensures var r := Verify(codes, code, Unix(now), last);
      && (r.Some? <==> Accepts(codes, code, now, last))
      && (r.Some? ==> TakenCounter(codes.value, code, now, last, r.value))
  {
    if Accepts(codes, code, now, last) {
      AcceptedIffSomeCounterFits(codes.value, code, Unix(now), last);
      var counter :| GoodCounter(codes.value, code, now, last, counter);
      assert Fits(codes.value, code, last, counter);
    }
    var r := Verify(codes, code, Unix(now), last);
    if r.Some? {
      assert GoodCounter(codes.value, code, now, last, r.value);
    }
  }

  /** The request carries on with the secret and a counter its code is good for. */
  predicate ProvedBy(codes: Codes, s: State, t: State, id: Token, secret: Secret, code: string, last: int, counter: int)
    requires id in s.requests && s.requests[id].Seen?
  {
    && TakenCounter(codes, code, s.requests[id].now, last, counter)
    && t == s.(requests := s.requests[id := Proving(s.requests[id].token, secret, counter, s.requests[id].now)])
  }

  predicate EnrolledBy(codes: Codes, s: State, t: State, id: Token, code: string, hashes: seq<Hash>, counter: int)
    requires id in s.requests && s.requests[id].Seen?
  {
    && TakenCounter(codes, code, s.requests[id].now, -1, counter)
    && t == s.(requests := s.requests[id := Enrolling(s.requests[id].token, counter, hashes, s.requests[id].now)])
  }

  /** A code is proved exactly for an active, enrolled user of a login challenge, against the user's secret and last counter. */
  lemma ProveExactly(codes: Codebook, s: State, id: Token, code: string)
    ensures var t := Next(codes, s, Prove(id, code));
      if id in s.requests && s.requests[id].Seen? && s.requests[id].row.kind == LoginChallenge && s.requests[id].row.user in s.db.users then
        var request, user := s.requests[id], s.db.users[s.requests[id].row.user];
        var last := if user.lastCounter.Some? then user.lastCounter.value else -1;
        if !user.disabled && user.enrolled && user.secret.Some? && Accepts(codes(user.secret.value), code, request.now, last) then
          exists counter :: ProvedBy(codes(user.secret.value).value, s, t, id, user.secret.value, code, last, counter)
        else t == s
      else t == s
  {
    if id in s.requests && s.requests[id].Seen? && s.requests[id].row.user in s.db.users {
      var request, user := s.requests[id], s.db.users[s.requests[id].row.user];
      if user.secret.Some? {
        var last, t := LastCounter(user), Next(codes, s, Prove(id, code));
        VerifyExactly(codes(user.secret.value), code, request.now, last);
        if Enabled(codes, s, Prove(id, code)) {
          var counter := Verify(codes(user.secret.value), code, Unix(request.now), last).value;
          assert ProvedBy(codes(user.secret.value).value, s, t, id, user.secret.value, code, last, counter);
        }
      }
    }
  }

  /** A recovery code is taken along exactly for an active, enrolled user of a login challenge. */
  lemma RecoverExactly(codes: Codebook, s: State, id: Token, hash: Hash)
    ensures Next(codes, s, Recover(id, hash))
            == if id in s.requests && s.requests[id].Seen? && s.requests[id].row.kind == LoginChallenge
                  && s.requests[id].row.user in s.db.users
                  && var user := s.db.users[s.requests[id].row.user]; !user.disabled && user.enrolled && user.secret.Some?
               then s.(requests := s.requests[id := Recovering(s.requests[id].token, hash, s.requests[id].now)])
               else s
  {
  }

  /** An enrolment is proved exactly against the secret of its enrolment challenge, with no counter used yet. */
  lemma EnrolExactly(codes: Codebook, s: State, id: Token, code: string, hashes: seq<Hash>)
    ensures var t := Next(codes, s, Enrol(id, code, hashes));
      if id in s.requests && s.requests[id].Seen? && s.requests[id].row.kind == EnrolmentChallenge && s.requests[id].row.pending.Some?
         && Accepts(codes(s.requests[id].row.pending.value), code, s.requests[id].now, -1) then
        var request := s.requests[id];
        exists counter :: EnrolledBy(codes(request.row.pending.value).value, s, t, id, code, hashes, counter)
      else t == s
  {
    if id in s.requests && s.requests[id].Seen? && s.requests[id].row.pending.Some? {
      var pending, t := s.requests[id].row.pending.value, Next(codes, s, Enrol(id, code, hashes));
      VerifyExactly(codes(pending), code, s.requests[id].now, -1);
      if Enabled(codes, s, Enrol(id, code, hashes)) {
        var counter := Verify(codes(pending), code, Unix(s.requests[id].now), -1).value;
        assert EnrolledBy(codes(pending).value, s, t, id, code, hashes, counter);
      }
    }
  }

  /** What a committed transaction leaves of the tables, or the tables as they were. */
  function OrElse(r: Option<Tables>, db: Tables): Tables {
    if r.Some? then r.value else db
  }

  /** A request completes by the transaction of its kind, which adds a session under the request's own fresh token, and is
      over whether or not that commits. */
  lemma CompleteExactly(codes: Codebook, s: State, id: Token)
    requires id in s.requests
    ensures var t := Next(codes, s, Complete(id));
      match s.requests[id]
      case Proving(token, _, counter, now) => t.db == OrElse(CompleteTotp(s.db, token, counter, id, now), s.db) && id !in t.requests
      case Recovering(token, hash, now) => t.db == OrElse(CompleteRecovery(s.db, token, hash, id, now), s.db) && id !in t.requests
      case Enrolling(token, counter, hashes, now) =>
        t.db == OrElse(CompleteEnrolment(s.db, token, counter, id, hashes, now), s.db) && id !in t.requests
      case _ => t == s
    ensures var t := Next(codes, s, Complete(id));
      forall k | k in s.requests && k != id :: k in t.requests && t.requests[k] == s.requests[k]
  {
  }

  /** A request that gives up leaves nothing behind, and the others go on. */
  lemma DropExactly(codes: Codebook, s: State, id: Token)
    ensures var t := Next(codes, s, Drop(id));
      t == s.(requests := t.requests) && t.requests == map k | k in s.requests && k != id :: s.requests[k]
  {
    if id !in s.requests {
      assert s.requests == map k | k in s.requests && k != id :: s.requests[k];
    }
  }
}
