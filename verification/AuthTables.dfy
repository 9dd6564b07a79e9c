/** The authentication tables and the transactions that complete a login, complete an enrolment or reset a user. */
module AuthTables {
  import opened Results
  import opened Sorting

  type UserId = int
  /** Passwords, opaque tokens and recovery codes are stored as hashes; here a hash is just an identifier. */
  type Token = int
  type Hash = int
  type Secret = int

  // Instants and durations are in nanoseconds.
  const SECOND := 1_000_000_000
  const CHALLENGE_TTL := 300_000_000_000
  const SESSION_TTL := 43_200_000_000_000

  datatype User = User(password: Hash, disabled: bool, secret: Option<Secret>, lastCounter: Option<int>, enrolled: bool)

  datatype ChallengeKind = LoginChallenge | EnrolmentChallenge

  datatype Challenge = Challenge(user: UserId, kind: ChallengeKind, pending: Option<Secret>, expiresAt: int, consumed: bool)

  datatype Session = Session(user: UserId, createdAt: int, lastSeenAt: int, expiresAt: int, revoked: bool)

  /** Recovery codes are rows identified by a number; `spent` holds the rows that were consumed. */
  datatype Tables = Tables(
    users: map<UserId, User>,
    challenges: map<Token, Challenge>,
    sessions: map<Token, Session>,
    codes: map<(UserId, Hash), nat>,
    spent: set<nat>,
    nextCode: nat)

  function NewSession(user: UserId, now: int): Session {
    Session(user, now, now, now + SESSION_TTL, false)
  }

  predicate Open(db: Tables, token: Token, now: int) {
    token in db.challenges && !db.challenges[token].consumed && db.challenges[token].expiresAt > now
  }

  /** Consuming a challenge needs the right kind, an unconsumed row and an expiry in the future. */
  predicate Consumable(db: Tables, token: Token, kind: ChallengeKind, now: int) {
    Open(db, token, now) && db.challenges[token].kind == kind
  }

  function Consumed(db: Tables, token: Token): Tables
    requires token in db.challenges
  {
    db.(challenges := db.challenges[token := db.challenges[token].(consumed := true)])
  }

  function WithSession(db: Tables, token: Token, user: UserId, now: int): Tables {
    db.(sessions := db.sessions[token := NewSession(user, now)])
  }

  function RevokedFor(sessions: map<Token, Session>, user: UserId): map<Token, Session> {
    map token | token in sessions ::
      if sessions[token].user == user then sessions[token].(revoked := true) else sessions[token]
  }

  function WithoutUser(challenges: map<Token, Challenge>, user: UserId): map<Token, Challenge> {
    map token | token in challenges && challenges[token].user != user :: challenges[token]
  }

  function WithoutCodes(codes: map<(UserId, Hash), nat>, user: UserId): map<(UserId, Hash), nat> {
    map key | key in codes && key.0 != user :: codes[key]
  }

  function WithCodes(codes: map<(UserId, Hash), nat>, user: UserId, hashes: seq<Hash>, next: nat): map<(UserId, Hash), nat>
    decreases |hashes|
  {
    if hashes == [] then codes else WithCodes(codes[(user, hashes[0]) := next], user, hashes[1..], next + 1)
  }

  // ---------- completing transactions: `None` is a rolled-back transaction ----------

  /** The update of the replay counter applies. */
  predicate CounterAdvances(db: Tables, user: UserId, counter: int) {
    && user in db.users && !db.users[user].disabled && db.users[user].enrolled
    && (db.users[user].lastCounter.None? || db.users[user].lastCounter.value < counter)
  }

  function CompleteTotp(db: Tables, token: Token, counter: int, session: Token, now: int): Option<Tables> {
    if !Consumable(db, token, LoginChallenge, now) then None
    else
      var user := db.challenges[token].user;
      if !CounterAdvances(db, user, counter) || session in db.sessions then None
      else
        var after := Consumed(db, token);
        Some(WithSession(after.(users := after.users[user := after.users[user].(lastCounter := Some(counter))]), session, user, now))
  }

  function CompleteRecovery(db: Tables, token: Token, hash: Hash, session: Token, now: int): Option<Tables> {
    if !Consumable(db, token, LoginChallenge, now) then None
    else
      var user := db.challenges[token].user;
      if (user, hash) !in db.codes || db.codes[(user, hash)] in db.spent || session in db.sessions then None
      else
        var after := Consumed(db, token);
        Some(WithSession(after.(spent := after.spent + {db.codes[(user, hash)]}), session, user, now))
  }

  /** Enrolment is possible once: the user is active and not enrolled. */
  predicate CanEnrol(db: Tables, user: UserId) {
    user in db.users && !db.users[user].disabled && !db.users[user].enrolled
  }

  function CompleteEnrolment(db: Tables, token: Token, counter: int, session: Token, hashes: seq<Hash>, now: int): Option<Tables> {
    if !Consumable(db, token, EnrolmentChallenge, now) || db.challenges[token].pending.None? then None
    else
      var user := db.challenges[token].user;
      if !CanEnrol(db, user) || !Distinct(hashes) || session in db.sessions then None
      else
        var after := Consumed(db, token);
        var enrolled := after.users[user].(secret := after.challenges[token].pending, lastCounter := Some(counter), enrolled := true);
        Some(WithSession(after.(users := after.users[user := enrolled],
                                codes := WithCodes(WithoutCodes(after.codes, user), user, hashes, after.nextCode),
                                nextCode := after.nextCode + |hashes|), session, user, now))
  }

  predicate Resettable(db: Tables, user: UserId) {
    user in db.users && !db.users[user].disabled
  }

  function AuthRevoked(db: Tables, user: UserId): Tables {
    db.(sessions := RevokedFor(db.sessions, user), challenges := WithoutUser(db.challenges, user))
  }

  function ResetPassword(db: Tables, user: UserId, password: Hash): Tables {
    if !Resettable(db, user) then db
    else AuthRevoked(db, user).(users := db.users[user := db.users[user].(password := password)])
  }

  function ResetTotp(db: Tables, user: UserId): Tables {
    if !Resettable(db, user) then db
    else
      AuthRevoked(db, user).(
        users := db.users[user := db.users[user].(secret := None, lastCounter := None, enrolled := false)],
        codes := WithoutCodes(db.codes, user))
  }

  /** The store: each method is one transaction, rolled back as a whole when it returns false. */
  class AuthStore {
    var users: map<UserId, User>
    var challenges: map<Token, Challenge>
    var sessions: map<Token, Session>
    var codes: map<(UserId, Hash), nat>
    var spent: set<nat>
    var nextCode: nat

    function Contents(): Tables
      reads this
    {
      Tables(users, challenges, sessions, codes, spent, nextCode)
    }

    method ConsumeChallenge(token: Token, kind: ChallengeKind, now: int) returns (row: Option<Challenge>)
      modifies this`challenges
      ensures row.Some? <==> Consumable(old(Contents()), token, kind, now)
      ensures row.Some? ==> Contents() == Consumed(old(Contents()), token) && row == Some(old(challenges)[token])
      ensures row.None? ==> Contents() == old(Contents())
    {
      if token !in challenges {
        return None;
      }
      var found := challenges[token];
      if found.kind != kind || found.consumed || found.expiresAt <= now {
        return None;
      }
      challenges := challenges[token := found.(consumed := true)];
      return Some(found);
    }

    method InsertSession(token: Token, user: UserId, now: int) returns (ok: bool)
      modifies this`sessions
      ensures ok == (token !in old(sessions))
      ensures Contents() == if ok then WithSession(old(Contents()), token, user, now) else old(Contents())
    {
      ok := token !in sessions;
      if ok {
        sessions := sessions[token := NewSession(user, now)];
      }
    }

    method CompleteTOTPLogin(token: Token, counter: int, session: Token, now: int) returns (ok: bool)
      modifies this
      ensures var r := CompleteTotp(old(Contents()), token, counter, session, now);
              ok == r.Some? && Contents() == if ok then r.value else old(Contents())
    {
      var before, usersBefore := challenges, users;
      var row := ConsumeChallenge(token, LoginChallenge, now);
      if row.None? {
        return false;
      }
      var user := row.value.user;
      if user !in users || users[user].disabled || !users[user].enrolled
         || (users[user].lastCounter.Some? && users[user].lastCounter.value >= counter) {
        challenges := before;
        return false;
      }
      users := users[user := users[user].(lastCounter := Some(counter))];
      ok := InsertSession(session, user, now);
      if !ok {
        challenges, users := before, usersBefore;
      }
    }

    method CompleteRecoveryLogin(token: Token, hash: Hash, session: Token, now: int) returns (ok: bool)
      modifies this
      ensures var r := CompleteRecovery(old(Contents()), token, hash, session, now);
              ok == r.Some? && Contents() == if ok then r.value else old(Contents())
    {
      var before, spentBefore := challenges, spent;
      var row := ConsumeChallenge(token, LoginChallenge, now);
      if row.None? {
        return false;
      }
      var key := (row.value.user, hash);
      if key !in codes || codes[key] in spent {
        challenges := before;
        return false;
      }
      spent := spent + {codes[key]};
      ok := InsertSession(session, row.value.user, now);
      if !ok {
        challenges, spent := before, spentBefore;
      }
    }

    method InsertRecoveryCodes(user: UserId, hashes: seq<Hash>)
      modifies this`codes, this`nextCode
      ensures codes == WithCodes(old(codes), user, hashes, old(nextCode)) && nextCode == old(nextCode) + |hashes|
    {
      for i := 0 to |hashes|
        invariant nextCode == old(nextCode) + i
        invariant WithCodes(codes, user, hashes[i..], nextCode) == WithCodes(old(codes), user, hashes, old(nextCode))
      {
        codes, nextCode := codes[(user, hashes[i]) := nextCode], nextCode + 1;
        assert hashes[i..][1..] == hashes[i + 1..];
      }
    }

    method CompleteEnrollment(token: Token, counter: int, session: Token, hashes: seq<Hash>, now: int) returns (ok: bool)
      modifies this
      ensures var r := CompleteEnrolment(old(Contents()), token, counter, session, hashes, now);
              ok == r.Some? && Contents() == if ok then r.value else old(Contents())
    {
      var before := challenges;
      var row := ConsumeChallenge(token, EnrolmentChallenge, now);
      if row.None? {
        return false;
      }
      var user := row.value.user;
      if row.value.pending.None? || user !in users || users[user].disabled || users[user].enrolled
         || !Distinct(hashes) || session in sessions {
        challenges := before;
        return false;
      }
      users := users[user := users[user].(secret := row.value.pending, lastCounter := Some(counter), enrolled := true)];
      codes := WithoutCodes(codes, user);
      InsertRecoveryCodes(user, hashes);
      ok := InsertSession(session, user, now);
    }

    method RevokeAuthState(user: UserId, clearRecoveryCodes: bool)
      modifies this
      ensures Contents() == old(Contents()).(sessions := RevokedFor(old(sessions), user),
                                             challenges := WithoutUser(old(challenges), user),
                                             codes := if clearRecoveryCodes then WithoutCodes(old(codes), user) else old(codes))
    {
      sessions := RevokedFor(sessions, user);
      challenges := WithoutUser(challenges, user);
      if clearRecoveryCodes {
        codes := WithoutCodes(codes, user);
      }
    }

    method ResetUserPassword(user: UserId, password: Hash) returns (ok: bool)
      modifies this
      ensures ok == Resettable(old(Contents()), user) && Contents() == ResetPassword(old(Contents()), user, password)
    {
      if user !in users || users[user].disabled {
        return false;
      }
      users := users[user := users[user].(password := password)];
      RevokeAuthState(user, false);
      return true;
    }

    method ResetUserTotp(user: UserId) returns (ok: bool)
      modifies this
      ensures ok == Resettable(old(Contents()), user) && Contents() == ResetTotp(old(Contents()), user)
    {
      if user !in users || users[user].disabled {
        return false;
      }
      users := users[user := users[user].(secret := None, lastCounter := None, enrolled := false)];
      RevokeAuthState(user, true);
      return true;
    }
  }
}
