/** Two-factor login as a state machine: requests read, prove a factor and complete in any interleaving with resets. */
module SecondFactor {
  import opened Maps
  import opened Results
  import opened Totp
  import opened AuthTables

  /** The codes of every secret; `None` for a secret that cannot be decoded. */
  type Codebook = Secret -> Option<Codes>

  /** A request between its reads and the transaction that completes it. */
  datatype Request =
    /** A password was accepted; the challenge is about to be stored under the request's own token. */
    | Opening(challenge: Challenge)
    /** The challenge was read. */
    | Seen(token: Token, row: Challenge, now: int)
    /** A code was accepted for the user's enrolled secret. */
    | Proving(token: Token, secret: Secret, counter: int, now: int)
    | Recovering(token: Token, hash: Hash, now: int)
    /** A code was accepted for the pending secret. */
    | Enrolling(token: Token, counter: int, hashes: seq<Hash>, now: int)

  datatype Proof =
    | ByCode(enrolment: nat, secret: Secret, counter: int, at: int)
    | ByRecovery(code: nat)

  /** A session issued: by which challenge, to whom and on which proof. */
  datatype Entry = Entry(session: Token, challenge: Token, user: UserId, proof: Proof)

  /** `used` holds every token ever drawn, `enrolments` counts each user's enrolments, `log` lists the sessions issued. */
  datatype State = State(
    db: Tables,
    requests: map<Token, Request>,
    used: set<Token>,
    enrolments: map<UserId, nat>,
    log: seq<Entry>)

  datatype Step =
    | Begin(id: Token, user: UserId, password: Hash, secret: Secret, now: int)
    | Store(id: Token)
    | See(id: Token, token: Token, now: int)
    | Prove(id: Token, code: string)
    | Recover(id: Token, hash: Hash)
    | Enrol(id: Token, code: string, hashes: seq<Hash>)
    | Complete(id: Token)
    | Drop(id: Token)
    | PasswordReset(user: UserId, password: Hash)
    | TotpReset(user: UserId)
    | Disable(user: UserId)
    | Enable(user: UserId)

  function Unix(now: int): int {
    now / SECOND
  }

  function EnrolmentsOf(s: State, user: UserId): nat {
    if user in s.enrolments then s.enrolments[user] else 0
  }

  function LastCounter(user: User): int {
    if user.lastCounter.Some? then user.lastCounter.value else -1
  }

  predicate ReadyForCode(s: State, user: UserId) {
    user in s.db.users && !s.db.users[user].disabled && s.db.users[user].enrolled && s.db.users[user].secret.Some?
  }

  predicate SeenBy(s: State, id: Token, kind: ChallengeKind) {
    id in s.requests && s.requests[id].Seen? && s.requests[id].row.kind == kind
  }

  /** The challenge of a fresh login: enrolment when the user has no second factor yet. Its kind is what the user row says now. */
  function NewChallenge(user: UserId, row: User, secret: Secret, now: int): Challenge {
    if !row.enrolled || row.secret.None? then Challenge(user, EnrolmentChallenge, Some(secret), now + CHALLENGE_TTL, false)
    else Challenge(user, LoginChallenge, None, now + CHALLENGE_TTL, false)
  }

  /** Random tokens are fresh: none is drawn twice. */
  predicate Enabled(codes: Codebook, s: State, step: Step) {
    match step
    case Begin(id, user, password, _, _) => id !in s.used && Resettable(s.db, user) && s.db.users[user].password == password
    case Store(id) => id in s.requests && s.requests[id].Opening? && id !in s.db.challenges
    case See(id, token, now) => id !in s.used && Open(s.db, token, now)
    case Prove(id, code) =>
      && SeenBy(s, id, LoginChallenge) && ReadyForCode(s, s.requests[id].row.user)
      && var user := s.db.users[s.requests[id].row.user];
         Verify(codes(user.secret.value), code, Unix(s.requests[id].now), LastCounter(user)).Some?
    case Recover(id, _) => SeenBy(s, id, LoginChallenge) && ReadyForCode(s, s.requests[id].row.user)
    case Enrol(id, code, _) =>
      && SeenBy(s, id, EnrolmentChallenge) && s.requests[id].row.pending.Some?
      && Verify(codes(s.requests[id].row.pending.value), code, Unix(s.requests[id].now), -1).Some?
    case Complete(id) => id in s.requests && (s.requests[id].Proving? || s.requests[id].Recovering? || s.requests[id].Enrolling?)
    case Drop(id) => id in s.requests
    case PasswordReset(_, _) => true
    case TotpReset(_) => true
    case Disable(user) => user in s.db.users
    case Enable(user) => user in s.db.users
  }

  function Disabled(db: Tables, user: UserId): Tables
    requires user in db.users
  {
    db.(users := db.users[user := db.users[user].(disabled := true)], sessions := RevokedFor(db.sessions, user))
  }

  /** The transaction a request ends with; `None` when it rolls back. */
  function Transaction(db: Tables, id: Token, request: Request): Option<Tables>
    requires request.Proving? || request.Recovering? || request.Enrolling?
  {
    match request
    case Proving(token, _, counter, now) => CompleteTotp(db, token, counter, id, now)
    case Recovering(token, hash, now) => CompleteRecovery(db, token, hash, id, now)
    case Enrolling(token, counter, hashes, now) => CompleteEnrolment(db, token, counter, id, hashes, now)
  }

  function ProofOf(s: State, request: Request): Proof
    requires (request.Proving? || request.Recovering? || request.Enrolling?) && request.token in s.db.challenges
  {
    var user := s.db.challenges[request.token].user;
    match request
    case Proving(_, secret, counter, now) => ByCode(EnrolmentsOf(s, user), secret, counter, now)
    case Recovering(_, hash, _) => ByRecovery(if (user, hash) in s.db.codes then s.db.codes[(user, hash)] else 0)
    case Enrolling(token, counter, _, now) =>
      ByCode(EnrolmentsOf(s, user) + 1,
             if s.db.challenges[token].pending.Some? then s.db.challenges[token].pending.value else 0, counter, now)
  }

  function Completed(s: State, id: Token): State
    requires id in s.requests
    requires s.requests[id].Proving? || s.requests[id].Recovering? || s.requests[id].Enrolling?
  {
    var request := s.requests[id];
    var rest := s.(requests := Without(s.requests, id));
    match Transaction(s.db, id, request)
    case None => rest
    case Some(after) =>
      var user := s.db.challenges[request.token].user;
      rest.(db := after,
            enrolments := if request.Enrolling? then s.enrolments[user := EnrolmentsOf(s, user) + 1] else s.enrolments,
            log := s.log + [Entry(id, request.token, user, ProofOf(s, request))])
  }

  function Effect(codes: Codebook, s: State, step: Step): State
    requires Enabled(codes, s, step)
  {
    match step
    case Begin(id, user, _, secret, now) =>
      s.(requests := s.requests[id := Opening(NewChallenge(user, s.db.users[user], secret, now))], used := s.used + {id})
    case Store(id) =>
      s.(requests := Without(s.requests, id), db := s.db.(challenges := s.db.challenges[id := s.requests[id].challenge]))
    case See(id, token, now) =>
      s.(requests := s.requests[id := Seen(token, s.db.challenges[token], now)], used := s.used + {id})
    case Prove(id, code) =>
      var request := s.requests[id];
      var user := s.db.users[request.row.user];
      var counter := Verify(codes(user.secret.value), code, Unix(request.now), LastCounter(user)).value;
      s.(requests := s.requests[id := Proving(request.token, user.secret.value, counter, request.now)])
    case Recover(id, hash) =>
      s.(requests := s.requests[id := Recovering(s.requests[id].token, hash, s.requests[id].now)])
    case Enrol(id, code, hashes) =>
      var request := s.requests[id];
      var counter := Verify(codes(request.row.pending.value), code, Unix(request.now), -1).value;
      s.(requests := s.requests[id := Enrolling(request.token, counter, hashes, request.now)])
    case Complete(id) => Completed(s, id)
    case Drop(id) => s.(requests := Without(s.requests, id))
    case PasswordReset(user, password) => s.(db := ResetPassword(s.db, user, password))
    case TotpReset(user) => s.(db := ResetTotp(s.db, user))
    case Disable(user) => s.(db := Disabled(s.db, user))
    case Enable(user) => s.(db := s.db.(users := s.db.users[user := s.db.users[user].(disabled := false)]))
  }

  /** A step that is not enabled does nothing. */
  function Next(codes: Codebook, s: State, step: Step): State {
    if Enabled(codes, s, step) then Effect(codes, s, step) else s
  }

  function After(codes: Codebook, s: State, steps: seq<Step>): State
    decreases |steps|
  {
    if steps == [] then s else After(codes, Next(codes, s, steps[0]), steps[1..])
  }

  /** Any tables, with every challenge token already drawn, no request under way and an empty log. */
  predicate Initial(s: State) {
    s.requests == map[] && s.log == [] && s.db.challenges.Keys <= s.used
  }
}
