/** What two-factor login guarantees over every interleaving. */
module SecondFactorRuns {
  import opened Maps
  import opened AuthTables
  import opened SecondFactor

  predicate Usable(db: Tables, token: Token) {
    token in db.challenges && !db.challenges[token].consumed
  }

  predicate OpeningAt(requests: map<Token, Request>, token: Token) {
    token in requests && requests[token].Opening?
  }

  // ---------- what one completion does ----------

  /** A completion either changes no table and issues nothing, or consumes a usable challenge and issues one session for it. */
  lemma CompletedShape(s: State, id: Token)
    requires id in s.requests && (s.requests[id].Proving? || s.requests[id].Recovering? || s.requests[id].Enrolling?)
    ensures var t, token := Completed(s, id), s.requests[id].token;
            && t.requests == Without(s.requests, id) && t.used == s.used
            && (t.log == s.log ==> t.db == s.db && t.enrolments == s.enrolments)
            && (t.log != s.log ==>
                  && Usable(s.db, token)
                  && t.log == s.log + [Entry(id, token, s.db.challenges[token].user, ProofOf(s, s.requests[id]))]
                  && t.db.challenges == s.db.challenges[token := s.db.challenges[token].(consumed := true)])
  {
    var r := Transaction(s.db, id, s.requests[id]);
    if r.Some? {
      assert |Completed(s, id).log| == |s.log| + 1;
    }
  }

  // ---------- each challenge yields at most one session ----------

  predicate Mentions(log: seq<Entry>, token: Token) {
    exists i | 0 <= i < |log| :: log[i].challenge == token
  }

  predicate OncePerChallenge(log: seq<Entry>, token: Token) {
    forall i, j | 0 <= i < j < |log| :: !(log[i].challenge == token && log[j].challenge == token)
  }

  predicate TokenInv(challenges: map<Token, Challenge>, requests: map<Token, Request>, used: set<Token>, log: seq<Entry>, token: Token) {
    && (token in challenges || token in requests || Mentions(log, token) ==> token in used)
    && (OpeningAt(requests, token) ==> token !in challenges && !Mentions(log, token))
    && (Mentions(log, token) && token in challenges ==> challenges[token].consumed)
    && OncePerChallenge(log, token)
  }

  predicate TokenInvAt(s: State, token: Token) {
    TokenInv(s.db.challenges, s.requests, s.used, s.log, token)
  }

  lemma AppendMentions(log: seq<Entry>, entry: Entry, token: Token)
    ensures Mentions(log + [entry], token) <==> Mentions(log, token) || entry.challenge == token
    ensures OncePerChallenge(log, token) && !(Mentions(log, token) && entry.challenge == token)
            ==> OncePerChallenge(log + [entry], token)
  {
    var longer := log + [entry];
    assert longer[|log|] == entry;
    assert forall i | 0 <= i < |log| :: longer[i] == log[i];
  }

  lemma CompleteKeepsToken(s: State, id: Token, token: Token)
    requires id in s.requests && (s.requests[id].Proving? || s.requests[id].Recovering? || s.requests[id].Enrolling?)
    requires TokenInvAt(s, token)
    ensures TokenInvAt(Completed(s, id), token)
  {
    CompletedShape(s, id);
    var t := Completed(s, id);
    if t.log != s.log {
      AppendMentions(s.log, t.log[|s.log|], token);
    }
  }

  lemma StepKeepsToken(codes: Codebook, s: State, step: Step, token: Token)
    requires TokenInvAt(s, token)
    ensures TokenInvAt(Next(codes, s, step), token)
  {
    if Enabled(codes, s, step) {
      match step {
        case Complete(id) => CompleteKeepsToken(s, id, token);
        case Begin(id, user, password, secret, now) =>
        case Store(id) =>
        case See(id, seen, now) =>
        case Prove(id, code) =>
        case Recover(id, hash) =>
        case Enrol(id, code, hashes) =>
        case Drop(id) =>
        case PasswordReset(user, password) =>
        case TotpReset(user) =>
        case Disable(user) =>
        case Enable(user) =>
      }
    }
  }

  lemma {:induction false} RunsKeepToken(codes: Codebook, s: State, steps: seq<Step>, token: Token)
    requires TokenInvAt(s, token)
    ensures TokenInvAt(After(codes, s, steps), token)
    decreases |steps|
  {
    if steps != [] {
      StepKeepsToken(codes, s, steps[0], token);
      RunsKeepToken(codes, Next(codes, s, steps[0]), steps[1..], token);
    }
  }

  /** Whatever the interleaving, no two sessions come from one challenge. */
  lemma ChallengeYieldsAtMostOneSession(codes: Codebook, s: State, steps: seq<Step>, i: nat, j: nat)
    requires Initial(s) && i < j < |After(codes, s, steps).log|
    ensures After(codes, s, steps).log[i].challenge != After(codes, s, steps).log[j].challenge
  {
    var token := After(codes, s, steps).log[i].challenge;
    RunsKeepToken(codes, s, steps, token);
  }

  // ---------- each recovery code yields at most one session ----------

  predicate UsesCode(entry: Entry, code: nat) {
    entry.proof == ByRecovery(code)
  }

  predicate CodeInv(spent: set<nat>, log: seq<Entry>, code: nat) {
    && (forall i, j | 0 <= i < j < |log| :: !(UsesCode(log[i], code) && UsesCode(log[j], code)))
    && (forall i | 0 <= i < |log| :: UsesCode(log[i], code) ==> code in spent)
  }

  lemma CompleteSpendsCode(s: State, id: Token)
    requires id in s.requests && (s.requests[id].Proving? || s.requests[id].Recovering? || s.requests[id].Enrolling?)
    ensures var t := Completed(s, id);
            && s.db.spent <= t.db.spent
            && (t.log != s.log ==>
                  && |t.log| == |s.log| + 1 && t.log[..|s.log|] == s.log
                  && (t.log[|s.log|].proof.ByRecovery? ==> t.log[|s.log|].proof.code in t.db.spent - s.db.spent))
  {
    CompletedShape(s, id);
  }

  lemma StepKeepsCode(codes: Codebook, s: State, step: Step, code: nat)
    requires CodeInv(s.db.spent, s.log, code)
    ensures CodeInv(Next(codes, s, step).db.spent, Next(codes, s, step).log, code)
  {
    if Enabled(codes, s, step) && step.Complete? {
      var t := Completed(s, step.id);
      CompleteSpendsCode(s, step.id);
      if t.log != s.log {
        assert forall i | 0 <= i < |s.log| :: t.log[i] == t.log[..|s.log|][i];
      }
    } else {
      assert Next(codes, s, step).log == s.log && Next(codes, s, step).db.spent == s.db.spent;
    }
  }

  lemma {:induction false} RunsKeepCode(codes: Codebook, s: State, steps: seq<Step>, code: nat)
    requires CodeInv(s.db.spent, s.log, code)
    ensures CodeInv(After(codes, s, steps).db.spent, After(codes, s, steps).log, code)
    decreases |steps|
  {
    if steps != [] {
      StepKeepsCode(codes, s, steps[0], code);
      RunsKeepCode(codes, Next(codes, s, steps[0]), steps[1..], code);
    }
  }

  /** Whatever the interleaving, no two sessions come from one recovery code. */
  lemma RecoveryCodeYieldsAtMostOneSession(codes: Codebook, s: State, steps: seq<Step>, i: nat, j: nat)
    requires Initial(s) && i < j < |After(codes, s, steps).log|
    requires After(codes, s, steps).log[i].proof.ByRecovery?
    ensures After(codes, s, steps).log[i].proof != After(codes, s, steps).log[j].proof
  {
    var code := After(codes, s, steps).log[i].proof.code;
    RunsKeepCode(codes, s, steps, code);
    assert UsesCode(After(codes, s, steps).log[i], code);
  }
}
