/** Where sessions come from: every one goes back to a login with the password its user had then. */
module SecondFactorOrigins {
  import opened AuthTables
  import opened SecondFactor
  import opened SecondFactorRuns

  lemma {:induction false} AfterAppend(codes: Codebook, s: State, steps: seq<Step>, step: Step)
    ensures After(codes, s, steps + [step]) == Next(codes, After(codes, s, steps), step)
    decreases |steps|
  {
    if steps == [] {
      assert steps + [step] == [step] && [step][1..] == [];
    } else {
      assert (steps + [step])[0] == steps[0] && (steps + [step])[1..] == steps[1..] + [step];
      AfterAppend(codes, Next(codes, s, steps[0]), steps[1..], step);
    }
  }

  /** The run's step `j` is a login of this user that gives the challenge its token: the user exists, is active, and the
      password given is the one on record at that moment. */
  predicate BegunAt(codes: Codebook, s: State, steps: seq<Step>, token: Token, user: UserId, j: nat) {
    && j < |steps| && steps[j].Begin? && steps[j].id == token && steps[j].user == user
    && var users := After(codes, s, steps[..j]).db.users;
       user in users && !users[user].disabled && users[user].password == steps[j].password
  }

  ghost predicate Begun(codes: Codebook, s: State, steps: seq<Step>, token: Token, user: UserId) {
    exists j: nat :: BegunAt(codes, s, steps, token, user, j)
  }

  lemma BegunStays(codes: Codebook, s: State, steps: seq<Step>, step: Step, token: Token, user: UserId)
    requires Begun(codes, s, steps, token, user)
    ensures Begun(codes, s, steps + [step], token, user)
  {
    var j: nat :| BegunAt(codes, s, steps, token, user, j);
    assert (steps + [step])[..j] == steps[..j] && (steps + [step])[j] == steps[j];
    assert BegunAt(codes, s, steps + [step], token, user, j);
  }

  lemma BeginsNow(codes: Codebook, s: State, steps: seq<Step>, step: Step)
    requires step.Begin? && Enabled(codes, After(codes, s, steps), step)
    ensures Begun(codes, s, steps + [step], step.id, step.user)
  {
    assert (steps + [step])[..|steps|] == steps;
    assert BegunAt(codes, s, steps + [step], step.id, step.user, |steps|);
  }

  /** Whoever is behind a token was let in with the password: as a request about to store it, as a challenge, or in the log. */
  ghost predicate OriginInv(codes: Codebook, start: State, steps: seq<Step>, s: State, token: Token) {
    && (OpeningAt(s.requests, token) ==> Begun(codes, start, steps, token, s.requests[token].challenge.user))
    && (token in s.db.challenges && token !in start.db.challenges ==> Begun(codes, start, steps, token, s.db.challenges[token].user))
    && (token !in start.db.challenges ==>
          forall i | 0 <= i < |s.log| :: s.log[i].challenge == token ==> Begun(codes, start, steps, token, s.log[i].user))
  }

  lemma CompleteKeepsOrigin(codes: Codebook, start: State, steps: seq<Step>, s: State, step: Step, token: Token)
    requires step.Complete? && Enabled(codes, s, step) && OriginInv(codes, start, steps, s, token)
    ensures OriginInv(codes, start, steps, Next(codes, s, step), token)
  {
    CompletedShape(s, step.id);
    var t := Completed(s, step.id);
    if t.log != s.log {
      assert forall i | 0 <= i < |s.log| :: t.log[i] == s.log[i];
    }
  }

  lemma StepKeepsOrigin(codes: Codebook, start: State, steps: seq<Step>, s: State, step: Step, token: Token)
    requires s == After(codes, start, steps) && OriginInv(codes, start, steps, s, token)
    ensures OriginInv(codes, start, steps + [step], Next(codes, s, step), token)
  {
    forall user: UserId | Begun(codes, start, steps, token, user)
      ensures Begun(codes, start, steps + [step], token, user)
    {
      BegunStays(codes, start, steps, step, token, user);
    }
    if Enabled(codes, s, step) {
      if step.Begin? {
        BeginsNow(codes, start, steps, step);
      } else if step.Complete? {
        CompleteKeepsOrigin(codes, start, steps, s, step, token);
      }
    }
  }

  lemma {:induction false} RunsKeepOrigin(codes: Codebook, start: State, steps: seq<Step>, token: Token)
    requires Initial(start)
    ensures OriginInv(codes, start, steps, After(codes, start, steps), token)
    decreases |steps|
  {
    if steps != [] {
      var n := |steps| - 1;
      RunsKeepOrigin(codes, start, steps[..n], token);
      assert steps == steps[..n] + [steps[n]];
      AfterAppend(codes, start, steps[..n], steps[n]);
      StepKeepsOrigin(codes, start, steps[..n], After(codes, start, steps[..n]), steps[n], token);
    }
  }

  /** Over every interleaving: a session issued for a challenge that the run did not start with goes back to a login of the
      session's own user with the password on record at that moment. */
  lemma NoSessionWithoutPassword(codes: Codebook, start: State, steps: seq<Step>, i: nat)
    requires Initial(start) && i < |After(codes, start, steps).log|
    ensures var entry := After(codes, start, steps).log[i];
      entry.challenge in start.db.challenges || Begun(codes, start, steps, entry.challenge, entry.user)
  {
    RunsKeepOrigin(codes, start, steps, After(codes, start, steps).log[i].challenge);
  }
}
