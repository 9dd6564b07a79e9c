/** The last-owner rule with each transaction split into lock, read, count, update and commit. */
module LastOwner {
  import opened Results
  import opened Counting
  import opened AuthTables
  import opened HouseholdRoles

  type TxId = int

  /** How far a transaction has got; its update becomes visible at commit. */
  datatype Stage = Waiting | Locked | Loaded | Counted | Updated

  datatype Transaction = Transaction(household: HouseholdId, user: UserId, change: Change, stage: Stage, current: Member)

  /** `holders` maps a household to the transaction that holds its advisory lock. */
  datatype State = State(members: Members, holders: map<HouseholdId, TxId>, transactions: map<TxId, Transaction>)

  datatype Step =
    | Create(user: UserId, household: HouseholdId, role: Role)
    | Start(tx: TxId, household: HouseholdId, user: UserId, change: Change)
    | Lock(tx: TxId)
    | Load(tx: TxId)
    | Count(tx: TxId)
    | Update(tx: TxId)
    | Commit(tx: TxId)
    | Rollback(tx: TxId)

  predicate At(s: State, tx: TxId, stage: Stage) {
    tx in s.transactions && s.transactions[tx].stage == stage
  }

  /** Member ids are fresh on creation; nothing deletes a member. */
  predicate Enabled(s: State, step: Step) {
    match step
    case Create(user, _, _) => user !in s.members
    case Start(tx, _, _, _) => tx !in s.transactions
    case Lock(tx) => At(s, tx, Waiting) && s.transactions[tx].household !in s.holders
    case Load(tx) => At(s, tx, Locked)
    case Count(tx) => At(s, tx, Loaded) && NeedsAnotherOwner(s.transactions[tx].current, s.transactions[tx].change)
    case Update(tx) =>
      || At(s, tx, Counted)
      || (&& At(s, tx, Loaded)
          && !NeedsAnotherOwner(s.transactions[tx].current, s.transactions[tx].change)
          && !NothingToDo(s.transactions[tx].current, s.transactions[tx].change))
    case Commit(tx) => At(s, tx, Updated) || (At(s, tx, Loaded) && NothingToDo(s.transactions[tx].current, s.transactions[tx].change))
    case Rollback(tx) => tx in s.transactions
  }

  function WithStage(s: State, tx: TxId, stage: Stage): State
    requires tx in s.transactions
  {
    s.(transactions := s.transactions[tx := s.transactions[tx].(stage := stage)])
  }

  /** Ends a transaction and frees the lock it holds. */
  function Ended(s: State, tx: TxId): State
    requires tx in s.transactions
  {
    var household := s.transactions[tx].household;
    s.(transactions := map k | k in s.transactions && k != tx :: s.transactions[k],
       holders := if household in s.holders && s.holders[household] == tx
                  then map h | h in s.holders && h != household :: s.holders[h] else s.holders)
  }

  function Effect(s: State, step: Step): State
    requires Enabled(s, step)
  {
    match step
    case Create(user, household, role) => s.(members := s.members[user := Member(household, role, false)])
    case Start(tx, household, user, change) =>
      s.(transactions := s.transactions[tx := Transaction(household, user, change, Waiting, Member(household, Viewer, true))])
    case Lock(tx) => WithStage(s.(holders := s.holders[s.transactions[tx].household := tx]), tx, Locked)
    case Load(tx) =>
      var t := s.transactions[tx];
      if !InHousehold(s.members, t.household, t.user) then Ended(s, tx)
      else s.(transactions := s.transactions[tx := t.(stage := Loaded, current := s.members[t.user])])
    case Count(tx) =>
      if |ActiveOwners(s.members, s.transactions[tx].household)| <= 1 then Ended(s, tx) else WithStage(s, tx, Counted)
    case Update(tx) => WithStage(s, tx, Updated)
    case Commit(tx) =>
      var t := s.transactions[tx];
      var committed := if t.stage.Updated? && t.user in s.members
                       then s.(members := s.members[t.user := Changed(s.members[t.user], t.change)]) else s;
      Ended(committed, tx)
    case Rollback(tx) => Ended(s, tx)
  }

  /** A step that is not enabled does nothing. */
  function Next(s: State, step: Step): State {
    if Enabled(s, step) then Effect(s, step) else s
  }

  function After(s: State, steps: seq<Step>): State
    decreases |steps|
  {
    if steps == [] then s else After(Next(s, steps[0]), steps[1..])
  }

  // ---------- what a transaction may rely on ----------

  predicate HoldsLock(s: State, tx: TxId) {
    tx in s.transactions && s.transactions[tx].household in s.holders && s.holders[s.transactions[tx].household] == tx
  }

  predicate AnotherOwner(members: Members, household: HouseholdId, user: UserId) {
    exists other | other in members :: other != user && ActiveOwner(members, household, other)
  }

  /** From its lock on a transaction holds the household; what it read stays true; a counted owner is not the last one. */
  predicate TxInv(s: State, tx: TxId) {
    tx in s.transactions && !s.transactions[tx].stage.Waiting? ==>
      && HoldsLock(s, tx)
      && var t := s.transactions[tx];
      !t.stage.Locked? ==>
        && InHousehold(s.members, t.household, t.user) && s.members[t.user] == t.current
        && (!t.stage.Loaded? && NeedsAnotherOwner(t.current, t.change) ==> AnotherOwner(s.members, t.household, t.user))
  }

  lemma CountedOwnerHasAnother(members: Members, household: HouseholdId, user: UserId)
    requires |ActiveOwners(members, household)| > 1
    ensures AnotherOwner(members, household, user)
  {
    var owners := ActiveOwners(members, household);
    assert |owners - {user}| >= 1;
    var other := SomeMember(owners - {user});
    assert other in members && other != user && ActiveOwner(members, household, other);
  }

  /** A commit in another household changes nothing a lock holder relies on. */
  lemma OtherCommit(s: State, k: TxId, tx: TxId)
    requires k != tx && At(s, k, Updated) && TxInv(s, k) && TxInv(s, tx)
    ensures TxInv(Next(s, Commit(k)), tx)
  {
    if tx in s.transactions && !s.transactions[tx].stage.Waiting? {
      var t, mine := s.transactions[k], s.transactions[tx];
      assert t.household != mine.household;
      var after := Next(s, Commit(k));
      if !mine.stage.Locked? {
        assert t.user != mine.user;
        if AnotherOwner(s.members, mine.household, mine.user) {
          var other :| other in s.members && other != mine.user && ActiveOwner(s.members, mine.household, other);
          assert other != t.user && ActiveOwner(after.members, mine.household, other);
        }
      }
    }
  }

  lemma CreateKeepsTx(s: State, step: Step, tx: TxId)
    requires TxInv(s, tx) && step.Create?
    ensures TxInv(Next(s, step), tx)
  {
    if Enabled(s, step) && tx in s.transactions && !s.transactions[tx].stage.Waiting? {
      var mine := s.transactions[tx];
      if AnotherOwner(s.members, mine.household, mine.user) {
        var other :| other in s.members && other != mine.user && ActiveOwner(s.members, mine.household, other);
        assert ActiveOwner(Next(s, step).members, mine.household, other);
      }
    }
  }

  lemma CountKeepsTx(s: State, step: Step, tx: TxId)
    requires TxInv(s, tx) && step.Count?
    ensures TxInv(Next(s, step), tx)
  {
    if Enabled(s, step) && |ActiveOwners(s.members, s.transactions[step.tx].household)| > 1 {
      CountedOwnerHasAnother(s.members, s.transactions[step.tx].household, s.transactions[step.tx].user);
    }
  }

  lemma StepKeepsTx(s: State, step: Step, tx: TxId)
    requires TxInv(s, tx) && (step.Commit? ==> TxInv(s, step.tx))
    ensures TxInv(Next(s, step), tx)
  {
    if step.Create? {
      CreateKeepsTx(s, step, tx);
    } else if step.Count? {
      CountKeepsTx(s, step, tx);
    } else if step.Commit? && step.tx != tx && At(s, step.tx, Updated) {
      OtherCommit(s, step.tx, tx);
    }
  }

  ghost predicate AllTx(s: State) {
    forall tx: TxId :: TxInv(s, tx)
  }

  lemma StepKeepsAll(s: State, step: Step)
    requires AllTx(s)
    ensures AllTx(Next(s, step))
  {
    forall tx: TxId
      ensures TxInv(Next(s, step), tx)
    {
      if step.Commit? {
        assert TxInv(s, step.tx);
      }
      StepKeepsTx(s, step, tx);
    }
  }

  // ---------- the rule ----------

  predicate HasOwner(members: Members, household: HouseholdId) {
    exists user | user in members :: ActiveOwner(members, household, user)
  }

  lemma ChangeKeepsOwner(members: Members, household: HouseholdId, user: UserId, change: Change, any: HouseholdId)
    requires InHousehold(members, household, user) && HasOwner(members, any)
    requires NeedsAnotherOwner(members[user], change) ==> AnotherOwner(members, household, user)
    ensures HasOwner(members[user := Changed(members[user], change)], any)
  {
    var after := members[user := Changed(members[user], change)];
    var owner :| owner in members && ActiveOwner(members, any, owner);
    if owner != user {
      assert ActiveOwner(after, any, owner);
    } else if NeedsAnotherOwner(members[user], change) {
      var other :| other in members && other != user && ActiveOwner(members, household, other);
      assert ActiveOwner(after, any, other);
    } else {
      assert ActiveOwner(after, any, user);
    }
  }

  lemma StepKeepsOwner(s: State, step: Step, household: HouseholdId)
    requires AllTx(s) && HasOwner(s.members, household)
    ensures HasOwner(Next(s, step).members, household)
  {
    if step.Create? && Enabled(s, step) {
      var owner :| owner in s.members && ActiveOwner(s.members, household, owner);
      assert ActiveOwner(Next(s, step).members, household, owner);
    } else if step.Commit? && At(s, step.tx, Updated) {
      var t := s.transactions[step.tx];
      assert TxInv(s, step.tx);
      ChangeKeepsOwner(s.members, t.household, t.user, t.change, household);
    } else {
      assert Next(s, step).members == s.members;
    }
  }

  /** No interleaving of creations, role changes, disables and enables takes a household from an active owner to none. */
  lemma {:induction false} HouseholdKeepsAnOwner(s: State, steps: seq<Step>, household: HouseholdId)
    requires AllTx(s) && HasOwner(s.members, household)
    ensures AllTx(After(s, steps)) && HasOwner(After(s, steps).members, household)
    decreases |steps|
  {
    if steps != [] {
      StepKeepsAll(s, steps[0]);
      StepKeepsOwner(s, steps[0], household);
      HouseholdKeepsAnOwner(Next(s, steps[0]), steps[1..], household);
    }
  }

  /** In particular from any members with no transaction under way. */
  lemma QuietHouseholdKeepsAnOwner(members: Members, steps: seq<Step>, household: HouseholdId)
    requires HasOwner(members, household)
    ensures HasOwner(After(State(members, map[], map[]), steps).members, household)
  {
    HouseholdKeepsAnOwner(State(members, map[], map[]), steps, household);
  }

  // ---------- commits are atomic ----------

  lemma TwoOwners(members: Members, household: HouseholdId, user: UserId)
    requires ActiveOwner(members, household, user) && AnotherOwner(members, household, user)
    ensures |ActiveOwners(members, household)| > 1
  {
    var other :| other in members && other != user && ActiveOwner(members, household, other);
    var owners := ActiveOwners(members, household);
    assert user in owners && other in owners - {user};
    assert |owners| == |owners - {user}| + 1;
  }

  /** However the transactions interleave, each commit does exactly what its transaction would have done alone at that moment. */
  lemma CommitIsAtomic(s: State, tx: TxId)
    requires AllTx(s) && Enabled(s, Commit(tx))
    requires s.transactions[tx].household > 0 && s.transactions[tx].user > 0
    ensures var t := s.transactions[tx];
            && Refusal(s.members, t.household, t.user, t.change) == None
            && Next(s, Commit(tx)).members == Apply(s.members, t.household, t.user, t.change)
  {
    var t := s.transactions[tx];
    assert TxInv(s, tx);
    assert InHousehold(s.members, t.household, t.user) && s.members[t.user] == t.current;
    if t.stage.Updated? {
      if NeedsAnotherOwner(t.current, t.change) {
        TwoOwners(s.members, t.household, t.user);
      }
    } else {
      assert s.members[t.user := Changed(t.current, t.change)] == s.members;
    }
  }

  // ---------- one transaction with nobody in between ----------

  /** The state with one more transaction, which holds its household. */
  function With(s: State, tx: TxId, t: Transaction): State {
    s.(transactions := s.transactions[tx := t], holders := s.holders[t.household := tx])
  }

  predicate Free(s: State, tx: TxId, household: HouseholdId) {
    tx !in s.transactions && household !in s.holders
  }

  lemma EndedAlone(s: State, tx: TxId, t: Transaction)
    requires Free(s, tx, t.household)
    ensures Ended(With(s, tx, t), tx) == s
  {
    var with := With(s, tx, t);
    assert s.transactions == map k | k in with.transactions && k != tx :: with.transactions[k];
    assert s.holders == map h | h in with.holders && h != t.household :: with.holders[h];
  }

  lemma LocksAlone(s: State, tx: TxId, household: HouseholdId, user: UserId, change: Change)
    requires Free(s, tx, household)
    ensures Next(Next(s, Start(tx, household, user, change)), Lock(tx))
            == With(s, tx, Transaction(household, user, change, Locked, Member(household, Viewer, true)))
  {
    var t := Transaction(household, user, change, Waiting, Member(household, Viewer, true));
    assert s.transactions[tx := t][tx := t.(stage := Locked)] == s.transactions[tx := t.(stage := Locked)];
  }

  lemma LoadsAlone(s: State, tx: TxId, t: Transaction)
    requires Free(s, tx, t.household) && t.stage.Locked?
    ensures Next(With(s, tx, t), Load(tx))
            == if InHousehold(s.members, t.household, t.user) then With(s, tx, t.(stage := Loaded, current := s.members[t.user])) else s
  {
    EndedAlone(s, tx, t);
    if InHousehold(s.members, t.household, t.user) {
      var loaded := t.(stage := Loaded, current := s.members[t.user]);
      assert s.transactions[tx := t][tx := loaded] == s.transactions[tx := loaded];
    }
  }

  lemma CountsAlone(s: State, tx: TxId, t: Transaction)
    requires Free(s, tx, t.household) && t.stage.Loaded?
    ensures Next(With(s, tx, t), Count(tx))
            == if !NeedsAnotherOwner(t.current, t.change) then With(s, tx, t)
               else if |ActiveOwners(s.members, t.household)| <= 1 then s else With(s, tx, t.(stage := Counted))
  {
    EndedAlone(s, tx, t);
    assert s.transactions[tx := t][tx := t.(stage := Counted)] == s.transactions[tx := t.(stage := Counted)];
  }

  lemma FinishesAlone(s: State, tx: TxId, t: Transaction)
    requires Free(s, tx, t.household) && t.user in s.members && t.current == s.members[t.user]
    requires t.stage.Counted? || (t.stage.Loaded? && !NeedsAnotherOwner(t.current, t.change))
    ensures Next(Next(With(s, tx, t), Update(tx)), Commit(tx)) == s.(members := s.members[t.user := Changed(t.current, t.change)])
  {
    var done, updated := s.(members := s.members[t.user := Changed(t.current, t.change)]), t.(stage := Updated);
    if t.stage.Loaded? && NothingToDo(t.current, t.change) {
      EndedAlone(s, tx, t);
      assert done.members == s.members;
    } else {
      assert s.transactions[tx := t][tx := updated] == s.transactions[tx := updated];
      assert Next(With(s, tx, t), Update(tx)) == With(s, tx, updated);
      EndedAlone(done, tx, updated);
    }
  }

  /** With nobody else holding the household, the statements of a transaction do exactly what it does as a whole: its change
      or its refusal, and neither transaction nor lock is left behind. */
  lemma UndisturbedTransactionIsAtomic(s: State, tx: TxId, household: HouseholdId, user: UserId, change: Change)
    requires Free(s, tx, household) && household > 0 && user > 0
    ensures var counted := Next(Next(Next(Next(s, Start(tx, household, user, change)), Lock(tx)), Load(tx)), Count(tx));
      Next(Next(counted, Update(tx)), Commit(tx)) == s.(members := Apply(s.members, household, user, change))
  {
    var locked := Transaction(household, user, change, Locked, Member(household, Viewer, true));
    LocksAlone(s, tx, household, user, change);
    LoadsAlone(s, tx, locked);
    if InHousehold(s.members, household, user) {
      var loaded := locked.(stage := Loaded, current := s.members[user]);
      CountsAlone(s, tx, loaded);
      if Refusal(s.members, household, user, change).None? {
        FinishesAlone(s, tx, if NeedsAnotherOwner(loaded.current, change) then loaded.(stage := Counted) else loaded);
      }
    }
  }

  /** Creation adds a new active member; a rollback leaves the members alone and frees the lock if the transaction holds it. */
  lemma CreateAndRollbackExactly(s: State, user: UserId, household: HouseholdId, role: Role, tx: TxId)
    ensures Next(s, Create(user, household, role))
            == if user !in s.members then s.(members := s.members[user := Member(household, role, false)]) else s
    ensures var t := Next(s, Rollback(tx));
      if tx !in s.transactions then t == s
      else
        var held := s.transactions[tx].household;
        && t.members == s.members
        && t.transactions == (map k | k in s.transactions && k != tx :: s.transactions[k])
        && t.holders == map h | h in s.holders && (h != held || s.holders[h] != tx) :: s.holders[h]
  {
    if tx in s.transactions {
      var held := s.transactions[tx].household;
      assert Next(s, Rollback(tx)).holders == map h | h in s.holders && (h != held || s.holders[h] != tx) :: s.holders[h];
    }
  }

  /** What the lock prevents: two owners who both counted two before either committed would leave the household without one. */
  lemma UnlockedCountsLoseTheLastOwner(household: HouseholdId, a: UserId, b: UserId)
    requires a != b && household > 0 && a > 0 && b > 0
    ensures var members := map[a := Member(household, Owner, false), b := Member(household, Owner, false)];
            && Refusal(members, household, a, DisableMember) == None && Refusal(members, household, b, DisableMember) == None
            && Refusal(Apply(members, household, a, DisableMember), household, b, DisableMember) == Some(LastOwner)
            && !HasOwner(members[a := Changed(members[a], DisableMember)][b := Changed(members[b], DisableMember)], household)
  {
    var members := map[a := Member(household, Owner, false), b := Member(household, Owner, false)];
    assert ActiveOwners(members, household) == {a, b};
    assert ActiveOwners(Apply(members, household, a, DisableMember), household) == {b};
  }
}
