/** Household members, their roles, and the transactions that change them. */
module HouseholdRoles {
  import opened Results
  import opened AuthTables

  type HouseholdId = int

  datatype Role = Owner | Editor | Viewer

  datatype Member = Member(household: HouseholdId, role: Role, disabled: bool)

  type Members = map<UserId, Member>

  datatype Change = SetRole(role: Role) | DisableMember | EnableMember

  datatype RoleError = InvalidId | NotFound | LastOwner | UsernameExists

  predicate ActiveOwner(members: Members, household: HouseholdId, user: UserId) {
    user in members && members[user] == Member(household, Owner, false)
  }

  function ActiveOwners(members: Members, household: HouseholdId): set<UserId> {
    set user | user in members && ActiveOwner(members, household, user)
  }

  /** Whether a change leaves the member's row as it is without an update. */
  predicate NothingToDo(current: Member, change: Change) {
    (change.DisableMember? && current.disabled) || (change.EnableMember? && !current.disabled)
  }

  /** Only demoting or disabling an active owner needs another active owner. */
  predicate NeedsAnotherOwner(current: Member, change: Change) {
    && current.role.Owner? && !current.disabled
    && match change
       case SetRole(role) => !role.Owner?
       case DisableMember => true
       case EnableMember => false
  }

  function Changed(current: Member, change: Change): Member {
    match change
    case SetRole(role) => current.(role := role)
    case DisableMember => current.(disabled := true)
    case EnableMember => current.(disabled := false)
  }

  predicate InHousehold(members: Members, household: HouseholdId, user: UserId) {
    user in members && members[user].household == household
  }

  /** Why a change is refused, if it is. */
  function Refusal(members: Members, household: HouseholdId, user: UserId, change: Change): Option<RoleError> {
    if household <= 0 || user <= 0 then Some(InvalidId)
    else if !InHousehold(members, household, user) then Some(NotFound)
    else if NeedsAnotherOwner(members[user], change) && |ActiveOwners(members, household)| <= 1 then Some(LastOwner)
    else None
  }

  function Apply(members: Members, household: HouseholdId, user: UserId, change: Change): Members {
    if Refusal(members, household, user, change).Some? then members else members[user := Changed(members[user], change)]
  }

  /** `user` is an active owner of the household and nobody else is. */
  predicate OnlyActiveOwner(members: Members, household: HouseholdId, user: UserId) {
    && user in members && members[user] == Member(household, Owner, false)
    && forall other | other in members && other != user :: members[other] != Member(household, Owner, false)
  }

  lemma OnlyOwnerIsCounted(members: Members, household: HouseholdId, user: UserId)
    requires ActiveOwner(members, household, user)
    ensures |ActiveOwners(members, household)| <= 1 <==> OnlyActiveOwner(members, household, user)
  {
    var owners := ActiveOwners(members, household);
    assert owners == {user} + (owners - {user});
    if owners - {user} == {} {
      forall other | other in members && other != user
        ensures members[other] != Member(household, Owner, false)
      {
        assert other !in owners;
      }
    } else {
      var other :| other in owners - {user};
      assert members[other] == Member(household, Owner, false);
    }
  }

  /** Refused are ids that are not positive, then users who are no members of the household, and then the demotion or
      disabling of its only active owner; any other change touches the member's role or active flag alone. */
  lemma RefusedExactly(members: Members, household: HouseholdId, user: UserId, change: Change)
    ensures var r, after := Refusal(members, household, user, change), Apply(members, household, user, change);
      if household <= 0 || user <= 0 then r == Some(InvalidId) && after == members
      else if user !in members || members[user].household != household then r == Some(NotFound) && after == members
      else if OnlyActiveOwner(members, household, user) && change != EnableMember && change != SetRole(Owner) then
        r == Some(LastOwner) && after == members
      else
        var m := members[user];
        var role := if change.SetRole? then change.role else m.role;
        var disabled := if change.SetRole? then m.disabled else change.DisableMember?;
        r == None && after == members[user := Member(household, role, disabled)]
  {
    if ActiveOwner(members, household, user) {
      OnlyOwnerIsCounted(members, household, user);
    }
  }

  // ---------- creation ----------

  /** The members with their normalised names, and the next id to hand out. */
  datatype Directory = Directory(members: Members, names: map<UserId, string>, nextId: UserId) {
    predicate NamesUnique() {
      forall a, b | a in names && b in names :: names[a] == names[b] ==> a == b
    }

    /** Every member has a name, names are never shared, and the ids ahead are unused. */
    predicate Valid() {
      names.Keys == members.Keys && NamesUnique() && nextId > 0 && forall user | user in members :: 0 < user < nextId
    }

    predicate Taken(name: string) {
      exists user | user in names :: names[user] == name
    }

    /** Insert under a name nobody has; the unique index on names refuses any other. */
    function Create(household: HouseholdId, name: string, role: Role): Result<Directory, RoleError> {
      if household <= 0 then Err(InvalidId)
      else if Taken(name) then Err(UsernameExists)
      else Ok(Directory(members[nextId := Member(household, role, false)], names[nextId := name], nextId + 1))
    }
  }

  lemma CreationKeepsOwners(members: Members, household: HouseholdId, user: UserId, role: Role)
    requires user !in members
    ensures ActiveOwners(members[user := Member(household, role, false)], household)
            == ActiveOwners(members, household) + (if role.Owner? then {user} else {})
  {
  }

  /** Creation succeeds exactly under a name nobody has, in any household. A created member is new, active and the only one
      with its name; nobody else changes, no active owner is lost, and the name cannot be used a second time. */
  lemma CreationKeepsNamesUnique(d: Directory, household: HouseholdId, name: string, role: Role, other: HouseholdId, otherRole: Role)
    requires d.Valid()
    ensures d.Create(household, name, role).Ok? <==> household > 0 && forall user | user in d.names :: d.names[user] != name
    ensures d.Create(household, name, role).Ok? ==>
      var after := d.Create(household, name, role).value;
      && after.Valid() && d.nextId !in d.members && after.names[d.nextId] == name
      && after.members == d.members[d.nextId := Member(household, role, false)]
      && ActiveOwners(after.members, household)
         == ActiveOwners(d.members, household) + (if role.Owner? then {d.nextId} else {})
      && (other > 0 ==> after.Create(other, name, otherRole) == Err(UsernameExists))
  {
    CreationKeepsOwners(d.members, household, d.nextId, role);
    if d.Create(household, name, role).Ok? {
      assert d.Create(household, name, role).value.names[d.nextId] == name;
    }
  }

  /** The members, their names and their sessions; each method is one transaction run alone. */
  class RoleStore {
    var members: Members
    var names: map<UserId, string>
    var nextId: UserId
    var sessions: map<Token, Session>

    function Contents(): Directory
      reads this
    {
      Directory(members, names, nextId)
    }

    method CreateHouseholdMember(household: HouseholdId, name: string, role: Role) returns (r: Result<Member, RoleError>)
      modifies this`members, this`names, this`nextId
      ensures match old(Contents()).Create(household, name, role)
        case Err(e) => r == Err(e) && Contents() == old(Contents())
        case Ok(after) => Contents() == after && r == Ok(members[old(nextId)])
    {
      if household <= 0 {
        return Err(InvalidId);
      }
      if Contents().Taken(name) {
        return Err(UsernameExists);
      }
      members := members[nextId := Member(household, role, false)];
      names := names[nextId := name];
      nextId := nextId + 1;
      return Ok(members[nextId - 1]);
    }

    method RequireAnotherActiveOwner(household: HouseholdId) returns (ok: bool)
      ensures ok == (|ActiveOwners(members, household)| > 1)
    {
      var count, rest := 0, members.Keys;
      ghost var counted: set<UserId> := {};
      while rest != {}
        invariant rest <= members.Keys && counted == ActiveOwners(members, household) - rest && count == |counted|
      {
        var user :| user in rest;
        rest := rest - {user};
        if ActiveOwner(members, household, user) {
          count, counted := count + 1, counted + {user};
        }
      }
      return count > 1;
    }

    method UpdateHouseholdMemberRole(household: HouseholdId, user: UserId, role: Role) returns (r: Result<Member, RoleError>)
      modifies this`members
      ensures var refusal := Refusal(old(members), household, user, SetRole(role));
              if refusal.Some? then r == Err(refusal.value) && members == old(members)
              else members == old(members)[user := old(members)[user].(role := role)] && r == Ok(members[user])
    {
      if household <= 0 || user <= 0 {
        return Err(InvalidId);
      }
      if user !in members || members[user].household != household {
        return Err(NotFound);
      }
      var current := members[user];
      if !current.disabled && current.role == Owner && role != Owner {
        var another := RequireAnotherActiveOwner(household);
        if !another {
          return Err(LastOwner);
        }
      }
      members := members[user := current.(role := role)];
      return Ok(members[user]);
    }

    method DisableHouseholdMember(household: HouseholdId, user: UserId) returns (r: Result<Member, RoleError>)
      modifies this
      ensures var refusal := Refusal(old(members), household, user, DisableMember);
              if refusal.Some? then r == Err(refusal.value) && members == old(members) && sessions == old(sessions)
              else
                && members == old(members)[user := old(members)[user].(disabled := true)] && r == Ok(members[user])
                && sessions == if old(members)[user].disabled then old(sessions) else RevokedFor(old(sessions), user)
    {
      if household <= 0 || user <= 0 {
        return Err(InvalidId);
      }
      if user !in members || members[user].household != household {
        return Err(NotFound);
      }
      var current := members[user];
      if current.disabled {
        return Ok(current);
      }
      if current.role == Owner {
        var another := RequireAnotherActiveOwner(household);
        if !another {
          return Err(LastOwner);
        }
      }
      members := members[user := current.(disabled := true)];
      sessions := RevokedFor(sessions, user);
      return Ok(members[user]);
    }

    method EnableHouseholdMember(household: HouseholdId, user: UserId) returns (r: Result<Member, RoleError>)
      modifies this`members
      ensures var refusal := Refusal(old(members), household, user, EnableMember);
              if refusal.Some? then r == Err(refusal.value) && members == old(members)
              else members == old(members)[user := old(members)[user].(disabled := false)] && r == Ok(members[user])
    {
      if household <= 0 || user <= 0 {
        return Err(InvalidId);
      }
      if user !in members || members[user].household != household {
        return Err(NotFound);
      }
      var current := members[user];
      if !current.disabled {
        return Ok(current);
      }
      members := members[user := current.(disabled := false)];
      return Ok(members[user]);
    }
  }
}
