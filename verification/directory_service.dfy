/**
The service and handler methods over the user tables, statement by statement, proved to take
the database where modules Directory and MergePackets say.
 */
module DirectoryService {
  import opened Common
  import opened Lifecycle
  import opened KeyedTable
  import opened Directory
  import opened MergePackets
  import opened Text

  class Service {
    var users: map<UserId, UserStatus>
    var identities: map<Identity, UserId>
    var accounts: set<Row<Account>>
    var projectPI: map<ProjectId, UserId>
    var memberships: set<Row<Membership>>
    var roles: set<Row<Governance>>
    var allocations: map<AllocationId, ProjectId>
    var clusters: set<ClusterId>

    function Rows(): Db
      reads this
    {
      Db(users, identities, accounts, projectPI, memberships, roles, allocations, clusters)
    }

    constructor ()
      ensures Rows() == Db(map[], map[], {}, map[], {}, {}, map[], {}) && Valid(Rows())
    {
      users, identities, accounts := map[], map[], {};
      projectPI, memberships, roles, allocations, clusters := map[], {}, {}, map[], {};
    }

    method MergeUsers(surviving: UserId, retiring: UserId) returns (outcome: Outcome)
      modifies this
      ensures Reply(Rows(), outcome) == MergeReply(old(Rows()), surviving, retiring)
    {
      outcome := MergeCheck(Rows(), surviving, retiring);
      if outcome.Refused? { return; }
      identities := Repointed(identities, retiring, surviving);
      accounts := ReassignUser(accounts, retiring, surviving);
      projectPI := Repointed(projectPI, retiring, surviving);
      memberships := ReassignUser(memberships, retiring, surviving);
      roles := ReassignUser(roles, retiring, surviving);
      users := users[retiring := Merged];
    }

    /** The user's row on the project. */
    method FindByPair(project: ProjectId, user: UserId) returns (found: Option<Row<Governance>>)
      ensures found.None? ==> project !in Keys(roles, user)
      ensures found.Some? ==> found.value in roles && IsRow(found.value, project, user)
    {
      if r :| r in roles && IsRow(r, project, user) { return Some(r); }
      return None;
    }

    /** A row that makes somebody the project's PI. */
    method FindPIByProject(project: ProjectId) returns (found: Option<Row<Governance>>)
      ensures found.None? ==> forall r :: r in roles && r.key == project ==> r.value.role != PI
      ensures found.Some? ==> found.value in roles && found.value.key == project && found.value.value.role == PI
    {
      if r :| r in roles && r.key == project && r.value.role == PI { return Some(r); }
      return None;
    }

    method EnsureProjectMembership(project: ProjectId, user: UserId, role: string, now: nat) returns (outcome: Outcome)
      requires Valid(Rows())
      modifies this`roles
      ensures Reply(Rows(), outcome) == EnsureReply(old(Rows()), project, user, role, now)
      ensures outcome.Done? <==>
        && project != "" && user != ""
        && role in {"", "MEMBER", "PI", "CO_PI", "ALLOCATION_MANAGER"}
        && !ChangesPI(old(Rows()), project, user, role)
        && (role in {"", "MEMBER"} || HasRow(old(Rows()), project, user) || (project in projectPI && user in users))
    {
      EnsureDoneIff(Rows(), project, user, role, now);
      if project == "" { return Refused(InvalidInput); }
      if user == "" { return Refused(InvalidInput); }
      var existing := FindByPair(project, user);
      if role == "MEMBER" || role == "" {
        if existing.None? {
          assert WithoutRole(Rows(), project, user) == Rows();
          return Done;
        }
        if existing.value.value.role == PI { return Refused(PIChange); }
        roles := set r | r in roles && !IsRow(r, project, user);
        return Done;
      }
      if !IsRoleName(role) { return Refused(InvalidInput); }
      var wanted := RoleNamed(role);
      if wanted == PI {
        var pi := FindPIByProject(project);
        if pi.Some? && pi.value.user != user { return Refused(PIChange); }
      }
      if existing.Some? {
        outcome := ChangeRole(existing.value, wanted);
        return;
      }
      if project !in projectPI || user !in users { return Refused(Constraint); }
      roles := roles + {Row(project, user, Governance(wanted, now))};
      return Done;
    }

    /** The upsert's branch for a user who has a row already. */
    method ChangeRole(existing: Row<Governance>, wanted: Role) returns (outcome: Outcome)
      requires Valid(Rows()) && existing in roles
      modifies this`roles
      ensures outcome == if existing.value.role == PI && wanted != PI then Refused(PIChange) else Done
      ensures Rows() == if outcome.Done? then WithRole(old(Rows()), existing.key, existing.user, wanted) else old(Rows())
    {
      if existing.value.role == PI && wanted != PI { return Refused(PIChange); }
      if existing.value.role == wanted {
        assert WithRole(Rows(), existing.key, existing.user, wanted).roles == roles;
        return Done;
      }
      roles := set r | r in roles ::
        if IsRow(r, existing.key, existing.user) then Row(r.key, r.user, Governance(wanted, r.value.added)) else r;
      assert roles == WithRole(old(Rows()), existing.key, existing.user, wanted).roles;
      return Done;
    }

    /** One row per (allocation, user); a blank status means ACTIVE. */
    method CreateComputeAllocationMembership(allocation: AllocationId, user: UserId, id: string, status: string)
      returns (outcome: Outcome)
      modifies this`memberships
      ensures Reply(Rows(), outcome) == AddMemberReply(old(Rows()), allocation, user, id, status)
      ensures outcome.Done? <==>
        && allocation != "" && user != "" && allocation in allocations && user in users
        && allocation !in Keys(old(memberships), user)
      ensures outcome.Done? ==> Keys(memberships, user) == Keys(old(memberships), user) + {allocation}
      ensures forall m :: m in memberships && m !in old(memberships) ==>
        m.value.id == id && m.value.status == if status == "" then ACTIVE else status
    {
      if allocation == "" || user == "" || allocation !in allocations || user !in users { return Refused(InvalidInput); }
      if allocation in Keys(memberships, user) { return Refused(AlreadyExists); }
      var added := Row(allocation, user, Membership(id, if status == "" then ACTIVE else status));
      memberships := memberships + {added};
      assert added in memberships;
      return Done;
    }

    /** The row with this id gets the status; nobody gains or loses a membership. */
    method UpdateMembershipStatus(id: string, status: string) returns (outcome: Outcome)
      modifies this`memberships
      ensures Reply(Rows(), outcome) == SetMemberReply(old(Rows()), id, status)
      ensures outcome.Done? <==> id != "" && status != "" && exists m :: m in old(memberships) && m.value.id == id
      ensures forall m :: m in memberships && m.value.id == id && outcome.Done? ==> m.value.status == status
      ensures forall m: Row<Membership> :: m.value.id != id ==> (m in memberships <==> m in old(memberships))
      ensures forall u :: Keys(memberships, u) == Keys(old(memberships), u)
    {
      if id == "" || status == "" { return Refused(InvalidInput); }
      if !exists m :: m in memberships && m.value.id == id { return Refused(NotFound); }
      var before := memberships;
      memberships := set m | m in before ::
        if m.value.id == id then Row(m.key, m.user, Membership(id, status)) else m;
      forall u ensures Keys(memberships, u) == Keys(before, u) {
        forall m | m in before ensures m.key in Keys(memberships, m.user) {
          var moved := if m.value.id == id then Row(m.key, m.user, Membership(id, status)) else m;
          assert moved in memberships && moved.key == m.key && moved.user == m.user;
        }
      }
      return Done;
    }

    /** The merge packet; `tailFails` is the fate of the steps after the merge. */
    method HandlePersonMerge(p: Packet, tailFails: bool) returns (outcome: Outcome)
      modifies this
      ensures Reply(Rows(), outcome) == Deliver(old(Rows()), p, tailFails)
    {
      if IsBlank(p.keepGlobal) || IsBlank(p.deleteGlobal) || IsBlank(p.deletePerson) || p.keepGlobal == p.deleteGlobal {
        return Refused(InvalidInput);
      }
      if PersonMerged(Rows(), p) { return Tail(tailFails); }
      var survivor := GetUserByIdentity(KeptId(p));
      var retiring := GetUserByIdentity(GoneId(p));
      if survivor.None? || retiring.None? { return Refused(NotFound); }
      outcome := MergeUsers(survivor.value, retiring.value);
      if outcome.Done? { outcome := Tail(tailFails); }
    }

    method GetUserByIdentity(identity: Identity) returns (user: Option<UserId>)
      ensures user == if identity in identities && identities[identity] in users then Some(identities[identity]) else None
    {
      if identity !in identities { return None; }
      if identities[identity] !in users { return None; }
      return Some(identities[identity]);
    }
  }
}
