/**
Users, their identities, cluster accounts, allocation memberships and project roles:
merging one user into another (pkg/service/user_merge.go) and the project-role upsert
(pkg/service/project_membership.go), as steps over one database value.
 */
module Directory {
  import opened Lifecycle
  import opened KeyedTable

  type ProjectId = string
  type AllocationId = string
  type ClusterId = string
  datatype Identity = Identity(source: string, external: string)

  datatype Account = Account(id: string, localUsername: string)
  datatype Membership = Membership(id: string, status: string)
  datatype Role = PI | CoPI | AllocationManager
  datatype Governance = Governance(role: Role, added: nat)

  const ACTIVE := "ACTIVE"

  /**
  users, user_identities (unique on source and external id), compute_cluster_users,
  projects.project_pi_id, compute_allocation_memberships, project_memberships, the
  project of each allocation, and the clusters.
   */
  datatype Db = Db(
    users: map<UserId, UserStatus>,
    identities: map<Identity, UserId>,
    accounts: set<Row<Account>>,
    projectPI: map<ProjectId, UserId>,
    memberships: set<Row<Membership>>,
    roles: set<Row<Governance>>,
    allocations: map<AllocationId, ProjectId>,
    clusters: set<ClusterId>)

  datatype Error = InvalidInput | NotFound | AlreadyExists | PIChange | Constraint | Downstream
  datatype Outcome = Done | Refused(error: Error)
  datatype Reply = Reply(db: Db, outcome: Outcome)

  // ---------- Merging users ----------

  predicate CanBeMerged(s: UserStatus) {
    s == Active || s == Pending
  }

  function MergeCheck(db: Db, surviving: UserId, retiring: UserId): Outcome {
    if surviving == "" || retiring == "" then Refused(InvalidInput)
    else if surviving == retiring then Refused(InvalidInput)
    else if surviving !in db.users then Refused(InvalidInput)
    else if !CanBeMerged(db.users[surviving]) then Refused(InvalidInput)
    else if retiring !in db.users then Refused(InvalidInput)
    else if db.users[retiring] == Merged then Refused(AlreadyExists)
    else if !CanBeMerged(db.users[retiring]) then Refused(InvalidInput)
    else Done
  }

  function Repointed<K>(owners: map<K, UserId>, from: UserId, to: UserId): map<K, UserId> {
    map k | k in owners :: if owners[k] == from then to else owners[k]
  }

  function MergeReply(db: Db, surviving: UserId, retiring: UserId): Reply {
    var outcome := MergeCheck(db, surviving, retiring);
    if outcome.Refused? then Reply(db, outcome)
    else Reply(db.(users := db.users[retiring := Merged],
                   identities := Repointed(db.identities, retiring, surviving),
                   accounts := Reassigned(db.accounts, retiring, surviving),
                   projectPI := Repointed(db.projectPI, retiring, surviving),
                   memberships := Reassigned(db.memberships, retiring, surviving),
                   roles := Reassigned(db.roles, retiring, surviving)), Done)
  }

  // ---------- Project roles ----------

  predicate IsRow(r: Row<Governance>, project: ProjectId, user: UserId) {
    r.key == project && r.user == user
  }

  predicate HasRole(db: Db, project: ProjectId, user: UserId, role: Role) {
    exists r :: r in db.roles && IsRow(r, project, user) && r.value.role == role
  }

  /** Some row makes a user other than this one the project's PI. */
  predicate HasOtherPI(db: Db, project: ProjectId, user: UserId) {
    exists r :: r in db.roles && r.key == project && r.value.role == PI && r.user != user
  }

  predicate IsMemberRole(role: string) {
    role == "MEMBER" || role == ""
  }

  predicate IsRoleName(role: string) {
    role == "PI" || role == "CO_PI" || role == "ALLOCATION_MANAGER"
  }

  function RoleNamed(role: string): Role
    requires IsRoleName(role)
  {
    if role == "PI" then PI else if role == "CO_PI" then CoPI else AllocationManager
  }

  function WithoutRole(db: Db, project: ProjectId, user: UserId): Db {
    db.(roles := (set r | r in db.roles && !IsRow(r, project, user)))
  }

  function WithRole(db: Db, project: ProjectId, user: UserId, role: Role): Db {
    db.(roles := (set r | r in db.roles ::
      if IsRow(r, project, user) then Row(project, user, Governance(role, r.value.added)) else r))
  }

  function EnsureReply(db: Db, project: ProjectId, user: UserId, role: string, now: nat): Reply {
    if project == "" || user == "" then Reply(db, Refused(InvalidInput))
    else if IsMemberRole(role) then
      if HasRole(db, project, user, PI) then Reply(db, Refused(PIChange))
      else Reply(WithoutRole(db, project, user), Done)
    else if !IsRoleName(role) then Reply(db, Refused(InvalidInput))
    else
      var wanted := RoleNamed(role);
      if wanted == PI && HasOtherPI(db, project, user) then Reply(db, Refused(PIChange))
      else if project in Keys(db.roles, user) then
        if HasRole(db, project, user, PI) && wanted != PI then Reply(db, Refused(PIChange))
        else Reply(WithRole(db, project, user, wanted), Done)
      else if project !in db.projectPI || user !in db.users then Reply(db, Refused(Constraint))
      else Reply(db.(roles := db.roles + {Row(project, user, Governance(wanted, now))}), Done)
  }

  // ---------- Users and identities ----------

  /** CreateUserIdentity. */
  function BindReply(db: Db, identity: Identity, user: UserId): Reply {
    if user == "" || identity.source == "" || identity.external == "" then Reply(db, Refused(InvalidInput))
    else if user !in db.users then Reply(db, Refused(InvalidInput))
    else if identity in db.identities then Reply(db, Refused(AlreadyExists))
    else Reply(db.(identities := db.identities[identity := user]), Done)
  }

  /** UpdateUserIdentity: blank fields keep what is stored. */
  function RebindReply(db: Db, identity: Identity, user: UserId, source: string, external: string): Reply {
    if identity !in db.identities then Reply(db, Refused(NotFound))
    else
      var owner := if user == "" then db.identities[identity] else user;
      var key := Identity(if source == "" then identity.source else source,
                          if external == "" then identity.external else external);
      if owner !in db.users || (key != identity && key in db.identities) then Reply(db, Refused(Constraint))
      else Reply(db.(identities := (db.identities - {identity})[key := owner]), Done)
  }

  /** A user who is some project's PI cannot be deleted; the rest goes with them, but for allocation memberships. */
  function DeleteUserReply(db: Db, user: UserId): Reply {
    if user == "" then Reply(db, Refused(InvalidInput))
    else if user !in db.users then Reply(db, Refused(NotFound))
    else if user in db.projectPI.Values then Reply(db, Refused(Constraint))
    else Reply(db.(users := db.users - {user},
                   identities := (map i | i in db.identities && db.identities[i] != user :: db.identities[i]),
                   accounts := db.accounts - RowsOf(db.accounts, user),
                   roles := db.roles - RowsOf(db.roles, user)), Done)
  }

  // ---------- Memberships and accounts ----------

  /** A blank status means ACTIVE. */
  function AddMemberReply(db: Db, allocation: AllocationId, user: UserId, id: string, status: string): Reply {
    if allocation == "" || user == "" then Reply(db, Refused(InvalidInput))
    else if allocation !in db.allocations || user !in db.users then Reply(db, Refused(InvalidInput))
    else if allocation in Keys(db.memberships, user) then Reply(db, Refused(AlreadyExists))
    else
      var m := Membership(id, if status == "" then ACTIVE else status);
      Reply(db.(memberships := db.memberships + {Row(allocation, user, m)}), Done)
  }

  function SetMemberReply(db: Db, id: string, status: string): Reply {
    if id == "" || status == "" then Reply(db, Refused(InvalidInput))
    else if forall m :: m in db.memberships ==> m.value.id != id then Reply(db, Refused(NotFound))
    else Reply(db.(memberships := (set m | m in db.memberships ::
      if m.value.id == id then Row(m.key, m.user, Membership(id, status)) else m)), Done)
  }

  predicate NameTaken(accounts: set<Row<Account>>, cluster: ClusterId, name: string) {
    exists a :: a in accounts && a.key == cluster && a.value.localUsername == name
  }

  function AddAccountReply(db: Db, cluster: ClusterId, user: UserId, name: string, id: string): Reply {
    if cluster == "" || user == "" || name == "" then Reply(db, Refused(InvalidInput))
    else if cluster !in db.clusters || user !in db.users then Reply(db, Refused(InvalidInput))
    else if cluster in Keys(db.accounts, user) || NameTaken(db.accounts, cluster, name) then Reply(db, Refused(AlreadyExists))
    else Reply(db.(accounts := db.accounts + {Row(cluster, user, Account(id, name))}), Done)
  }

  // ---------- Runs ----------

  /**
  Merges and upserts, interleaved with whatever else the service does to users and their
  identities, and with new projects, allocations, clusters, memberships and accounts.
   */
  datatype Step =
    | Ensure(project: ProjectId, user: UserId, role: string, now: nat)
    | Merge(surviving: UserId, retiring: UserId)
    | AddUser(user: UserId)
    | SetStatus(user: UserId, status: UserStatus)
    | DeleteUser(user: UserId)
    | Bind(identity: Identity, user: UserId)
    | Rebind(identity: Identity, user: UserId, source: string, external: string)
    | Unbind(identity: Identity)
    | OpenProject(project: ProjectId, pi: UserId)
    | OpenAllocation(allocation: AllocationId, project: ProjectId)
    | AddMember(allocation: AllocationId, user: UserId, id: string, state: string)
    | SetMember(id: string, state: string)
    | AddCluster(cluster: ClusterId)
    | AddAccount(cluster: ClusterId, user: UserId, name: string, id: string)

  function Apply(db: Db, step: Step): Reply {
    match step
    case Ensure(project, user, role, now) => EnsureReply(db, project, user, role, now)
    case Merge(surviving, retiring) => MergeReply(db, surviving, retiring)
    case AddUser(user) =>
      if user in db.users then Reply(db, Refused(Constraint)) else Reply(db.(users := db.users[user := Pending]), Done)
    case SetStatus(user, status) =>
      if user == "" then Reply(db, Refused(InvalidInput))
      else if user !in db.users then Reply(db, Refused(NotFound))
      else Reply(db.(users := db.users[user := status]), Done)
    case DeleteUser(user) => DeleteUserReply(db, user)
    case Bind(identity, user) => BindReply(db, identity, user)
    case Rebind(identity, user, source, external) => RebindReply(db, identity, user, source, external)
    case Unbind(identity) =>
      if identity !in db.identities then Reply(db, Refused(NotFound))
      else Reply(db.(identities := db.identities - {identity}), Done)
    case OpenProject(project, pi) =>
      if pi == "" || pi !in db.users then Reply(db, Refused(InvalidInput))
      else if project in db.projectPI then Reply(db, Refused(Constraint))
      else Reply(db.(projectPI := db.projectPI[project := pi]), Done)
    case OpenAllocation(allocation, project) =>
      if project == "" || project !in db.projectPI then Reply(db, Refused(InvalidInput))
      else if allocation in db.allocations then Reply(db, Refused(Constraint))
      else Reply(db.(allocations := db.allocations[allocation := project]), Done)
    case AddMember(allocation, user, id, state) => AddMemberReply(db, allocation, user, id, state)
    case SetMember(id, state) => SetMemberReply(db, id, state)
    case AddCluster(cluster) => Reply(db.(clusters := db.clusters + {cluster}), Done)
    case AddAccount(cluster, user, name, id) => AddAccountReply(db, cluster, user, name, id)
  }

  function Run(db: Db, steps: seq<Step>): Db
    decreases |steps|
  {
    if steps == [] then db else Run(Apply(db, steps[0]).db, steps[1..])
  }

  // ---------- What every step keeps ----------

  ghost predicate OnePI(roles: set<Row<Governance>>) {
    forall r, s :: r in roles && s in roles && r.key == s.key && r.value.role == PI && s.value.role == PI ==> r == s
  }

  /** One row per (key, user) in each table, one local user name per cluster, one PI per project. */
  ghost predicate Valid(db: Db) {
    && UniqueAccounts(db.accounts)
    && UniqueKeys(db.memberships)
    && UniqueKeys(db.roles)
    && OnePI(db.roles)
  }

  lemma ReassignKeepsOnePI(roles: set<Row<Governance>>, from: UserId, to: UserId)
    requires OnePI(roles)
    ensures OnePI(Reassigned(roles, from, to))
  {
  }

  lemma MergeKeepsValid(db: Db, surviving: UserId, retiring: UserId)
    requires Valid(db)
    ensures Valid(MergeReply(db, surviving, retiring).db)
  {
    if MergeCheck(db, surviving, retiring).Done? {
      ReassignKeepsKeys(db.accounts, retiring, surviving);
      ReassignKeepsNames(db.accounts, retiring, surviving, (a: Account) => a.localUsername);
      ReassignKeepsKeys(db.memberships, retiring, surviving);
      ReassignKeepsKeys(db.roles, retiring, surviving);
      ReassignKeepsOnePI(db.roles, retiring, surviving);
    }
  }

  lemma WithRoleKeepsRules(db: Db, project: ProjectId, user: UserId, role: Role)
    requires UniqueKeys(db.roles) && OnePI(db.roles) && (role == PI ==> !HasOtherPI(db, project, user))
    ensures UniqueKeys(WithRole(db, project, user, role).roles) && OnePI(WithRole(db, project, user, role).roles)
  {
  }

  lemma NewRoleKeepsRules(db: Db, r: Row<Governance>)
    requires UniqueKeys(db.roles) && OnePI(db.roles)
    requires r.key !in Keys(db.roles, r.user) && (r.value.role == PI ==> !HasOtherPI(db, r.key, r.user))
    ensures UniqueKeys(db.roles + {r}) && OnePI(db.roles + {r})
  {
  }

  lemma EnsureKeepsValid(db: Db, project: ProjectId, user: UserId, role: string, now: nat)
    requires Valid(db)
    ensures Valid(EnsureReply(db, project, user, role, now).db)
  {
    if EnsureReply(db, project, user, role, now).outcome.Done? && !IsMemberRole(role) {
      var wanted := RoleNamed(role);
      if project in Keys(db.roles, user) {
        WithRoleKeepsRules(db, project, user, wanted);
      } else {
        NewRoleKeepsRules(db, Row(project, user, Governance(wanted, now)));
      }
    }
  }

  lemma MembersKeepKeys(db: Db, allocation: AllocationId, user: UserId, id: string, status: string)
    requires UniqueKeys(db.memberships)
    ensures UniqueKeys(AddMemberReply(db, allocation, user, id, status).db.memberships)
    ensures UniqueKeys(SetMemberReply(db, id, status).db.memberships)
  {
  }

  /** The two unique constraints of compute_cluster_users. */
  ghost predicate UniqueAccounts(accounts: set<Row<Account>>) {
    UniqueKeys(accounts) && UniqueNames(accounts, (a: Account) => a.localUsername)
  }

  lemma NewAccountKeepsUnique(accounts: set<Row<Account>>, a: Row<Account>)
    requires UniqueAccounts(accounts)
    requires a.key !in Keys(accounts, a.user) && !NameTaken(accounts, a.key, a.value.localUsername)
    ensures UniqueAccounts(accounts + {a})
  {
    assert forall b :: b in accounts && b.key == a.key ==> b.user != a.user;
  }

  lemma StepKeepsValid(db: Db, step: Step)
    requires Valid(db)
    ensures Valid(Apply(db, step).db)
  {
    match step
    case Ensure(project, user, role, now) => EnsureKeepsValid(db, project, user, role, now);
    case Merge(surviving, retiring) => MergeKeepsValid(db, surviving, retiring);
    case AddMember(allocation, user, id, state) => MembersKeepKeys(db, allocation, user, id, state);
    case SetMember(id, state) => MembersKeepKeys(db, "", "", id, state);
    case AddAccount(cluster, user, name, id) =>
      if AddAccountReply(db, cluster, user, name, id).outcome.Done? {
        NewAccountKeepsUnique(db.accounts, Row(cluster, user, Account(id, name)));
      }
    case _ =>
  }

  /** Every run keeps one row per (project, user) and at most one PI per project. */
  lemma {:induction false} RunKeepsValid(db: Db, steps: seq<Step>)
    requires Valid(db)
    ensures Valid(Run(db, steps))
    decreases |steps|
  {
    if steps != [] {
      StepKeepsValid(db, steps[0]);
      RunKeepsValid(Apply(db, steps[0]).db, steps[1..]);
    }
  }

  // ---------- What a merge does ----------

  /** A successful merge is the keyed union of both users' rows in each of the three tables. */
  lemma MergeIsKeyedUnion(db: Db, surviving: UserId, retiring: UserId)
    requires Valid(db) && MergeReply(db, surviving, retiring).outcome.Done?
    ensures var after := MergeReply(db, surviving, retiring).db;
      && KeyedUnion(db.accounts, after.accounts, retiring, surviving)
      && KeyedUnion(db.memberships, after.memberships, retiring, surviving)
      && KeyedUnion(db.roles, after.roles, retiring, surviving)
  {
    ReassignIsKeyedUnion(db.accounts, retiring, surviving);
    ReassignIsKeyedUnion(db.memberships, retiring, surviving);
    ReassignIsKeyedUnion(db.roles, retiring, surviving);
  }

  /** Each of them shrinks by exactly the keys both users held. */
  lemma MergeDropsOverlap(db: Db, surviving: UserId, retiring: UserId)
    requires Valid(db) && MergeReply(db, surviving, retiring).outcome.Done?
    ensures var after := MergeReply(db, surviving, retiring).db;
      && DropsOverlap(db.accounts, after.accounts, retiring, surviving)
      && DropsOverlap(db.memberships, after.memberships, retiring, surviving)
      && DropsOverlap(db.roles, after.roles, retiring, surviving)
  {
    ReassignDropsOverlap(db.accounts, retiring, surviving);
    ReassignDropsOverlap(db.memberships, retiring, surviving);
    ReassignDropsOverlap(db.roles, retiring, surviving);
  }

  /** `after` is `before` with everything from owned passed to to. */
  ghost predicate HandedOver<K(!new)>(before: map<K, UserId>, after: map<K, UserId>, from: UserId, to: UserId) {
    && after.Keys == before.Keys
    && from !in after.Values
    && forall k :: k in before && before[k] != after[k] ==> before[k] == from && after[k] == to
  }

  /** The survivor takes over every identity and project, and only the retiring user's status changes, to MERGED. */
  lemma MergeHandsOver(db: Db, surviving: UserId, retiring: UserId)
    requires MergeReply(db, surviving, retiring).outcome.Done?
    ensures var after := MergeReply(db, surviving, retiring).db;
      && HandedOver(db.identities, after.identities, retiring, surviving)
      && HandedOver(db.projectPI, after.projectPI, retiring, surviving)
      && after.allocations == db.allocations && after.clusters == db.clusters
      && after.users.Keys == db.users.Keys && after.users[retiring] == Merged
      && forall u :: u in db.users && u != retiring ==> after.users[u] == db.users[u]
  {
  }

  /**
  A merge goes through exactly between two different users who are both ACTIVE or PENDING, and
  then not a second time; a user merged already is reported as such.
   */
  lemma MergeDoneIff(db: Db, surviving: UserId, retiring: UserId)
    ensures var reply := MergeReply(db, surviving, retiring);
      && (reply.outcome.Done? <==>
            && surviving != "" && retiring != "" && surviving != retiring
            && {surviving, retiring} <= db.users.Keys
            && db.users[surviving] in {Active, Pending} && db.users[retiring] in {Active, Pending})
      && (reply.outcome == Refused(AlreadyExists) <==>
            && surviving != "" && retiring != "" && surviving != retiring
            && {surviving, retiring} <= db.users.Keys
            && db.users[surviving] in {Active, Pending} && db.users[retiring] == Merged)
      && (reply.outcome.Refused? ==> reply.db == db && reply.outcome.error in {InvalidInput, AlreadyExists})
      && (reply.outcome.Done? ==> MergeReply(reply.db, surviving, retiring) == Reply(reply.db, Refused(AlreadyExists)))
      && (reply.outcome.Done? ==> MergeReply(reply.db, retiring, surviving) == Reply(reply.db, Refused(InvalidInput)))
  {
  }

  /** The user named by the project record holds its PI row. */
  ghost predicate PIAgrees(db: Db, project: ProjectId) {
    project in db.projectPI && HasRole(db, project, db.projectPI[project], PI)
  }

  /**
  Where the project record and the PI row agreed, a merge keeps them agreeing if and only if
  it does not retire that PI into a user who already has another role on the project: then
  the survivor's row wins, the record names the survivor, and the project has no PI row.
   */
  lemma MergeKeepsPIIff(db: Db, surviving: UserId, retiring: UserId, project: ProjectId)
    requires Valid(db) && MergeReply(db, surviving, retiring).outcome.Done? && PIAgrees(db, project)
    ensures PIAgrees(MergeReply(db, surviving, retiring).db, project) <==>
      !(db.projectPI[project] == retiring && project in Keys(db.roles, surviving))
  {
    var after := MergeReply(db, surviving, retiring).db;
    var pi := db.projectPI[project];
    var r :| r in db.roles && IsRow(r, project, pi) && r.value.role == PI;
    if pi == retiring && project in Keys(db.roles, surviving) {
      forall s | s in after.roles && IsRow(s, project, surviving) ensures s.value.role != PI {
        var s0 := WhereFrom(db.roles, retiring, surviving, s);
      }
    } else {
      assert r in Kept(db.roles, retiring, surviving);
      assert Repoint(r, retiring, surviving) in after.roles;
    }
  }

  const CO_PI_OF_OWN_ALIAS := Db(map["old" := Active, "new" := Active], map[], {},
                                 map["p" := "old"], {},
                                 {Row("p", "old", Governance(PI, 0)), Row("p", "new", Governance(CoPI, 0))}, map[], {})

  /** A project can lose its PI row to a merge. */
  lemma MergeCanDropPI()
    ensures Valid(CO_PI_OF_OWN_ALIAS) && PIAgrees(CO_PI_OF_OWN_ALIAS, "p")
    ensures var reply := MergeReply(CO_PI_OF_OWN_ALIAS, "new", "old");
      && reply.outcome.Done?
      && reply.db.projectPI["p"] == "new"
      && forall r :: r in reply.db.roles ==> r.value.role != PI
  {
    var db := CO_PI_OF_OWN_ALIAS;
    var pi, co := Row("p", "old", Governance(PI, 0)), Row("p", "new", Governance(CoPI, 0));
    assert db.roles == {pi, co} && pi in db.roles && IsRow(pi, "p", "old") && co in db.roles;
    assert "p" in Keys(db.roles, "new");
    assert Kept(db.roles, "old", "new") == {co};
  }

  // ---------- What the upsert does ----------

  function RolesOf(db: Db, project: ProjectId, user: UserId): set<Role> {
    set r | r in db.roles && r.key == project && r.user == user :: r.value.role
  }

  predicate HasRow(db: Db, project: ProjectId, user: UserId) {
    exists r :: r in db.roles && r.key == project && r.user == user
  }

  /** Asks to take the one PI away or to add a second: the PI with another role, or another user as PI. */
  predicate ChangesPI(db: Db, project: ProjectId, user: UserId, role: string) {
    exists r :: r in db.roles && r.key == project && r.value.role == PI && ((r.user == user) != (role == "PI"))
  }

  /**
  The upsert succeeds if and only if both ids are given, the role is MEMBER, blank or one of the
  three names, the PI stays, and for a named role there is a row to change or both ids are known.
   */
  lemma EnsureDoneIff(db: Db, project: ProjectId, user: UserId, role: string, now: nat)
    requires Valid(db)
    ensures EnsureReply(db, project, user, role, now).outcome.Done? <==>
      && project != "" && user != ""
      && role in {"", "MEMBER", "PI", "CO_PI", "ALLOCATION_MANAGER"}
      && !ChangesPI(db, project, user, role)
      && (role in {"", "MEMBER"} || HasRow(db, project, user) || (project in db.projectPI && user in db.users))
  {
    assert HasRow(db, project, user) <==> project in Keys(db.roles, user);
  }

  /** On success the user has exactly the role asked for by name, none for MEMBER. */
  lemma EnsureSetsRole(db: Db, project: ProjectId, user: UserId, role: string, now: nat)
    requires EnsureReply(db, project, user, role, now).outcome.Done?
    ensures RolesOf(EnsureReply(db, project, user, role, now).db, project, user) ==
      if role == "PI" then {PI}
      else if role == "CO_PI" then {CoPI}
      else if role == "ALLOCATION_MANAGER" then {AllocationManager}
      else {}
  {
    var after := EnsureReply(db, project, user, role, now).db;
    if IsRoleName(role) {
      var wanted := RoleNamed(role);
      if project in Keys(db.roles, user) {
        var r :| r in db.roles && IsRow(r, project, user);
        assert Row(project, user, Governance(wanted, r.value.added)) in after.roles;
      } else {
        assert Row(project, user, Governance(wanted, now)) in after.roles;
      }
      assert wanted in RolesOf(after, project, user);
    }
  }

  /** A new row is dated now; a row that was there keeps its date. */
  lemma EnsureKeepsDate(db: Db, project: ProjectId, user: UserId, role: string, now: nat, r: Row<Governance>)
    requires Valid(db) && r in EnsureReply(db, project, user, role, now).db.roles && IsRow(r, project, user)
    ensures !HasRow(db, project, user) ==> r.value.added == now
    ensures forall before :: before in db.roles && IsRow(before, project, user) ==> r.value.added == before.value.added
  {
    assert HasRow(db, project, user) <==> project in Keys(db.roles, user);
  }

  /** No other row moves, no other table changes, and a refusal changes nothing. */
  lemma EnsureTouchesOneRow(db: Db, project: ProjectId, user: UserId, role: string, now: nat)
    ensures var reply := EnsureReply(db, project, user, role, now);
      && (reply.outcome.Refused? ==> reply.db == db)
      && reply.db == db.(roles := reply.db.roles)
      && forall r: Row<Governance> :: !(r.key == project && r.user == user) ==> (r in db.roles <==> r in reply.db.roles)
  {
  }

  /**
  The PI rule fires exactly for a second PI and for taking the role off the PI; a call is
  malformed exactly if an id is blank or the role has no meaning.
   */
  lemma PIChangeIff(db: Db, project: ProjectId, user: UserId, role: string, now: nat)
    requires Valid(db)
    ensures var outcome := EnsureReply(db, project, user, role, now).outcome;
      var malformed := project == "" || user == "" || role !in {"", "MEMBER", "PI", "CO_PI", "ALLOCATION_MANAGER"};
      && (outcome == Refused(InvalidInput) <==> malformed)
      && (outcome == Refused(PIChange) <==> !malformed && ChangesPI(db, project, user, role))
      && (outcome.Refused? ==> outcome.error in {InvalidInput, PIChange, Constraint})
  {
  }

  lemma EnsureKeepsPIRow(db: Db, project: ProjectId, user: UserId, role: string, now: nat, r: Row<Governance>)
    requires UniqueKeys(db.roles) && r in db.roles && r.value.role == PI
    ensures r in EnsureReply(db, project, user, role, now).db.roles
  {
  }

  /** However many upserts run, a PI row is never removed, demoted or replaced. */
  lemma {:induction false} UpsertsNeverTouchPI(db: Db, steps: seq<Step>, r: Row<Governance>)
    requires Valid(db) && r in db.roles && r.value.role == PI
    requires forall i :: 0 <= i < |steps| ==> steps[i].Ensure?
    ensures r in Run(db, steps).roles
    decreases |steps|
  {
    if steps != [] {
      var s := steps[0];
      EnsureKeepsPIRow(db, s.project, s.user, s.role, s.now, r);
      StepKeepsValid(db, s);
      UpsertsNeverTouchPI(Apply(db, s).db, steps[1..], r);
    }
  }
}
