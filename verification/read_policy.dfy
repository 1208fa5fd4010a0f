/**
Who may read an allocation or a project by id (internal/server/route_policy.go), against what
the participant listings show (internal/store/compute_allocation_store.go, project_store.go).
 */
module ReadPolicy {
  import opened Common
  import opened KeyedTable
  import opened Directory

  const GOVERNANCE_ROLES := {PI, CoPI, AllocationManager}

  // ---------- By id ----------

  /** SELECT ... WHERE key = ? AND user = ?, taking the row that comes first. */
  ghost function FindByPair<V>(rows: set<Row<V>>, key: string, user: UserId): Option<V> {
    if r :| r in rows && r.key == key && r.user == user then Some(r.value) else None
  }

  ghost predicate IsAllocationMember(db: Db, allocation: AllocationId, user: UserId) {
    var m := FindByPair(db.memberships, allocation, user);
    m.Some? && m.value.status == ACTIVE
  }

  /** The policy for allocations, with `reader` set for a caller who has the read privilege. */
  ghost predicate CanReadAllocation(db: Db, allocation: AllocationId, caller: Option<UserId>, reader: bool) {
    if caller.None? then false
    else if reader then true
    else if allocation !in db.allocations then false
    else
      var role := FindByPair(db.roles, db.allocations[allocation], caller.value);
      if role.Some? && role.value.role in GOVERNANCE_ROLES then true
      else IsAllocationMember(db, allocation, caller.value)
  }

  /** A row on the project, or an active membership on one of its allocations. */
  ghost predicate IsParticipant(db: Db, project: ProjectId, user: UserId) {
    || (exists r :: r in db.roles && r.key == project && r.user == user)
    || (exists m :: m in db.memberships && m.user == user && m.value.status == ACTIVE
          && m.key in db.allocations && db.allocations[m.key] == project)
  }

  ghost predicate CanReadProject(db: Db, project: ProjectId, caller: Option<UserId>, reader: bool) {
    if caller.None? then false
    else if reader then true
    else IsParticipant(db, project, caller.value)
  }

  // ---------- The listings ----------

  function FindByParticipant(db: Db, user: UserId): set<AllocationId> {
    set a | a in db.allocations
      && (|| (exists m :: m in db.memberships && m.key == a && m.user == user && m.value.status == ACTIVE)
          || (exists r :: r in db.roles && r.key == db.allocations[a] && r.user == user && r.value.role in GOVERNANCE_ROLES))
  }

  /** The projects that exist, filtered by two sub-queries of their own. */
  function ListWithPIForParticipant(db: Db, user: UserId): set<ProjectId> {
    set p | p in db.projectPI
      && (|| p in Keys(db.roles, user)
          || (exists a :: a in db.allocations && db.allocations[a] == p
                && exists m :: m in db.memberships && m.key == a && m.user == user && m.value.status == ACTIVE))
  }

  // ---------- Who may read ----------

  /**
  An allocation can be read by a caller with the read privilege, and if it exists by one with any
  role on its project or an ACTIVE membership; never without a caller.
   */
  lemma AllocationReaders(db: Db, allocation: AllocationId, caller: Option<UserId>, reader: bool)
    requires Valid(db)
    ensures CanReadAllocation(db, allocation, caller, reader) <==>
      && caller.Some?
      && (|| reader
          || (&& allocation in db.allocations
              && (|| (exists r :: r in db.roles && r.key == db.allocations[allocation] && r.user == caller.value)
                  || (exists m :: m in db.memberships && m.key == allocation && m.user == caller.value
                        && m.value.status == "ACTIVE"))))
  {
  }

  /** A project likewise, with an ACTIVE membership on one of its allocations. */
  lemma ProjectReaders(db: Db, project: ProjectId, caller: Option<UserId>, reader: bool)
    ensures CanReadProject(db, project, caller, reader) <==>
      && caller.Some?
      && (|| reader
          || (exists r :: r in db.roles && r.key == project && r.user == caller.value)
          || (exists a :: a in db.allocations && db.allocations[a] == project
                && exists m :: m in db.memberships && m.key == a && m.user == caller.value && m.value.status == "ACTIVE"))
  {
  }

  // ---------- They agree ----------

  /** Project roles and allocations belong to projects that exist. */
  ghost predicate Refers(db: Db) {
    && (forall r :: r in db.roles ==> r.key in db.projectPI)
    && (forall a :: a in db.allocations ==> db.allocations[a] in db.projectPI)
  }

  /** Without the privilege, an allocation can be read exactly when the caller's list shows it. */
  lemma AllocationPolicyIsListing(db: Db, allocation: AllocationId, user: UserId)
    requires Valid(db)
    ensures CanReadAllocation(db, allocation, Some(user), false) <==> allocation in FindByParticipant(db, user)
  {
  }

  lemma ProjectPolicyIsListing(db: Db, project: ProjectId, user: UserId)
    requires Refers(db)
    ensures CanReadProject(db, project, Some(user), false) <==> project in ListWithPIForParticipant(db, user)
  {
  }

  /** Whoever can read an allocation can read its project. */
  lemma AllocationImpliesProject(db: Db, allocation: AllocationId, user: UserId)
    requires CanReadAllocation(db, allocation, Some(user), false)
    ensures CanReadProject(db, db.allocations[allocation], Some(user), false)
  {
  }

  // ---------- In every reachable state ----------

  lemma StepKeepsRefers(db: Db, step: Step)
    requires Refers(db)
    ensures Refers(Apply(db, step).db)
  {
    var after := Apply(db, step).db;
    if step.Merge? && after != db {
      forall r | r in after.roles ensures r.key in after.projectPI {
        var r0 := WhereFrom(db.roles, step.retiring, step.surviving, r);
      }
    }
  }

  lemma {:induction false} RunKeepsRefers(db: Db, steps: seq<Step>)
    requires Refers(db)
    ensures Refers(Run(db, steps))
    decreases |steps|
  {
    if steps != [] {
      StepKeepsRefers(db, steps[0]);
      RunKeepsRefers(Apply(db, steps[0]).db, steps[1..]);
    }
  }

  /** After every run of merges, role changes and the rest, policy and listing still agree. */
  lemma PolicyIsListingAfterRun(db: Db, steps: seq<Step>, allocation: AllocationId, project: ProjectId, user: UserId)
    requires Valid(db) && Refers(db)
    ensures var w := Run(db, steps);
      && (CanReadAllocation(w, allocation, Some(user), false) <==> allocation in FindByParticipant(w, user))
      && (CanReadProject(w, project, Some(user), false) <==> project in ListWithPIForParticipant(w, user))
  {
    var w := Run(db, steps);
    RunKeepsValid(db, steps);
    RunKeepsRefers(db, steps);
    AllocationPolicyIsListing(w, allocation, user);
    ProjectPolicyIsListing(w, project, user);
  }
}
