/**
The plain steps over the user tables that runs of module Directory interleave with merges and
role changes: when each goes through, what it leaves, and which of them undo each other.
 */
module DirectorySteps {
  import opened Lifecycle
  import opened KeyedTable
  import opened Directory

  /** Refused steps change nothing. */
  lemma RefusedIsInert(db: Db, step: Step)
    requires Apply(db, step).outcome.Refused?
    ensures Apply(db, step).db == db
  {
  }

  // ---------- Identities ----------

  /** Only the owner of one identity differs. */
  ghost predicate OwnersAgreeBut(db: Db, after: Db, identity: Identity) {
    && after == db.(identities := after.identities)
    && forall i :: i != identity ==>
         && (i in after.identities <==> i in db.identities)
         && (i in db.identities ==> after.identities[i] == db.identities[i])
  }

  /** A new identity is bound to a user who exists; one that is bound stays bound as it is. */
  lemma BindIs(db: Db, identity: Identity, user: UserId)
    ensures var reply := Apply(db, Bind(identity, user));
      var malformed := user == "" || identity.source == "" || identity.external == "" || user !in db.users;
      && reply.outcome == (if malformed then Refused(InvalidInput)
                           else if identity in db.identities then Refused(AlreadyExists) else Done)
      && (reply.outcome.Refused? ==> reply.db == db)
      && (reply.outcome.Done? ==> identity in reply.db.identities && reply.db.identities[identity] == user)
      && OwnersAgreeBut(db, reply.db, identity)
  {
  }

  lemma UnbindIs(db: Db, identity: Identity)
    ensures var reply := Apply(db, Unbind(identity));
      && reply.outcome == (if identity in db.identities then Done else Refused(NotFound))
      && identity !in reply.db.identities && OwnersAgreeBut(db, reply.db, identity)
  {
  }

  /** Given with neither part blank, the identity an update asks for and the owner it names. */
  lemma RebindIs(db: Db, identity: Identity, user: UserId, asked: Identity)
    requires asked.source != "" && asked.external != "" && user != ""
    ensures var reply := Apply(db, Rebind(identity, user, asked.source, asked.external));
      && (reply.outcome == Refused(NotFound) <==> identity !in db.identities)
      && (reply.outcome.Done? <==>
            identity in db.identities && user in db.users && (asked == identity || asked !in db.identities))
      && (reply.outcome.Done? ==>
            && reply.db == db.(identities := reply.db.identities)
            && reply.db.identities.Keys == db.identities.Keys - {identity} + {asked}
            && reply.db.identities[asked] == user
            && forall i :: i in db.identities && i != identity ==> reply.db.identities[i] == db.identities[i])
  {
  }

  /** A blank part of the update means what is stored. */
  lemma BlankMeansStored(db: Db, identity: Identity, user: UserId, source: string, external: string)
    requires identity in db.identities
    ensures Apply(db, Rebind(identity, user, source, external)) ==
      Apply(db, Rebind(identity,
                       if user == "" then db.identities[identity] else user,
                       if source == "" then identity.source else source,
                       if external == "" then identity.external else external))
  {
  }

  /** Rebound and rebound again as it was, an identity is where it was. */
  lemma ReboundBack(db: Db, identity: Identity, user: UserId, asked: Identity)
    requires identity.source != "" && identity.external != "" && asked.source != "" && asked.external != "" && user != ""
    requires identity in db.identities && db.identities[identity] != "" && db.identities[identity] in db.users
    requires Apply(db, Rebind(identity, user, asked.source, asked.external)).outcome.Done?
    ensures var there := Apply(db, Rebind(identity, user, asked.source, asked.external)).db;
      Apply(there, Rebind(asked, db.identities[identity], identity.source, identity.external)) == Reply(db, Done)
  {
    var there := Apply(db, Rebind(identity, user, asked.source, asked.external)).db;
    RebindIs(db, identity, user, asked);
    RebindIs(there, asked, db.identities[identity], identity);
    var back := Apply(there, Rebind(asked, db.identities[identity], identity.source, identity.external)).db;
    assert back.identities == db.identities;
  }

  // ---------- Users ----------

  /** A user who is no project's PI can go, with their identities, accounts and roles; their memberships stay. */
  lemma DeleteUserIs(db: Db, user: UserId)
    ensures var reply := Apply(db, DeleteUser(user));
      var after := reply.db;
      && reply.outcome == (if user == "" then Refused(InvalidInput)
                           else if user !in db.users then Refused(NotFound)
                           else if exists p :: p in db.projectPI && db.projectPI[p] == user then Refused(Constraint)
                           else Done)
      && after == db.(users := after.users, identities := after.identities, accounts := after.accounts, roles := after.roles)
      && (reply.outcome.Done? ==>
            && (forall u :: u in after.users <==> u in db.users && u != user)
            && (forall u :: u in after.users ==> after.users[u] == db.users[u])
            && (forall i :: i in after.identities <==> i in db.identities && db.identities[i] != user)
            && (forall i :: i in after.identities ==> after.identities[i] == db.identities[i])
            && (forall a :: a in after.accounts <==> a in db.accounts && a.user != user)
            && (forall r :: r in after.roles <==> r in db.roles && r.user != user))
  {
  }

  /** Users created without a status start PENDING, each under an id of their own; one who exists can be given any status. */
  lemma UserStepsAre(db: Db, user: UserId, status: UserStatus)
    ensures var added := Apply(db, AddUser(user));
      && added.outcome == (if user in db.users then Refused(Constraint) else Done)
      && (added.outcome.Done? ==> added.db == db.(users := db.users[user := Pending]))
    ensures var changed := Apply(db, SetStatus(user, status));
      && changed.outcome == (if user == "" then Refused(InvalidInput) else if user in db.users then Done else Refused(NotFound))
      && (changed.outcome.Done? ==> changed.db == db.(users := db.users[user := status]))
  {
  }

  // ---------- Projects, allocations, clusters, accounts ----------

  /** A project needs a known PI, an allocation a known project, and either a fresh id. */
  lemma OpeningIs(db: Db, project: ProjectId, pi: UserId, allocation: AllocationId)
    ensures var created := Apply(db, OpenProject(project, pi));
      && (created.outcome.Done? <==> pi != "" && pi in db.users && project !in db.projectPI)
      && (created.outcome.Done? ==> created.db == db.(projectPI := db.projectPI[project := pi]))
    ensures var granted := Apply(db, OpenAllocation(allocation, project));
      && (granted.outcome.Done? <==> project != "" && project in db.projectPI && allocation !in db.allocations)
      && (granted.outcome.Done? ==> granted.db == db.(allocations := db.allocations[allocation := project]))
  {
  }

  /** One account per user and cluster, one user per local name and cluster. */
  lemma AccountIs(db: Db, cluster: ClusterId, user: UserId, name: string, id: string)
    ensures var reply := Apply(db, AddAccount(cluster, user, name, id));
      var malformed := cluster == "" || user == "" || name == "" || cluster !in db.clusters || user !in db.users;
      var clash := exists a :: a in db.accounts && a.key == cluster && (a.user == user || a.value.localUsername == name);
      && reply.outcome == (if malformed then Refused(InvalidInput) else if clash then Refused(AlreadyExists) else Done)
      && (reply.outcome.Done? ==> reply.db == db.(accounts := db.accounts + {Row(cluster, user, Account(id, name))}))
  {
  }

  // ---------- Memberships ----------

  predicate IsMemberOf(db: Db, allocation: AllocationId, user: UserId) {
    exists m :: m in db.memberships && m.key == allocation && m.user == user
  }

  /** One membership per user and allocation, of users and allocations that exist. */
  lemma MembershipIs(db: Db, allocation: AllocationId, user: UserId, id: string, state: string)
    ensures var reply := Apply(db, AddMember(allocation, user, id, state));
      var malformed := allocation == "" || user == "" || allocation !in db.allocations || user !in db.users;
      && reply.outcome == (if malformed then Refused(InvalidInput)
                           else if IsMemberOf(db, allocation, user) then Refused(AlreadyExists) else Done)
      && reply.db == db.(memberships := reply.db.memberships)
      && (reply.outcome.Done? ==> forall m :: m in reply.db.memberships <==>
            || m in db.memberships
            || m == Row(allocation, user, Membership(id, if state == "" then "ACTIVE" else state)))
  {
  }

  /** Exactly the rows with this id change, and only in their status. */
  lemma MembershipStatusIs(db: Db, id: string, state: string)
    ensures var reply := Apply(db, SetMember(id, state));
      && reply.outcome == (if id == "" || state == "" then Refused(InvalidInput)
                           else if exists m :: m in db.memberships && m.value.id == id then Done else Refused(NotFound))
      && reply.db == db.(memberships := reply.db.memberships)
      && (reply.outcome.Done? ==> forall key: AllocationId, user: UserId, value: Membership ::
            Row(key, user, value) in reply.db.memberships <==>
              if value.id == id then value.status == state && exists was :: Row(key, user, Membership(id, was)) in db.memberships
              else Row(key, user, value) in db.memberships)
  {
    var after := Apply(db, SetMember(id, state)).db;
    if Apply(db, SetMember(id, state)).outcome.Done? {
      forall key: AllocationId, user: UserId, was: string | Row(key, user, Membership(id, was)) in db.memberships
        ensures Row(key, user, Membership(id, state)) in after.memberships
      {
        assert Row(key, user, Membership(id, was)).value.id == id;
      }
    }
  }

  // ---------- Every run keeps the foreign keys ----------

  /** Every row names rows that exist; the user of a membership alone may be gone. */
  ghost predicate Grounded(db: Db) {
    && (forall p :: p in db.projectPI ==> db.projectPI[p] in db.users)
    && (forall i :: i in db.identities ==> db.identities[i] in db.users)
    && (forall a :: a in db.accounts ==> a.user in db.users && a.key in db.clusters)
    && (forall r :: r in db.roles ==> r.user in db.users && r.key in db.projectPI)
    && (forall a :: a in db.allocations ==> db.allocations[a] in db.projectPI)
    && (forall m :: m in db.memberships ==> m.key in db.allocations)
  }

  /** After a merge each row was there before, under the same key and owned by the same user or the survivor. */
  lemma ReassignedComesFrom<V>(table: set<Row<V>>, from: UserId, to: UserId, r: Row<V>)
    requires r in Reassigned(table, from, to)
    ensures exists r0 :: r0 in table && r0.key == r.key && (r0.user == r.user || r.user == to)
  {
    var r0 := WhereFrom(table, from, to, r);
  }

  lemma MergeKeepsGrounded(db: Db, surviving: UserId, retiring: UserId)
    requires Grounded(db)
    ensures Grounded(MergeReply(db, surviving, retiring).db)
  {
    var after := MergeReply(db, surviving, retiring).db;
    if MergeReply(db, surviving, retiring).outcome.Done? {
      forall a | a in after.accounts ensures a.user in after.users && a.key in after.clusters {
        ReassignedComesFrom(db.accounts, retiring, surviving, a);
      }
      forall r | r in after.roles ensures r.user in after.users && r.key in after.projectPI {
        ReassignedComesFrom(db.roles, retiring, surviving, r);
      }
      forall m | m in after.memberships ensures m.key in after.allocations {
        ReassignedComesFrom(db.memberships, retiring, surviving, m);
      }
    }
  }

  lemma EnsureKeepsGrounded(db: Db, project: ProjectId, user: UserId, role: string, now: nat)
    requires Grounded(db)
    ensures Grounded(EnsureReply(db, project, user, role, now).db)
  {
    EnsureTouchesOneRow(db, project, user, role, now);
  }

  lemma DeletionKeepsGrounded(db: Db, user: UserId)
    requires Grounded(db)
    ensures Grounded(DeleteUserReply(db, user).db)
  {
    DeleteUserIs(db, user);
  }

  lemma MembersKeepGrounded(db: Db, step: Step)
    requires Grounded(db) && (step.AddMember? || step.SetMember? || step.AddAccount? || step.AddCluster?)
    ensures Grounded(Apply(db, step).db)
  {
  }

  lemma OwnersKeepGrounded(db: Db, step: Step)
    requires Grounded(db) && (step.Bind? || step.Rebind? || step.Unbind? || step.AddUser? || step.SetStatus?)
    ensures Grounded(Apply(db, step).db)
  {
  }

  lemma StepKeepsGrounded(db: Db, step: Step)
    requires Grounded(db)
    ensures Grounded(Apply(db, step).db)
  {
    match step
    case Ensure(project, user, role, now) => EnsureKeepsGrounded(db, project, user, role, now);
    case Merge(surviving, retiring) => MergeKeepsGrounded(db, surviving, retiring);
    case DeleteUser(user) => DeletionKeepsGrounded(db, user);
    case OpenProject(_, _) =>
    case OpenAllocation(_, _) =>
    case _ =>
      if step.Bind? || step.Rebind? || step.Unbind? || step.AddUser? || step.SetStatus? { OwnersKeepGrounded(db, step); }
      else { MembersKeepGrounded(db, step); }
  }

  lemma {:induction false} RunKeepsGrounded(db: Db, steps: seq<Step>)
    requires Grounded(db)
    ensures Grounded(Run(db, steps))
    decreases |steps|
  {
    if steps != [] {
      StepKeepsGrounded(db, steps[0]);
      RunKeepsGrounded(Apply(db, steps[0]).db, steps[1..]);
    }
  }
}
