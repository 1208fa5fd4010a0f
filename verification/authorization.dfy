/**
The authorization tables of pkg/service (direct grants, role assignments and role
bundles) as values, every service transaction that changes them as one atomic step,
and what whole runs of those steps keep.

Guards are stated here by what they are for ("would nobody be left holding this key?").
The service class in authorization_service.dfy runs the counting queries of the source
and is proved against this module.
 */
module Authorization {

  type UserId = string
  type RoleId = string
  type Key = string

  const PRIVILEGES_GRANT: Key := "core:privileges:grant"
  const ROLES_MANAGE: Key := "core:roles:manage"
  const META_KEYS: set<Key> := {PRIVILEGES_GRANT, ROLES_MANAGE}
  const SUPER_ADMIN := "super_admin"

  /** The service's error values; Constraint is a write the schema rejects. */
  datatype Error = InvalidInput | NotFound | AlreadyExists | Constraint

  datatype Outcome = Done | Refused(error: Error)

  datatype Role = Role(name: string, isSystem: bool)

  datatype Tables = Tables(
    users: map<UserId, string>,         // id to email
    roles: map<RoleId, Role>,
    direct: set<(UserId, Key)>,         // user_privileges
    held: set<(UserId, RoleId)>,        // user_roles
    bundle: set<(RoleId, Key)>)         // role_privileges

  datatype Reply = Reply(tables: Tables, outcome: Outcome)

  datatype Step =
    | GrantPrivilege(user: UserId, key: Key, actor: UserId)
    | RevokePrivilege(user: UserId, key: Key, actor: UserId)
    | GrantRole(user: UserId, role: RoleId, actor: UserId)
    | RevokeRole(user: UserId, role: RoleId, actor: UserId)
    | CreateRole(id: RoleId, name: string, actor: UserId)
    | UpdateRole(role: RoleId, name: string, actor: UserId)
    | DeleteRole(role: RoleId, actor: UserId)
    | AddToRole(role: RoleId, key: Key, actor: UserId)
    | RemoveFromRole(role: RoleId, key: Key, actor: UserId)
    | DeleteUser(user: UserId, isPI: bool)    // whether a project still names the user as its PI
    | Bootstrap(email: string, newUser: UserId, newRole: RoleId)

  // ---------- Who holds what ----------

  predicate ViaRole(t: Tables, u: UserId, r: RoleId, k: Key) {
    (u, r) in t.held && (r, k) in t.bundle
  }

  ghost predicate Holds(t: Tables, u: UserId, k: Key) {
    (u, k) in t.direct || exists r :: ViaRole(t, u, r, k)
  }

  /** u has k from a source other than role `excluded`. */
  ghost predicate HoldsOutside(t: Tables, u: UserId, k: Key, excluded: RoleId) {
    (u, k) in t.direct || exists r :: r != excluded && ViaRole(t, u, r, k)
  }

  ghost predicate HoldsAll(t: Tables, u: UserId, ks: set<Key>) {
    forall k :: k in ks ==> Holds(t, u, k)
  }

  ghost predicate HasHolder(t: Tables, k: Key) {
    exists u :: Holds(t, u, k)
  }

  /** The keys u's roles carry. */
  function RoleKeys(t: Tables, u: UserId): (ks: set<Key>)
    ensures forall k :: k in ks <==> exists r :: ViaRole(t, u, r, k)
  {
    var ks := set p, q | p in t.held && q in t.bundle && p.0 == u && p.1 == q.0 :: q.1;
    assert forall k, r :: ViaRole(t, u, r, k) ==> (u, r) in t.held && (r, k) in t.bundle && k in ks;
    assert forall p, q :: p in t.held && q in t.bundle && p.0 == u && p.1 == q.0 ==> ViaRole(t, u, p.1, q.1);
    ks
  }

  function DirectKeys(t: Tables, u: UserId): (ks: set<Key>)
    ensures forall k :: k in ks <==> (u, k) in t.direct
  {
    var ks := set p | p in t.direct && p.0 == u :: p.1;
    assert forall k :: (u, k) in t.direct ==> (u, k).0 == u && (u, k).1 in ks;
    ks
  }

  /** Everything u may do: the meaning of EffectivePrivileges. */
  function Effective(t: Tables, u: UserId): (ks: set<Key>)
    ensures forall k :: k in ks <==> Holds(t, u, k)
  {
    DirectKeys(t, u) + RoleKeys(t, u)
  }

  /** The union-of-table-and-join query behind countUsersHoldingPrivilegeTx. */
  function Holders(t: Tables, k: Key): (us: set<UserId>)
    ensures forall u :: u in us <==> Holds(t, u, k)
  {
    var owners := set p | p in t.direct && p.1 == k :: p.0;
    var members := set p, q | p in t.held && q in t.bundle && p.1 == q.0 && q.1 == k :: p.0;
    assert forall u :: (u, k) in t.direct ==> (u, k).1 == k && (u, k).0 in owners;
    assert forall u, r :: ViaRole(t, u, r, k) ==> (u, r) in t.held && (r, k) in t.bundle && u in members;
    assert forall p, q :: p in t.held && q in t.bundle && p.1 == q.0 && q.1 == k ==> ViaRole(t, p.0, p.1, k);
    owners + members
  }

  // ---------- The schema's constraints ----------

  predicate Valid(t: Tables, reg: set<Key>) {
    && META_KEYS <= reg
    && (forall p :: p in t.direct ==> p.0 in t.users && p.1 in reg)
    && (forall p :: p in t.held ==> p.0 in t.users && p.1 in t.roles)
    && (forall p :: p in t.bundle ==> p.0 in t.roles && p.1 in reg)
    && (forall r, s :: r in t.roles && s in t.roles && t.roles[r].name == t.roles[s].name ==> r == s)
    && (forall u, v :: u in t.users && v in t.users && t.users[u] == t.users[v] ==> u == v)
  }

  predicate HasEmail(t: Tables, u: UserId, email: string) {
    u in t.users && t.users[u] == email
  }

  predicate NameTaken(t: Tables, name: string) {
    exists r :: r in t.roles && t.roles[r].name == name
  }

  // ---------- One transaction ----------

  ghost function Check(t: Tables, reg: set<Key>, s: Step): (o: Outcome)
    requires !s.Bootstrap?
  {
    match s
    case GrantPrivilege(user, key, actor) =>
      if user == "" || actor == "" || key !in reg then Refused(InvalidInput)
      else if !Holds(t, actor, PRIVILEGES_GRANT) then Refused(InvalidInput)
      else if (user, key) in t.direct then Refused(AlreadyExists)
      else if user !in t.users then Refused(Constraint)
      else Done
    case RevokePrivilege(user, key, actor) =>
      if user == "" || actor == "" || key !in reg then Refused(InvalidInput)
      else if key == PRIVILEGES_GRANT && actor == user then Refused(InvalidInput)
      else if !Holds(t, actor, PRIVILEGES_GRANT) then Refused(InvalidInput)
      else if (user, key) !in t.direct then Refused(NotFound)
      else if key == PRIVILEGES_GRANT && !OtherDirectHolder(t, user, key) then Refused(InvalidInput)
      else Done
    case GrantRole(user, role, actor) =>
      if user == "" || role == "" || actor == "" then Refused(InvalidInput)
      else if !Holds(t, actor, ROLES_MANAGE) then Refused(InvalidInput)
      else if role !in t.roles then Refused(NotFound)
      else if (user, role) in t.held then Refused(AlreadyExists)
      else if user !in t.users then Refused(Constraint)
      else Done
    case RevokeRole(user, role, actor) =>
      if user == "" || role == "" || actor == "" then Refused(InvalidInput)
      else if !Holds(t, actor, ROLES_MANAGE) then Refused(InvalidInput)
      else if role !in t.roles || (user, role) !in t.held then Refused(NotFound)
      else if exists k :: k in META_KEYS && RevokeStrands(t, user, role, k) then Refused(InvalidInput)
      else Done
    case CreateRole(id, name, actor) =>
      if name == "" || actor == "" then Refused(InvalidInput)
      else if !Holds(t, actor, ROLES_MANAGE) then Refused(InvalidInput)
      else if NameTaken(t, name) then Refused(AlreadyExists)
      else if id in t.roles then Refused(Constraint)
      else Done
    case UpdateRole(role, name, actor) =>
      if role == "" || actor == "" then Refused(InvalidInput)
      else if !Holds(t, actor, ROLES_MANAGE) then Refused(InvalidInput)
      else if role !in t.roles then Refused(NotFound)
      else if t.roles[role].isSystem && name != "" && name != t.roles[role].name then Refused(InvalidInput)
      else if name != "" && name != t.roles[role].name && NameTaken(t, name) then Refused(Constraint)
      else Done
    case DeleteRole(role, actor) =>
      if role == "" || actor == "" then Refused(InvalidInput)
      else if !Holds(t, actor, ROLES_MANAGE) then Refused(InvalidInput)
      else if role !in t.roles then Refused(NotFound)
      else if t.roles[role].isSystem then Refused(InvalidInput)
      else Done
    case AddToRole(role, key, actor) =>
      if role == "" || actor == "" || key !in reg then Refused(InvalidInput)
      else if !Holds(t, actor, ROLES_MANAGE) then Refused(InvalidInput)
      else if role !in t.roles then Refused(NotFound)
      else if (role, key) in t.bundle then Refused(AlreadyExists)
      else Done
    case RemoveFromRole(role, key, actor) =>
      if role == "" || actor == "" || key !in reg then Refused(InvalidInput)
      else if !Holds(t, actor, ROLES_MANAGE) then Refused(InvalidInput)
      else if role !in t.roles || (role, key) !in t.bundle then Refused(NotFound)
      else if key in META_KEYS && !OtherRoleCarries(t, role, key) then Refused(InvalidInput)
      else Done
    case DeleteUser(user, isPI) =>
      if user == "" then Refused(InvalidInput)
      else if user !in t.users then Refused(NotFound)
      else if isPI then Refused(Constraint)
      else Done
  }

  ghost predicate OtherDirectHolder(t: Tables, user: UserId, key: Key) {
    exists v :: v != user && (v, key) in t.direct
  }

  ghost predicate OtherRoleCarries(t: Tables, role: RoleId, key: Key) {
    exists r :: r != role && (r, key) in t.bundle
  }

  /** Taking the role from the user leaves nobody holding k. */
  ghost predicate RevokeStrands(t: Tables, user: UserId, role: RoleId, k: Key) {
    (role, k) in t.bundle && !HasHolder(t.(held := t.held - {(user, role)}), k)
  }

  /** The rows after an accepted step. */
  function Effect(t: Tables, s: Step): Tables
    requires !s.Bootstrap?
  {
    match s
    case GrantPrivilege(user, key, _) => t.(direct := t.direct + {(user, key)})
    case RevokePrivilege(user, key, _) => t.(direct := t.direct - {(user, key)})
    case GrantRole(user, role, _) => t.(held := t.held + {(user, role)})
    case RevokeRole(user, role, _) => t.(held := t.held - {(user, role)})
    case CreateRole(id, name, _) => t.(roles := t.roles[id := Role(name, false)])
    case UpdateRole(role, name, _) =>
      if role in t.roles && name != "" then t.(roles := t.roles[role := t.roles[role].(name := name)]) else t
    case DeleteRole(role, _) =>
      t.(roles := t.roles - {role},
      held := (set p | p in t.held && p.1 != role),
      bundle := (set p | p in t.bundle && p.0 != role))
    case AddToRole(role, key, _) => t.(bundle := t.bundle + {(role, key)})
    case RemoveFromRole(role, key, _) => t.(bundle := t.bundle - {(role, key)})
    case DeleteUser(user, _) =>
      t.(users := t.users - {user},
      direct := (set p | p in t.direct && p.0 != user),
      held := (set p | p in t.held && p.0 != user))
  }

  // ---------- Bootstrap ----------

  /** The bootstrap user: the one with this email, or a new PENDING one. */
  ghost function WithBootstrapUser(t: Tables, email: string, newUser: UserId): (Tables, UserId)
  {
    if u :| u in t.users && t.users[u] == email then (t, u)
    else (t.(users := t.users[newUser := email]), newUser)
  }

  /** super_admin present and carrying every registered key. */
  ghost function WithSuperAdmin(t: Tables, reg: set<Key>, newRole: RoleId): (Tables, RoleId)
  {
    if r :| r in t.roles && t.roles[r].name == SUPER_ADMIN then
      (t.(bundle := t.bundle + (set k | k in reg :: (r, k))), r)
    else
      (t.(roles := t.roles[newRole := Role(SUPER_ADMIN, true)],
       bundle := t.bundle + (set k | k in reg :: (newRole, k))), newRole)
  }

  ghost function BootstrapReply(t: Tables, reg: set<Key>, email: string, newUser: UserId, newRole: RoleId): Reply
  {
    if email == "" then Reply(t, Done)
    else if (forall u :: u in t.users ==> t.users[u] != email) && newUser in t.users then Reply(t, Refused(Constraint))
    else
      var (t1, u) := WithBootstrapUser(t, email, newUser);
      if !NameTaken(t1, SUPER_ADMIN) && newRole in t1.roles then Reply(t1, Refused(Constraint))
      else
        var (t2, r) := WithSuperAdmin(t1, reg, newRole);
        if exists v :: (v, r) in t2.held then Reply(t2, Done)
        else Reply(t2.(held := t2.held + {(u, r)}), Done)
  }

  ghost function Apply(t: Tables, reg: set<Key>, s: Step): (out: Reply)
  {
    if s.Bootstrap? then BootstrapReply(t, reg, s.email, s.newUser, s.newRole)
    else if Check(t, reg, s) == Done then Reply(Effect(t, s), Done)
    else Reply(t, Check(t, reg, s))
  }

  ghost function Run(t: Tables, reg: set<Key>, steps: seq<Step>): Tables
    decreases |steps|
  {
    if steps == [] then t else Run(Apply(t, reg, steps[0]).tables, reg, steps[1..])
  }

  // ---------- Every run keeps the schema ----------

  lemma StepKeepsValid(t: Tables, reg: set<Key>, s: Step)
    requires Valid(t, reg)
    ensures Valid(Apply(t, reg, s).tables, reg)
  {
    if s.Bootstrap? { BootstrapKeepsValid(t, reg, s.email, s.newUser, s.newRole); }
  }

  lemma BootstrapUserKeepsValid(t: Tables, reg: set<Key>, email: string, newUser: UserId)
    requires Valid(t, reg)
    requires (exists u :: u in t.users && t.users[u] == email) || newUser !in t.users
    ensures
      var (t1, u) := WithBootstrapUser(t, email, newUser);
      Valid(t1, reg) && u in t1.users && t1.users[u] == email && t1.roles == t.roles
  {}

  lemma SuperAdminKeepsValid(t: Tables, reg: set<Key>, newRole: RoleId)
    requires Valid(t, reg)
    requires NameTaken(t, SUPER_ADMIN) || newRole !in t.roles
    ensures
      var (t2, r) := WithSuperAdmin(t, reg, newRole);
      && Valid(t2, reg) && r in t2.roles && t2.users == t.users
      && (forall k :: k in reg ==> (r, k) in t2.bundle)
      && t.direct <= t2.direct && t.held <= t2.held && t.bundle <= t2.bundle
  {}

  lemma BootstrapKeepsValid(t: Tables, reg: set<Key>, email: string, newUser: UserId, newRole: RoleId)
    requires Valid(t, reg)
    ensures Valid(BootstrapReply(t, reg, email, newUser, newRole).tables, reg)
  {
    if email != "" && ((exists u :: u in t.users && t.users[u] == email) || newUser !in t.users) {
      BootstrapUserKeepsValid(t, reg, email, newUser);
      var (t1, u) := WithBootstrapUser(t, email, newUser);
      if NameTaken(t1, SUPER_ADMIN) || newRole !in t1.roles {
        SuperAdminKeepsValid(t1, reg, newRole);
      }
    }
  }

  lemma {:induction false} RunKeepsValid(t: Tables, reg: set<Key>, steps: seq<Step>)
    requires Valid(t, reg)
    ensures Valid(Run(t, reg, steps), reg)
    decreases |steps|
  {
    if steps != [] {
      StepKeepsValid(t, reg, steps[0]);
      RunKeepsValid(Apply(t, reg, steps[0]).tables, reg, steps[1..]);
    }
  }

  // ---------- The last holder of a meta privilege ----------

  /** Bootstrap with an email that goes through leaves one user holding every registered key. */
  lemma BootstrapGivesHolder(t: Tables, reg: set<Key>, email: string, newUser: UserId, newRole: RoleId)
    requires Valid(t, reg) && email != ""
    requires BootstrapReply(t, reg, email, newUser, newRole).outcome == Done
    ensures exists u :: HoldsAll(BootstrapReply(t, reg, email, newUser, newRole).tables, u, reg)
  {
    var t' := BootstrapReply(t, reg, email, newUser, newRole).tables;
    BootstrapUserKeepsValid(t, reg, email, newUser);
    var (t1, u) := WithBootstrapUser(t, email, newUser);
    SuperAdminKeepsValid(t1, reg, newRole);
    var (t2, r) := WithSuperAdmin(t1, reg, newRole);
    var v :| (v, r) in t'.held;
    forall k | k in reg ensures Holds(t', v, k) {
      assert ViaRole(t', v, r, k);
    }
    assert HoldsAll(t', v, reg);
  }

  /**
  The unguarded ways to lose the last holder of `key`, as a query over the tables before
  the step: an accepted step of one of four kinds, and no user with the key from
  another source.
   */
  ghost predicate Strands(t: Tables, reg: set<Key>, s: Step, key: Key) {
    && !s.Bootstrap?
    && Check(t, reg, s) == Done
    && match s
       case RevokePrivilege(user, k, _) =>
         k == key && !OtherDirectHolder(t, user, k) && forall v, r :: !ViaRole(t, v, r, k)
       case DeleteRole(role, _) => forall v :: !HoldsOutside(t, v, key, role)
       case RemoveFromRole(role, k, _) => k == key && forall v :: !HoldsOutside(t, v, key, role)
       case DeleteUser(user, _) => forall v :: v != user ==> !Holds(t, v, key)
       case _ => false
  }

  /** Growing the tables never takes a key from anyone. */
  lemma HoldsMonotone(t: Tables, t': Tables, u: UserId, k: Key)
    requires t.direct <= t'.direct && t.held <= t'.held && t.bundle <= t'.bundle
    ensures Holds(t, u, k) ==> Holds(t', u, k)
  {
    if Holds(t, u, k) && (u, k) !in t.direct {
      var r :| ViaRole(t, u, r, k);
      assert ViaRole(t', u, r, k);
    }
  }

  lemma BootstrapGrows(t: Tables, reg: set<Key>, email: string, newUser: UserId, newRole: RoleId)
    ensures
      var t' := BootstrapReply(t, reg, email, newUser, newRole).tables;
      t.direct <= t'.direct && t.held <= t'.held && t.bundle <= t'.bundle
  {}

  /** Which keys each shrinking step leaves with whom. */
  lemma AfterDeleteRole(t: Tables, role: RoleId, actor: UserId, v: UserId, k: Key)
    ensures Holds(Effect(t, DeleteRole(role, actor)), v, k) <==> HoldsOutside(t, v, k, role)
  {
    var t' := Effect(t, DeleteRole(role, actor));
    assert forall r :: ViaRole(t', v, r, k) <==> r != role && ViaRole(t, v, r, k);
  }

  lemma AfterRemoveFromRole(t: Tables, role: RoleId, key: Key, actor: UserId, v: UserId, k: Key)
    ensures Holds(Effect(t, RemoveFromRole(role, key, actor)), v, k)
       <==> if k == key then HoldsOutside(t, v, k, role) else Holds(t, v, k)
  {
    var t' := Effect(t, RemoveFromRole(role, key, actor));
    assert forall r :: ViaRole(t', v, r, k) <==> ViaRole(t, v, r, k) && !(r == role && k == key);
  }

  lemma AfterRevokePrivilege(t: Tables, user: UserId, key: Key, actor: UserId, v: UserId, k: Key)
    ensures Holds(Effect(t, RevokePrivilege(user, key, actor)), v, k)
       <==> (v, k) in t.direct - {(user, key)} || exists r :: ViaRole(t, v, r, k)
  {
    var t' := Effect(t, RevokePrivilege(user, key, actor));
    assert forall r :: ViaRole(t', v, r, k) <==> ViaRole(t, v, r, k);
  }

  lemma AfterRevokeRole(t: Tables, user: UserId, role: RoleId, actor: UserId, v: UserId, k: Key)
    ensures Holds(Effect(t, RevokeRole(user, role, actor)), v, k)
       <==> if v == user then HoldsOutside(t, v, k, role) else Holds(t, v, k)
  {
    var t' := Effect(t, RevokeRole(user, role, actor));
    assert forall r :: ViaRole(t', v, r, k) <==> ViaRole(t, v, r, k) && !(v == user && r == role);
  }

  lemma AfterDeleteUser(t: Tables, user: UserId, isPI: bool, v: UserId, k: Key)
    ensures Holds(Effect(t, DeleteUser(user, isPI)), v, k) <==> v != user && Holds(t, v, k)
  {
    var t' := Effect(t, DeleteUser(user, isPI));
    assert forall r :: ViaRole(t', v, r, k) <==> v != user && ViaRole(t, v, r, k);
  }

  /** One step loses the last holder of a meta key exactly when it strands it. */
  lemma StepLosesHolderIffStrands(t: Tables, reg: set<Key>, s: Step, key: Key)
    requires key in META_KEYS && HasHolder(t, key)
    ensures HasHolder(Apply(t, reg, s).tables, key) <==> !Strands(t, reg, s, key)
  {
    var t' := Apply(t, reg, s).tables;
    var h :| Holds(t, h, key);
    if s.Bootstrap? {
      BootstrapGrows(t, reg, s.email, s.newUser, s.newRole);
      HoldsMonotone(t, t', h, key);
    } else if Check(t, reg, s) == Done {
      match s
      case RevokePrivilege(user, k, actor) =>
        forall v { AfterRevokePrivilege(t, user, k, actor, v, key); }
        if k == key && OtherDirectHolder(t, user, k) {
          var v :| v != user && (v, k) in t.direct;
          assert Holds(t', v, key);
        } else if k == key && exists v, r :: ViaRole(t, v, r, k) {
          var v, r :| ViaRole(t, v, r, k);
          assert Holds(t', v, key);
        } else if k != key {
          assert Holds(t', h, key);
        }
      case RevokeRole(user, role, actor) =>
        AfterRevokeRole(t, user, role, actor, h, key);
        if (role, key) !in t.bundle {
          assert forall r :: ViaRole(t, h, r, key) ==> r != role;
          assert Holds(t', h, key);
        } else {
          assert !RevokeStrands(t, user, role, key);
        }
      case DeleteRole(role, actor) =>
        forall v { AfterDeleteRole(t, role, actor, v, key); }
        if v :| HoldsOutside(t, v, key, role) { assert Holds(t', v, key); }
      case RemoveFromRole(role, k, actor) =>
        forall v { AfterRemoveFromRole(t, role, k, actor, v, key); }
        if k != key { assert Holds(t', h, key); }
        else if v :| HoldsOutside(t, v, key, role) { assert Holds(t', v, key); }
      case DeleteUser(user, isPI) =>
        forall v { AfterDeleteUser(t, user, isPI, v, key); }
      case _ =>
        HoldsMonotone(t, t', h, key);
    }
  }

  ghost predicate NeverStrands(t: Tables, reg: set<Key>, steps: seq<Step>, key: Key)
    decreases |steps|
  {
    steps == [] ||
    (!Strands(t, reg, steps[0], key) && NeverStrands(Apply(t, reg, steps[0]).tables, reg, steps[1..], key))
  }

  lemma {:induction false} RunKeepsHolder(t: Tables, reg: set<Key>, steps: seq<Step>, key: Key)
    requires key in META_KEYS && HasHolder(t, key) && NeverStrands(t, reg, steps, key)
    ensures HasHolder(Run(t, reg, steps), key)
    decreases |steps|
  {
    if steps != [] {
      StepLosesHolderIffStrands(t, reg, steps[0], key);
      RunKeepsHolder(Apply(t, reg, steps[0]).tables, reg, steps[1..], key);
    }
  }

  /** Steps that can never strand privileges:grant, whatever the tables hold. */
  predicate GuardedForGrant(s: Step) {
    !s.DeleteRole? && !s.RemoveFromRole? && !s.DeleteUser?
  }

  /** Steps that can never strand roles:manage, whatever the tables hold. */
  predicate GuardedForManage(s: Step) {
    GuardedForGrant(s) && !(s.RevokePrivilege? && s.key == ROLES_MANAGE)
  }

  /**
  Meta-holder safety. From a state with a holder, runs without deletion of roles or users and
  without bundle removal always leave a holder of privileges:grant; if moreover no direct
  grant of roles:manage is revoked they always leave a holder of roles:manage.
   */
  lemma {:induction false} MetaHolderSafety(t: Tables, reg: set<Key>, steps: seq<Step>, key: Key)
    requires key in META_KEYS && HasHolder(t, key)
    requires forall i :: 0 <= i < |steps| ==>
      if key == PRIVILEGES_GRANT then GuardedForGrant(steps[i]) else GuardedForManage(steps[i])
    ensures HasHolder(Run(t, reg, steps), key)
    decreases |steps|
  {
    if steps != [] {
      assert !Strands(t, reg, steps[0], key);
      StepLosesHolderIffStrands(t, reg, steps[0], key);
      MetaHolderSafety(Apply(t, reg, steps[0]).tables, reg, steps[1..], key);
    }
  }

  /** The same from any state a bootstrap went through in, key by key. */
  lemma BootstrapThenRun(t: Tables, reg: set<Key>, email: string, newUser: UserId, newRole: RoleId, steps: seq<Step>)
    requires Valid(t, reg) && email != ""
    requires BootstrapReply(t, reg, email, newUser, newRole).outcome == Done
    requires forall i :: 0 <= i < |steps| ==> GuardedForGrant(steps[i])
    ensures
      var t' := Run(t, reg, [Bootstrap(email, newUser, newRole)] + steps);
      && Valid(t', reg) && HasHolder(t', PRIVILEGES_GRANT)
      && ((forall i :: 0 <= i < |steps| ==> GuardedForManage(steps[i])) ==> HasHolder(t', ROLES_MANAGE))
  {
    var b := Bootstrap(email, newUser, newRole);
    var t1 := Apply(t, reg, b).tables;
    assert ([b] + steps)[1..] == steps;
    BootstrapGivesHolder(t, reg, email, newUser, newRole);
    var u :| HoldsAll(t1, u, reg);
    assert Holds(t1, u, PRIVILEGES_GRANT) && Holds(t1, u, ROLES_MANAGE);
    MetaHolderSafety(t1, reg, steps, PRIVILEGES_GRANT);
    if forall i :: 0 <= i < |steps| ==> GuardedForManage(steps[i]) { MetaHolderSafety(t1, reg, steps, ROLES_MANAGE); }
    RunKeepsValid(t, reg, [b] + steps);
  }

  // ---------- The four unguarded steps, on concrete tables ----------

  const REGISTRY: set<Key> := {PRIVILEGES_GRANT, ROLES_MANAGE}

  /** One administrator, whose powers all come from an ordinary role. */
  const LONE_ADMIN: Tables := Tables(
    map["ada" := "ada@example.org"],
    map["ops" := Role("operators", false), "spare" := Role("spare", false)],
    {},
    {("ada", "ops")},
    {("ops", PRIVILEGES_GRANT), ("ops", ROLES_MANAGE), ("spare", PRIVILEGES_GRANT)})

  lemma DeleteRoleCanStrand()
    ensures Valid(LONE_ADMIN, REGISTRY) && HasHolder(LONE_ADMIN, PRIVILEGES_GRANT)
    ensures
      var out := Apply(LONE_ADMIN, REGISTRY, DeleteRole("ops", "ada"));
      out.outcome == Done && !HasHolder(out.tables, PRIVILEGES_GRANT) && !HasHolder(out.tables, ROLES_MANAGE)
  {
    assert ViaRole(LONE_ADMIN, "ada", "ops", PRIVILEGES_GRANT);
    assert ViaRole(LONE_ADMIN, "ada", "ops", ROLES_MANAGE);
    assert Holds(LONE_ADMIN, "ada", PRIVILEGES_GRANT);
  }

  /** The guard counts roles: "spare" carries the key too, but nobody holds "spare". */
  lemma RemoveFromRoleCanStrand()
    ensures HasHolder(LONE_ADMIN, PRIVILEGES_GRANT)
    ensures
      var out := Apply(LONE_ADMIN, REGISTRY, RemoveFromRole("ops", PRIVILEGES_GRANT, "ada"));
      out.outcome == Done && !HasHolder(out.tables, PRIVILEGES_GRANT)
  {
    assert ViaRole(LONE_ADMIN, "ada", "ops", PRIVILEGES_GRANT);
    assert ViaRole(LONE_ADMIN, "ada", "ops", ROLES_MANAGE);
    assert Holds(LONE_ADMIN, "ada", PRIVILEGES_GRANT) && Holds(LONE_ADMIN, "ada", ROLES_MANAGE);
    assert ("spare", PRIVILEGES_GRANT) in LONE_ADMIN.bundle;
  }

  const DIRECT_ADMIN: Tables := Tables(
    map["ada" := "ada@example.org"], map[],
    {("ada", PRIVILEGES_GRANT), ("ada", ROLES_MANAGE)}, {}, {})

  lemma RevokePrivilegeCanStrandManage()
    ensures Valid(DIRECT_ADMIN, REGISTRY) && HasHolder(DIRECT_ADMIN, ROLES_MANAGE)
    ensures
      var out := Apply(DIRECT_ADMIN, REGISTRY, RevokePrivilege("ada", ROLES_MANAGE, "ada"));
      out.outcome == Done && !HasHolder(out.tables, ROLES_MANAGE)
  {
    assert Holds(DIRECT_ADMIN, "ada", PRIVILEGES_GRANT);
    assert Holds(DIRECT_ADMIN, "ada", ROLES_MANAGE);
  }

  lemma DeleteUserCanStrand()
    ensures
      var out := Apply(DIRECT_ADMIN, REGISTRY, DeleteUser("ada", false));
      out.outcome == Done && !HasHolder(out.tables, PRIVILEGES_GRANT) && !HasHolder(out.tables, ROLES_MANAGE)
  {
  }
}
