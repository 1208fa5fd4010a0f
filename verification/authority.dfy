/**
Who may change the authorization tables, when a call goes through, who holds what afterwards,
and what undoes it: the steps of module Authorization described by the rows they find and
leave, for every state of the tables.
 */
module Authority {
  import opened Authorization

  /** A call on behalf of some actor; bootstrap and the deletion of a user name none. */
  predicate Acts(s: Step) {
    !s.Bootstrap? && !s.DeleteUser?
  }

  function Needed(s: Step): Key
    requires Acts(s)
  {
    if s.GrantPrivilege? || s.RevokePrivilege? then PRIVILEGES_GRANT else ROLES_MANAGE
  }

  // ---------- Only holders of the meta keys change anything ----------

  lemma OnlyHoldersAct(t: Tables, reg: set<Key>, s: Step)
    requires Acts(s)
    ensures Apply(t, reg, s).tables != t || Apply(t, reg, s).outcome == Done ==> Holds(t, s.actor, Needed(s))
  {
  }

  /** However many calls are made, actors without the key each of them needs leave the tables as they were. */
  lemma {:induction false} PowerlessRun(t: Tables, reg: set<Key>, steps: seq<Step>)
    requires forall i :: 0 <= i < |steps| ==> Acts(steps[i]) && !Holds(t, steps[i].actor, Needed(steps[i]))
    ensures Run(t, reg, steps) == t
    decreases |steps|
  {
    if steps != [] {
      OnlyHoldersAct(t, reg, steps[0]);
      PowerlessRun(t, reg, steps[1..]);
    }
  }

  ghost predicate HoldsMeta(t: Tables, u: UserId) {
    Holds(t, u, PRIVILEGES_GRANT) || Holds(t, u, ROLES_MANAGE)
  }

  predicate AllBy(steps: seq<Step>, u: UserId) {
    forall i :: 0 <= i < |steps| ==> Acts(steps[i]) && steps[i].actor == u
  }

  /** Some calls of u's own end with u holding k. */
  ghost predicate CanReach(t: Tables, reg: set<Key>, u: UserId, k: Key) {
    exists steps :: AllBy(steps, u) && Holds(Run(t, reg, steps), u, k)
  }

  lemma {:induction false} LongerThanAll(taken: set<string>) returns (x: string)
    ensures x != "" && x !in taken
    ensures forall y :: y in taken ==> |y| < |x|
    decreases taken
  {
    if taken == {} { return "x"; }
    var y :| y in taken;
    x := LongerThanAll(taken - {y});
    if |x| <= |y| { x := y + "x"; }
    forall z | z in taken ensures |z| < |x| {
      assert z == y || z in taken - {y};
    }
  }

  /** With privileges:grant, one grant to oneself. */
  lemma GrantReaches(t: Tables, reg: set<Key>, u: UserId, k: Key)
    requires u != "" && u in t.users && k in reg && Holds(t, u, PRIVILEGES_GRANT)
    ensures CanReach(t, reg, u, k)
  {
    var steps := [GrantPrivilege(u, k, u)];
    var after := Apply(t, reg, steps[0]).tables;
    assert steps[1..] == [] && Run(t, reg, steps) == Run(after, reg, []) == after;
    assert (u, k) in after.direct;
    assert AllBy(steps, u) && Holds(Run(t, reg, steps), u, k);
  }

  /** With roles:manage, a fresh role that carries the key. */
  lemma ManageReaches(t: Tables, reg: set<Key>, u: UserId, k: Key)
    requires Valid(t, reg) && u != "" && u in t.users && k in reg && Holds(t, u, ROLES_MANAGE)
    ensures CanReach(t, reg, u, k)
  {
    var id := LongerThanAll(t.roles.Keys);
    var name := LongerThanAll(set r | r in t.roles :: t.roles[r].name);
    var steps := [CreateRole(id, name, u), AddToRole(id, k, u), GrantRole(u, id, u)];
    assert !NameTaken(t, name);
    var t1 := Apply(t, reg, steps[0]).tables;
    assert t1 == t.(roles := t.roles[id := Role(name, false)]);
    HoldsMonotone(t, t1, u, ROLES_MANAGE);
    var t2 := Apply(t1, reg, steps[1]).tables;
    assert t2 == t1.(bundle := t1.bundle + {(id, k)});
    HoldsMonotone(t1, t2, u, ROLES_MANAGE);
    var t3 := Apply(t2, reg, steps[2]).tables;
    assert t3 == t2.(held := t2.held + {(u, id)});
    assert steps[1..][1..] == steps[2..] && steps[2..][1..] == [];
    assert Run(t, reg, steps) == Run(t1, reg, steps[1..]) == Run(t2, reg, steps[2..]) == Run(t3, reg, []) == t3;
    assert ViaRole(t3, u, id, k);
    assert AllBy(steps, u) && Holds(Run(t, reg, steps), u, k);
  }

  /**
  What the meta keys are worth: by calls of their own, a user can come to hold a registered key
  exactly when they hold it already or hold either meta key.
   */
  lemma CanReachIff(t: Tables, reg: set<Key>, u: UserId, k: Key)
    requires Valid(t, reg) && u != "" && u in t.users && k in reg
    ensures CanReach(t, reg, u, k) <==> Holds(t, u, k) || HoldsMeta(t, u)
  {
    if Holds(t, u, k) {
      assert AllBy([], u) && Holds(Run(t, reg, []), u, k);
    } else if Holds(t, u, PRIVILEGES_GRANT) {
      GrantReaches(t, reg, u, k);
    } else if Holds(t, u, ROLES_MANAGE) {
      ManageReaches(t, reg, u, k);
    } else {
      forall steps | AllBy(steps, u) ensures !Holds(Run(t, reg, steps), u, k) {
        PowerlessRun(t, reg, steps);
      }
    }
  }

  // ---------- When a call goes through ----------

  /** Nothing the call must give is blank or unknown, and nobody revokes privileges:grant from themselves. */
  predicate WellFormed(reg: set<Key>, s: Step)
    requires Acts(s)
  {
    s.actor != "" &&
    match s
    case GrantPrivilege(user, key, _) => user != "" && key in reg
    case RevokePrivilege(user, key, actor) => user != "" && key in reg && (key == PRIVILEGES_GRANT ==> actor != user)
    case GrantRole(user, role, _) => user != "" && role != ""
    case RevokeRole(user, role, _) => user != "" && role != ""
    case CreateRole(_, name, _) => name != ""
    case UpdateRole(role, _, _) => role != ""
    case DeleteRole(role, _) => role != ""
    case AddToRole(role, key, _) => role != "" && key in reg
    case RemoveFromRole(role, key, _) => role != "" && key in reg
  }

  /** A row the call needs is missing. */
  predicate Absent(t: Tables, s: Step)
    requires Acts(s)
  {
    match s
    case GrantPrivilege(_, _, _) => false
    case RevokePrivilege(user, key, _) => (user, key) !in t.direct
    case GrantRole(_, role, _) => role !in t.roles
    case RevokeRole(user, role, _) => role !in t.roles || (user, role) !in t.held
    case CreateRole(_, _, _) => false
    case UpdateRole(role, _, _) => role !in t.roles
    case DeleteRole(role, _) => role !in t.roles
    case AddToRole(role, _, _) => role !in t.roles
    case RemoveFromRole(role, key, _) => role !in t.roles || (role, key) !in t.bundle
  }

  /** What the call would add is there already. */
  predicate Present(t: Tables, s: Step)
    requires Acts(s)
  {
    match s
    case GrantPrivilege(user, key, _) => (user, key) in t.direct
    case GrantRole(user, role, _) => (user, role) in t.held
    case CreateRole(_, name, _) => NameTaken(t, name)
    case AddToRole(role, key, _) => (role, key) in t.bundle
    case _ => false
  }

  /** A rule of the service forbids it: the last holder or carrier of a meta key, or a system role. */
  ghost predicate Forbidden(t: Tables, s: Step)
    requires Acts(s)
  {
    match s
    case RevokePrivilege(user, key, _) => key == PRIVILEGES_GRANT && forall v :: (v, key) in t.direct ==> v == user
    case RevokeRole(user, role, _) =>
      exists k :: k in META_KEYS && (role, k) in t.bundle
        && forall v :: if v == user then !HoldsOutside(t, v, k, role) else !Holds(t, v, k)
    case UpdateRole(role, name, _) => role in t.roles && t.roles[role].isSystem && name != "" && name != t.roles[role].name
    case DeleteRole(role, _) => role in t.roles && t.roles[role].isSystem
    case RemoveFromRole(role, key, _) => key in META_KEYS && forall r :: (r, key) in t.bundle ==> r == role
    case _ => false
  }

  /** The schema rejects the row: an unknown user, a used id, a name another role has. */
  predicate Rejected(t: Tables, s: Step)
    requires Acts(s)
  {
    match s
    case GrantPrivilege(user, _, _) => user !in t.users
    case GrantRole(user, _, _) => user !in t.users
    case CreateRole(id, _, _) => id in t.roles
    case UpdateRole(role, name, _) =>
      name != "" && exists r :: r in t.roles && t.roles[r].name == name && role in t.roles && t.roles[role].name != name
    case _ => false
  }

  lemma ForbiddenIsStranding(t: Tables, user: UserId, role: RoleId, actor: UserId)
    ensures Forbidden(t, RevokeRole(user, role, actor)) <==> exists k :: k in META_KEYS && RevokeStrands(t, user, role, k)
  {
    forall k | k in META_KEYS
      ensures !HasHolder(t.(held := t.held - {(user, role)}), k) <==>
        forall v :: if v == user then !HoldsOutside(t, v, k, role) else !Holds(t, v, k)
    {
      forall v { AfterRevokeRole(t, user, role, actor, v, k); }
    }
  }

  ghost predicate Permitted(t: Tables, reg: set<Key>, s: Step)
    requires Acts(s)
  {
    WellFormed(reg, s) && Holds(t, s.actor, Needed(s))
  }

  /** The outcome of every call, by the first of these that applies. */
  lemma OutcomeIs(t: Tables, reg: set<Key>, s: Step)
    requires Acts(s)
    ensures Apply(t, reg, s).outcome ==
      if !Permitted(t, reg, s) then Refused(InvalidInput)
      else if Absent(t, s) then Refused(NotFound)
      else if Present(t, s) then Refused(AlreadyExists)
      else if Forbidden(t, s) then Refused(InvalidInput)
      else if Rejected(t, s) then Refused(Constraint)
      else Done
    ensures Apply(t, reg, s).outcome != Done ==> Apply(t, reg, s).tables == t
  {
    if s.RevokeRole? { ForbiddenIsStranding(t, s.user, s.role, s.actor); }
  }

  // ---------- Who holds what afterwards ----------

  lemma HoldsAfter(t: Tables, reg: set<Key>, s: Step, v: UserId, k: Key)
    requires !s.Bootstrap? && Apply(t, reg, s).outcome == Done
    ensures Holds(Apply(t, reg, s).tables, v, k) <==>
      match s
      case GrantPrivilege(user, key, _) => Holds(t, v, k) || (v == user && k == key)
      case RevokePrivilege(user, key, _) =>
        if v == user && k == key then exists r :: ViaRole(t, v, r, k) else Holds(t, v, k)
      case GrantRole(user, role, _) => Holds(t, v, k) || (v == user && (role, k) in t.bundle)
      case RevokeRole(user, role, _) => if v == user then HoldsOutside(t, v, k, role) else Holds(t, v, k)
      case CreateRole(_, _, _) => Holds(t, v, k)
      case UpdateRole(_, _, _) => Holds(t, v, k)
      case DeleteRole(role, _) => HoldsOutside(t, v, k, role)
      case AddToRole(role, key, _) => Holds(t, v, k) || (k == key && (v, role) in t.held)
      case RemoveFromRole(role, key, _) => if k == key then HoldsOutside(t, v, k, role) else Holds(t, v, k)
      case DeleteUser(user, _) => v != user && Holds(t, v, k)
  {
    var after := Apply(t, reg, s).tables;
    assert after.held == t.held && after.bundle == t.bundle ==> forall r :: ViaRole(after, v, r, k) <==> ViaRole(t, v, r, k);
    match s
    case GrantRole(user, role, _) =>
      assert forall r :: ViaRole(after, v, r, k) <==> ViaRole(t, v, r, k) || (v == user && r == role && (role, k) in t.bundle);
      if v == user && (role, k) in t.bundle { assert ViaRole(after, v, role, k); }
    case AddToRole(role, key, _) =>
      assert forall r :: ViaRole(after, v, r, k) <==> ViaRole(t, v, r, k) || (r == role && k == key && (v, role) in t.held);
      if k == key && (v, role) in t.held { assert ViaRole(after, v, role, k); }
    case RevokePrivilege(user, key, actor) => AfterRevokePrivilege(t, user, key, actor, v, k);
    case RevokeRole(user, role, actor) => AfterRevokeRole(t, user, role, actor, v, k);
    case DeleteRole(role, actor) => AfterDeleteRole(t, role, actor, v, k);
    case RemoveFromRole(role, key, actor) => AfterRemoveFromRole(t, role, key, actor, v, k);
    case DeleteUser(user, isPI) => AfterDeleteUser(t, user, isPI, v, k);
    case _ =>
  }

  // ---------- What undoes a call ----------

  /** A call that adds a row and the call that takes it away. */
  predicate Opposite(s: Step, back: Step) {
    match s
    case GrantPrivilege(user, key, _) => back.RevokePrivilege? && (back.user, back.key) == (user, key)
    case GrantRole(user, role, _) => back.RevokeRole? && (back.user, back.role) == (user, role)
    case CreateRole(id, _, _) => back.DeleteRole? && back.role == id
    case AddToRole(role, key, _) => back.RemoveFromRole? && (back.role, back.key) == (role, key)
    case _ => false
  }

  /** Repeated, an accepted addition is refused. */
  lemma RepeatIsRefused(t: Tables, reg: set<Key>, s: Step)
    requires (s.GrantPrivilege? || s.GrantRole? || s.CreateRole? || s.AddToRole?) && Apply(t, reg, s).outcome == Done
    ensures Apply(Apply(t, reg, s).tables, reg, s).outcome == Refused(AlreadyExists)
  {
    var after := Apply(t, reg, s).tables;
    HoldsMonotone(t, after, s.actor, Needed(s));
    if s.CreateRole? { assert after.roles[s.id].name == s.name; }
  }

  /** Taken back, it leaves no trace. */
  lemma TakenBack(t: Tables, reg: set<Key>, s: Step, back: Step)
    requires Valid(t, reg) && Opposite(s, back) && Apply(t, reg, s).outcome == Done
    requires Apply(Apply(t, reg, s).tables, reg, back).outcome == Done
    ensures Apply(Apply(t, reg, s).tables, reg, back).tables == t
  {
    if s.CreateRole? { assert Apply(t, reg, s).tables.roles - {s.id} == t.roles; }
  }

  /** A role just created can be deleted by anybody who may manage roles: it is not a system role. */
  lemma NewRoleCanGo(t: Tables, reg: set<Key>, id: RoleId, name: string, actor: UserId, other: UserId)
    requires id != "" && other != "" && Holds(t, other, ROLES_MANAGE)
    requires Apply(t, reg, CreateRole(id, name, actor)).outcome == Done
    ensures Apply(Apply(t, reg, CreateRole(id, name, actor)).tables, reg, DeleteRole(id, other)).outcome == Done
  {
    HoldsMonotone(t, Apply(t, reg, CreateRole(id, name, actor)).tables, other, ROLES_MANAGE);
  }

  /** Taken away and added again, a row is where it was. */
  lemma AddedBack(t: Tables, reg: set<Key>, s: Step, back: Step)
    requires Opposite(back, s) && !s.DeleteRole? && Apply(t, reg, s).outcome == Done
    requires Apply(Apply(t, reg, s).tables, reg, back).outcome == Done
    ensures Apply(Apply(t, reg, s).tables, reg, back).tables == t
  {
  }

  /** A rename changes the role's name and nothing else; a blank name changes nothing. */
  lemma RenameTouchesName(t: Tables, reg: set<Key>, role: RoleId, name: string, actor: UserId)
    requires Apply(t, reg, UpdateRole(role, name, actor)).outcome == Done
    ensures var after := Apply(t, reg, UpdateRole(role, name, actor)).tables;
      && after == t.(roles := after.roles) && after.roles.Keys == t.roles.Keys
      && after.roles[role].name == (if name == "" then t.roles[role].name else name)
      && after.roles[role].isSystem == t.roles[role].isSystem
      && forall r :: r in t.roles && r != role ==> after.roles[r] == t.roles[r]
  {
  }

  /** A deletion takes exactly the role or the user, and the rows that name them. */
  lemma DeletionTakesOwnRows(t: Tables, reg: set<Key>, s: Step)
    requires (s.DeleteRole? || s.DeleteUser?) && Apply(t, reg, s).outcome == Done
    ensures var after := Apply(t, reg, s).tables;
      && (forall u :: u in after.users <==> u in t.users && !(s.DeleteUser? && u == s.user))
      && (forall u :: u in after.users ==> after.users[u] == t.users[u])
      && (forall r :: r in after.roles <==> r in t.roles && !(s.DeleteRole? && r == s.role))
      && (forall r :: r in after.roles ==> after.roles[r] == t.roles[r])
      && (forall u, k :: (u, k) in after.direct <==> (u, k) in t.direct && !(s.DeleteUser? && u == s.user))
      && (forall u, r :: (u, r) in after.held <==>
            (u, r) in t.held && !(s.DeleteUser? && u == s.user) && !(s.DeleteRole? && r == s.role))
      && (forall r, k :: (r, k) in after.bundle <==> (r, k) in t.bundle && !(s.DeleteRole? && r == s.role))
  {
  }

  /** A user goes unless unknown, or still the PI of some project. */
  lemma DeleteUserOutcome(t: Tables, reg: set<Key>, user: UserId, isPI: bool)
    ensures Apply(t, reg, DeleteUser(user, isPI)).outcome ==
      if user == "" then Refused(InvalidInput) else if user !in t.users then Refused(NotFound)
      else if isPI then Refused(Constraint) else Done
  {
  }

  // ---------- Bootstrap ----------

  /** r is the role called super_admin. */
  predicate IsSuperAdmin(t: Tables, r: RoleId) {
    r in t.roles && t.roles[r].name == SUPER_ADMIN
  }

  /** The role and keys it adds. */
  ghost predicate AddsSuperAdmin(t: Tables, after: Tables, reg: set<Key>, newRole: RoleId) {
    && (after.roles == t.roles || after.roles == t.roles[newRole := Role(SUPER_ADMIN, true)])
    && forall r, k :: (r, k) in after.bundle && (r, k) !in t.bundle ==> IsSuperAdmin(after, r) && k in reg
  }

  lemma SuperAdminAdds(t: Tables, reg: set<Key>, newRole: RoleId)
    ensures var (after, r) := WithSuperAdmin(t, reg, newRole);
      && AddsSuperAdmin(t, after, reg, newRole) && IsSuperAdmin(after, r)
      && after == t.(roles := after.roles, bundle := after.bundle)
  {
  }

  /** The one assignment it may add: the role to the user with this email, if nobody had it. */
  ghost predicate AddsAdmin(t: Tables, after: Tables, email: string) {
    forall u, r :: (u, r) in after.held && (u, r) !in t.held ==>
      IsSuperAdmin(after, r) && HasEmail(after, u, email) && forall v :: (v, r) !in t.held
  }

  lemma BootstrapUserAdds(t: Tables, email: string, newUser: UserId)
    ensures var (after, u) := WithBootstrapUser(t, email, newUser);
      && HasEmail(after, u, email) && after == t.(users := after.users)
      && (after.users == t.users || after.users == t.users[newUser := email])
  {
  }

  /**
  Bootstrap adds at most the user with the given email, the system role super_admin, that role's
  registered keys, and one assignment of it to that user, made only if nobody had the role.
   */
  lemma BootstrapAdds(t: Tables, reg: set<Key>, email: string, newUser: UserId, newRole: RoleId)
    ensures var after := Apply(t, reg, Bootstrap(email, newUser, newRole)).tables;
      && after.direct == t.direct
      && (after.users == t.users || after.users == t.users[newUser := email])
      && AddsSuperAdmin(t, after, reg, newRole) && AddsAdmin(t, after, email)
  {
    BootstrapUserAdds(t, email, newUser);
    SuperAdminAdds(WithBootstrapUser(t, email, newUser).0, reg, newRole);
  }

  /** It goes through unless a row it must insert has a used id; without an email it does nothing. */
  lemma BootstrapOutcome(t: Tables, reg: set<Key>, email: string, newUser: UserId, newRole: RoleId)
    ensures var out := Apply(t, reg, Bootstrap(email, newUser, newRole));
      && (email == "" ==> out == Reply(t, Done))
      && (out.outcome == Done <==>
            || email == ""
            || (&& ((exists u :: u in t.users && t.users[u] == email) || newUser !in t.users)
                && ((exists r :: IsSuperAdmin(t, r)) || newRole !in t.roles)))
      && (out.outcome != Done ==> out.outcome == Refused(Constraint))
  {
    if r :| r in t.roles && t.roles[r].name == SUPER_ADMIN { assert IsSuperAdmin(t, r); }
    var (t1, u) := WithBootstrapUser(t, email, newUser);
    assert t1.roles == t.roles;
  }
}
