/**
The privilege and role operations of pkg/service as the source runs them: guard queries
in order, counts, loops over query results, then the row changes. Each operation is
proved to be the corresponding step of module Authorization.
 */
module AuthorizationService {
  import opened Authorization
  import opened Common

  /** One row of the user's roles joined with their privileges; None for a role without any. */
  datatype DetailRow = DetailRow(role: RoleId, privilege: Option<Key>)

  /** One held role with the privileges it carries. */
  datatype RoleDetail = RoleDetail(role: RoleId, privileges: seq<Key>)

  class Service {
    const reg: set<Key>
    var users: map<UserId, string>
    var roles: map<RoleId, Role>
    var direct: set<(UserId, Key)>
    var held: set<(UserId, RoleId)>
    var bundle: set<(RoleId, Key)>

    function Rows(): Tables
      reads this
    {
      Tables(users, roles, direct, held, bundle)
    }

    predicate Consistent()
      reads this
    {
      Valid(Rows(), reg)
    }

    /** A fresh install: no rows, and a registry holding at least the meta privileges. */
    constructor (registry: set<Key>)
      requires META_KEYS <= registry
      ensures Consistent() && reg == registry && Rows() == Tables(map[], map[], {}, {}, {})
    {
      reg := registry;
      users, roles, direct, held, bundle := map[], map[], {}, {}, {};
    }

    // ---------- Reads ----------

    method AssertHasPrivilege(actor: UserId, required: Key) returns (ok: bool)
      ensures ok <==> Holds(Rows(), actor, required)
    {
      if (actor, required) in direct { return true; }
      var roleKeys := RoleKeys(Rows(), actor);
      var rest := roleKeys;
      while rest != {}
        invariant rest <= roleKeys && required !in roleKeys - rest
        decreases rest
      {
        var k :| k in rest;
        if k == required { return true; }
        rest := rest - {k};
      }
      return false;
    }

    /** The checks every operation starts with: a malformed call is refused before anything is read. */
    method Permitted(malformed: bool, actor: UserId, required: Key) returns (ok: bool)
      ensures ok <==> !malformed && Holds(Rows(), actor, required)
    {
      if malformed { return false; }
      ok := AssertHasPrivilege(actor, required);
    }

    /** None stands for the invalid-input error. */
    method HasPrivilege(user: UserId, key: Key) returns (answer: Option<bool>)
      ensures answer.None? <==> user == "" || key !in reg
      ensures answer.Some? ==> (answer.value <==> Holds(Rows(), user, key))
    {
      if user == "" || key !in reg { return None; }
      var ok := AssertHasPrivilege(user, key);
      return Some(ok);
    }

    method EffectivePrivileges(user: UserId) returns (out: Option<seq<Key>>)
      ensures out.None? <==> user == ""
      ensures out.Some? ==> forall k :: k in out.value <==> Holds(Rows(), user, k)
      ensures out.Some? ==> forall i, j :: 0 <= i < j < |out.value| ==> out.value[i] != out.value[j]
    {
      if user == "" { return None; }
      var keys: set<Key> := {};
      var rest := DirectKeys(Rows(), user);
      while rest != {}
        invariant keys + rest == DirectKeys(Rows(), user)
        decreases rest
      {
        var k :| k in rest;
        keys, rest := keys + {k}, rest - {k};
      }
      rest := RoleKeys(Rows(), user);
      while rest != {}
        invariant keys + rest == DirectKeys(Rows(), user) + RoleKeys(Rows(), user)
        decreases rest
      {
        var k :| k in rest;
        keys, rest := keys + {k}, rest - {k};
      }
      var listed: seq<Key> := [];
      rest := keys;
      while rest != {}
        invariant rest <= keys
        invariant forall k :: k in listed <==> k in keys - rest
        invariant forall i, j :: 0 <= i < j < |listed| ==> listed[i] != listed[j]
        decreases rest
      {
        var k :| k in rest;
        assert k !in listed;
        listed, rest := listed + [k], rest - {k};
      }
      return Some(listed);
    }

    /** The grouping loop of ListDetailedByUser: an index map and slices grown in place. */
    static method GroupDetails(rows: seq<DetailRow>) returns (out: seq<RoleDetail>)
      ensures Grouped(out, rows)
    {
      out := [];
      var index: map<RoleId, nat> := map[];
      for n := 0 to |rows|
        invariant Grouped(out, rows[..n])
        invariant forall r :: r in index <==> r in FirstSeen(rows[..n])
        invariant forall r :: r in index ==> index[r] < |out| && out[index[r]].role == r
      {
        var row := rows[n];
        ghost var before := out;
        assert rows[..n + 1] == rows[..n] + [row];
        FirstSeenOneMore(rows[..n], row);
        if row.role !in index {
          out := out + [RoleDetail(row.role, [])];
          index := index[row.role := |out| - 1];
        }
        var i := index[row.role];
        if row.privilege.Some? {
          out := out[i := out[i].(privileges := out[i].privileges + [row.privilege.value])];
        }
        GroupOneMore(rows[..n], row, before, i, out);
      }
      assert rows[..|rows|] == rows;
    }

    // ---------- The last-meta-holder guard ----------

    /** The two counting queries refuse exactly the revokes that would strand a meta key. */
    method AssertNotLastMetaHolder(user: UserId, role: RoleId) returns (ok: bool)
      requires (user, role) in held
      ensures ok <==> forall k :: k in META_KEYS ==> !RevokeStrands(Rows(), user, role, k)
    {
      var keys := [PRIVILEGES_GRANT, ROLES_MANAGE];
      for i := 0 to |keys|
        invariant forall j :: 0 <= j < i ==> !RevokeStrands(Rows(), user, role, keys[j])
      {
        var key := keys[i];
        if (role, key) in bundle {
          GuardIsExact(Rows(), user, role, key);
          if |Holders(Rows(), key)| <= 1 {
            var other := (user, key) in direct
                         || exists p :: p in held && p.0 == user && p.1 != role && (p.1, key) in bundle;
            assert other <==> HoldsOutside(Rows(), user, key, role) by { OtherSourceIsOutside(Rows(), user, key, role); }
            if !other {
              assert keys[i] in META_KEYS;
              return false;
            }
          }
        }
      }
      assert keys[0] == PRIVILEGES_GRANT && keys[1] == ROLES_MANAGE;
      return true;
    }

    // ---------- Direct grants ----------

    method GrantPrivilege(user: UserId, key: Key, granter: UserId) returns (outcome: Outcome)
      modifies this
      ensures Reply(Rows(), outcome) == Apply(old(Rows()), reg, Step.GrantPrivilege(user, key, granter))
      ensures outcome == Done || Rows() != old(Rows()) ==> old(Holds(Rows(), granter, PRIVILEGES_GRANT))
      ensures forall v, k :: (v, k) in direct <==> (v, k) in old(direct) || (outcome == Done && v == user && k == key)
    {
      var ok := Permitted(user == "" || granter == "" || key !in reg, granter, PRIVILEGES_GRANT);
      if !ok { return Refused(InvalidInput); }
      if (user, key) in direct { return Refused(AlreadyExists); }
      if user !in users { return Refused(Constraint); }
      direct := direct + {(user, key)};
      return Done;
    }

    method RevokePrivilege(user: UserId, key: Key, revoker: UserId) returns (outcome: Outcome)
      modifies this
      ensures Reply(Rows(), outcome) == Apply(old(Rows()), reg, Step.RevokePrivilege(user, key, revoker))
    {
      if user == "" || revoker == "" || key !in reg { return Refused(InvalidInput); }
      var ok := Permitted(key == PRIVILEGES_GRANT && revoker == user, revoker, PRIVILEGES_GRANT);
      if !ok { return Refused(InvalidInput); }
      if (user, key) !in direct { return Refused(NotFound); }
      if key == PRIVILEGES_GRANT {
        var rows := set p | p in direct && p.1 == key;
        AtMostOneRow(rows, (user, key));
        assert forall v :: (v, key) in direct ==> (v, key) in rows;
        if |rows| <= 1 { return Refused(InvalidInput); }
        var p :| p in rows && p != (user, key);
        assert p == (p.0, key);
      }
      direct := direct - {(user, key)};
      return Done;
    }

    // ---------- Role assignments ----------

    method GrantRoleToUser(user: UserId, role: RoleId, granter: UserId) returns (outcome: Outcome)
      modifies this
      ensures Reply(Rows(), outcome) == Apply(old(Rows()), reg, GrantRole(user, role, granter))
    {
      var ok := Permitted(user == "" || role == "" || granter == "", granter, ROLES_MANAGE);
      if !ok { return Refused(InvalidInput); }
      if role !in roles { return Refused(NotFound); }
      if (user, role) in held { return Refused(AlreadyExists); }
      if user !in users { return Refused(Constraint); }
      held := held + {(user, role)};
      return Done;
    }

    method RevokeRoleFromUser(user: UserId, role: RoleId, revoker: UserId) returns (outcome: Outcome)
      modifies this
      ensures Reply(Rows(), outcome) == Apply(old(Rows()), reg, RevokeRole(user, role, revoker))
    {
      var ok := Permitted(user == "" || role == "" || revoker == "", revoker, ROLES_MANAGE);
      if !ok { return Refused(InvalidInput); }
      if role !in roles || (user, role) !in held { return Refused(NotFound); }
      ok := AssertNotLastMetaHolder(user, role);
      if !ok { return Refused(InvalidInput); }
      held := held - {(user, role)};
      return Done;
    }

    // ---------- Roles and their bundles ----------

    method CreateRole(id: RoleId, name: string, actor: UserId) returns (outcome: Outcome)
      modifies this
      ensures Reply(Rows(), outcome) == Apply(old(Rows()), reg, Step.CreateRole(id, name, actor))
    {
      var ok := Permitted(name == "" || actor == "", actor, ROLES_MANAGE);
      if !ok { return Refused(InvalidInput); }
      if NameTaken(Rows(), name) { return Refused(AlreadyExists); }
      if id in roles { return Refused(Constraint); }
      roles := roles[id := Role(name, false)];
      return Done;
    }

    method UpdateRole(role: RoleId, name: string, actor: UserId) returns (outcome: Outcome)
      modifies this
      ensures Reply(Rows(), outcome) == Apply(old(Rows()), reg, Step.UpdateRole(role, name, actor))
    {
      var ok := Permitted(role == "" || actor == "", actor, ROLES_MANAGE);
      if !ok { return Refused(InvalidInput); }
      if role !in roles { return Refused(NotFound); }
      var existing := roles[role];
      if existing.isSystem && name != "" && name != existing.name { return Refused(InvalidInput); }
      if name != "" {
        if name != existing.name && NameTaken(Rows(), name) { return Refused(Constraint); }
        roles := roles[role := existing.(name := name)];
      }
      return Done;
    }

    method DeleteRole(role: RoleId, actor: UserId) returns (outcome: Outcome)
      modifies this
      ensures Reply(Rows(), outcome) == Apply(old(Rows()), reg, Step.DeleteRole(role, actor))
    {
      var ok := Permitted(role == "" || actor == "", actor, ROLES_MANAGE);
      if !ok { return Refused(InvalidInput); }
      if role !in roles { return Refused(NotFound); }
      if roles[role].isSystem { return Refused(InvalidInput); }
      roles := roles - {role};
      // ON DELETE CASCADE
      held := set p | p in held && p.1 != role;
      bundle := set p | p in bundle && p.0 != role;
      return Done;
    }

    method AddPrivilegeToRole(role: RoleId, key: Key, actor: UserId) returns (outcome: Outcome)
      modifies this
      ensures Reply(Rows(), outcome) == Apply(old(Rows()), reg, AddToRole(role, key, actor))
    {
      var ok := Permitted(role == "" || actor == "" || key !in reg, actor, ROLES_MANAGE);
      if !ok { return Refused(InvalidInput); }
      if role !in roles { return Refused(NotFound); }
      if (role, key) in bundle { return Refused(AlreadyExists); }
      bundle := bundle + {(role, key)};
      return Done;
    }

    method RemovePrivilegeFromRole(role: RoleId, key: Key, actor: UserId) returns (outcome: Outcome)
      modifies this
      ensures Reply(Rows(), outcome) == Apply(old(Rows()), reg, RemoveFromRole(role, key, actor))
    {
      var ok := Permitted(role == "" || actor == "" || key !in reg, actor, ROLES_MANAGE);
      if !ok { return Refused(InvalidInput); }
      if role !in roles || (role, key) !in bundle { return Refused(NotFound); }
      if key == PRIVILEGES_GRANT || key == ROLES_MANAGE {
        var rows := set p | p in bundle && p.1 == key;
        AtMostOneRow(rows, (role, key));
        assert forall r :: (r, key) in bundle ==> (r, key) in rows;
        if |rows| <= 1 { return Refused(InvalidInput); }
        var p :| p in rows && p != (role, key);
        assert p == (p.0, key);
      }
      bundle := bundle - {(role, key)};
      return Done;
    }

    // ---------- Bootstrap ----------

    method EnsureSuperAdminRole(newRole: RoleId) returns (role: RoleId)
      requires Consistent()
      requires NameTaken(Rows(), SUPER_ADMIN) || newRole !in roles
      modifies this
      ensures (Rows(), role) == WithSuperAdmin(old(Rows()), reg, newRole)
    {
      if r :| r in roles && roles[r].name == SUPER_ADMIN {
        role := r;
      } else {
        role := newRole;
        roles := roles[newRole := Role(SUPER_ADMIN, true)];
      }
      var rest := reg;
      label Found:
      while rest != {}
        invariant users == old(users) && direct == old(direct) && held == old(held) && roles == old@Found(roles)
        invariant rest <= reg
        invariant bundle == old(bundle) + (set k | k in reg - rest :: (role, k))
        decreases rest
      {
        var key :| key in rest;
        if (role, key) !in bundle { bundle := bundle + {(role, key)}; }
        rest := rest - {key};
      }
      assert (set k | k in reg - rest :: (role, k)) == (set k | k in reg :: (role, k));
    }

    method BootstrapSuperAdmin(email: string, newUser: UserId, newRole: RoleId) returns (outcome: Outcome)
      requires Consistent()
      modifies this
      ensures Reply(Rows(), outcome) == Apply(old(Rows()), reg, Bootstrap(email, newUser, newRole))
      ensures Consistent()
      ensures email != "" && outcome == Done ==> exists u :: HoldsAll(Rows(), u, reg)
    {
      ghost var before := Rows();
      StepKeepsValid(before, reg, Bootstrap(email, newUser, newRole));
      if email != "" && BootstrapReply(before, reg, email, newUser, newRole).outcome == Done {
        BootstrapGivesHolder(before, reg, email, newUser, newRole);
      }
      if email == "" { return Done; }
      var user: UserId;
      if u :| u in users && users[u] == email {
        user := u;
      } else {
        if newUser in users { return Refused(Constraint); }
        user := newUser;
        users := users[newUser := email];
      }
      assert (Rows(), user) == WithBootstrapUser(before, email, newUser);
      BootstrapUserKeepsValid(before, reg, email, newUser);
      if !NameTaken(Rows(), SUPER_ADMIN) && newRole in roles { return Refused(Constraint); }
      var role := EnsureSuperAdminRole(newRole);
      if (user, role) in held { return Done; }
      if exists p :: p in held && p.1 == role {
        var p :| p in held && p.1 == role;
        assert (p.0, role) in held;
        return Done;
      }
      held := held + {(user, role)};
      return Done;
    }
  }

  // ---------- The grouped view of a user's roles ----------

  /** Role ids in order of first appearance. */
  function FirstSeen(rows: seq<DetailRow>): seq<RoleId>
  {
    if rows == [] then []
    else
      var last := rows[|rows| - 1].role;
      var before := FirstSeen(rows[..|rows| - 1]);
      if last in before then before else before + [last]
  }

  /** The privileges the rows give for one role, in row order. */
  function KeysOf(rows: seq<DetailRow>, role: RoleId): seq<Key>
  {
    if rows == [] then []
    else
      var last := rows[|rows| - 1];
      KeysOf(rows[..|rows| - 1], role) +
      (if last.role == role && last.privilege.Some? then [last.privilege.value] else [])
  }

  lemma {:induction false} SeenOnce(rows: seq<DetailRow>)
    ensures forall i, j :: 0 <= i < j < |FirstSeen(rows)| ==> FirstSeen(rows)[i] != FirstSeen(rows)[j]
  {
    if rows != [] { SeenOnce(rows[..|rows| - 1]); }
  }

  lemma {:induction false} SeenIfListed(rows: seq<DetailRow>)
    ensures forall r :: r in FirstSeen(rows) <==> exists i :: 0 <= i < |rows| && rows[i].role == r
  {
    if rows != [] {
      var before := rows[..|rows| - 1];
      SeenIfListed(before);
      assert forall i :: 0 <= i < |before| ==> rows[i] == before[i];
    }
  }

  lemma {:induction false} NoKeysUnlessSeen(rows: seq<DetailRow>, role: RoleId)
    requires role !in FirstSeen(rows)
    ensures KeysOf(rows, role) == []
  {
    if rows != [] { NoKeysUnlessSeen(rows[..|rows| - 1], role); }
  }

  lemma {:induction false} KeysIfListed(rows: seq<DetailRow>, role: RoleId)
    ensures forall k :: k in KeysOf(rows, role) <==> DetailRow(role, Some(k)) in rows
  {
    if rows != [] {
      var before := rows[..|rows| - 1];
      KeysIfListed(before, role);
      assert rows == before + [rows[|rows| - 1]];
    }
  }

  /** One group per role in order of first appearance, each with the role's keys in row order. */
  ghost predicate Grouped(out: seq<RoleDetail>, rows: seq<DetailRow>) {
    && |out| == |FirstSeen(rows)|
    && forall g :: 0 <= g < |out| ==> out[g] == RoleDetail(FirstSeen(rows)[g], KeysOf(rows, FirstSeen(rows)[g]))
  }

  lemma FirstSeenOneMore(rows: seq<DetailRow>, row: DetailRow)
    ensures FirstSeen(rows + [row]) ==
      if row.role in FirstSeen(rows) then FirstSeen(rows) else FirstSeen(rows) + [row.role]
  {
  }

  lemma KeysOneMore(rows: seq<DetailRow>, row: DetailRow, role: RoleId)
    ensures KeysOf(rows + [row], role) ==
      KeysOf(rows, role) + if row.role == role && row.privilege.Some? then [row.privilege.value] else []
  {
  }

  lemma GroupOneMore(rows: seq<DetailRow>, row: DetailRow, out: seq<RoleDetail>, i: nat, out': seq<RoleDetail>)
    requires Grouped(out, rows)
    requires var mid := if row.role in FirstSeen(rows) then out else out + [RoleDetail(row.role, [])];
      && i < |mid| && mid[i].role == row.role
      && out' == if row.privilege.Some?
                 then mid[i := mid[i].(privileges := mid[i].privileges + [row.privilege.value])] else mid
    ensures Grouped(out', rows + [row])
  {
    FirstSeenOneMore(rows, row);
    SeenOnce(rows);
    if row.role !in FirstSeen(rows) { NoKeysUnlessSeen(rows, row.role); }
    var roles := FirstSeen(rows + [row]);
    forall g | 0 <= g < |out'| ensures out'[g] == RoleDetail(roles[g], KeysOf(rows + [row], roles[g])) {
      KeysOneMore(rows, row, roles[g]);
    }
  }

  /** rows is an answer to the join of the user's roles with their privileges. */
  ghost predicate ListsDetails(t: Tables, user: UserId, rows: seq<DetailRow>) {
    && (forall i :: 0 <= i < |rows| ==>
         && (user, rows[i].role) in t.held && rows[i].role in t.roles
         && match rows[i].privilege
            case Some(k) => (rows[i].role, k) in t.bundle
            case None => forall k :: (rows[i].role, k) !in t.bundle)
    && (forall r :: (user, r) in t.held && r in t.roles ==> exists i :: 0 <= i < |rows| && rows[i].role == r)
    && (forall r, k :: (user, r) in t.held && r in t.roles && (r, k) in t.bundle ==> DetailRow(r, Some(k)) in rows)
  }

  /**
  The fourth view of privilege agrees with the other three: one group per held role, and a
  key is held exactly when it is granted directly or appears in some group.
   */
  lemma GroupedViewAgrees(t: Tables, reg: set<Key>, user: UserId, rows: seq<DetailRow>, k: Key)
    requires Valid(t, reg) && ListsDetails(t, user, rows)
    ensures forall r :: r in FirstSeen(rows) <==> (user, r) in t.held
    ensures forall i, j :: 0 <= i < j < |FirstSeen(rows)| ==> FirstSeen(rows)[i] != FirstSeen(rows)[j]
    ensures Holds(t, user, k) <==> (user, k) in t.direct || exists r :: r in FirstSeen(rows) && k in KeysOf(rows, r)
    ensures Holds(t, user, k) ==> k in reg
  {
    SeenOnce(rows);
    SeenIfListed(rows);
    forall r ensures k in KeysOf(rows, r) <==> DetailRow(r, Some(k)) in rows { KeysIfListed(rows, r); }
    if r :| ViaRole(t, user, r, k) {
      assert DetailRow(r, Some(k)) in rows;
      assert r in FirstSeen(rows) && k in KeysOf(rows, r);
    }
    if r :| r in FirstSeen(rows) && k in KeysOf(rows, r) {
      var i :| 0 <= i < |rows| && rows[i] == DetailRow(r, Some(k));
      assert ViaRole(t, user, r, k);
    }
  }

  // ---------- Why the counts decide the guards ----------

  lemma AtMostOneRow<T>(rows: set<T>, row: T)
    requires row in rows
    ensures |rows| <= 1 <==> forall p :: p in rows ==> p == row
  {
    assert |rows - {row}| == |rows| - 1;
    if |rows| <= 1 { assert rows - {row} == {}; }
    else { var p :| p in rows - {row}; }
  }

  lemma OtherSourceIsOutside(t: Tables, u: UserId, k: Key, role: RoleId)
    ensures ((u, k) in t.direct || exists p :: p in t.held && p.0 == u && p.1 != role && (p.1, k) in t.bundle)
       <==> HoldsOutside(t, u, k, role)
  {
    if p :| p in t.held && p.0 == u && p.1 != role && (p.1, k) in t.bundle {
      assert ViaRole(t, u, p.1, k);
    }
    if r :| r != role && ViaRole(t, u, r, k) {
      assert (u, r) in t.held && (u, r).0 == u && (u, r).1 == r;
    }
  }

  lemma GuardIsExact(t: Tables, user: UserId, role: RoleId, k: Key)
    requires (user, role) in t.held && (role, k) in t.bundle
    ensures RevokeStrands(t, user, role, k) <==> |Holders(t, k)| <= 1 && !HoldsOutside(t, user, k, role)
  {
    var t' := t.(held := t.held - {(user, role)});
    forall v
      ensures Holds(t', v, k) <==> if v == user then HoldsOutside(t, v, k, role) else Holds(t, v, k)
    {
      AfterRevokeRole(t, user, role, user, v, k);
    }
    assert ViaRole(t, user, role, k);
    AtMostOneRow(Holders(t, k), user);
  }
}
