/**
The AMIE project handlers with their loops, over tables updated in place, proved to take the
tables where module Grants says.
 */
module GrantsService {
  import opened Common
  import opened PosixNames
  import opened Grants
  import opened Text

  /** Whose memberships a flip is about. */
  datatype Whom = Everyone | Nobody | Only(user: UserId) {
    predicate Has(m: Membership) {
      Everyone? || (Only? && m.user == user)
    }
  }

  class Handler {
    var users: set<UserId>
    var accounts: map<UserId, string>
    var catalog: set<string>
    var mappings: set<(Id, string)>
    var projects: seq<Project>
    var allocations: seq<Allocation>
    var members: seq<Membership>
    var diffs: seq<Diff>
    var piRows: map<Id, UserId>

    ghost function State(): Site
      reads this
    {
      Site(users, accounts, Books(projects, allocations, diffs), catalog, mappings, members, piRows)
    }

    constructor (registered: set<string>)
      ensures State() == Site({}, map[], Books([], [], []), registered, {}, [], map[])
      ensures Tidy(State().books) && PIRowsRefer(State())
    {
      users, accounts, catalog, mappings := {}, map[], registered, {};
      projects, allocations, members, diffs, piRows := [], [], [], [], map[];
    }

    // ---------- Member statuses ----------

    /** A listed membership of allocation a, of the users meant. */
    predicate Hit(m: Membership, a: Id, whom: Whom)
      reads this`users
    {
      m.allocation == a && m.user in users && whom.Has(m)
    }

    /** Sets the status of the allocation's listed memberships and returns the ids of those it updated. */
    method FlipMembers(a: Id, whom: Whom, status: Status) returns (flipped: seq<Id>)
      modifies this`members
      ensures |members| == |old(members)|
      ensures forall i :: 0 <= i < |members| ==>
        members[i] == if Hit(old(members)[i], a, whom) then old(members)[i].(status := status) else old(members)[i]
      ensures forall i: nat :: i in flipped <==> i < |members| && Hit(members[i], a, whom)
      ensures forall j, k :: 0 <= j < k < |flipped| ==> flipped[j] < flipped[k]
    {
      flipped := [];
      for m := 0 to |members|
        invariant |members| == |old(members)|
        invariant forall i :: 0 <= i < |members| ==>
          members[i] == if i < m && Hit(old(members)[i], a, whom) then old(members)[i].(status := status) else old(members)[i]
        invariant forall i: nat :: i in flipped <==> i < m && Hit(members[i], a, whom)
        invariant forall j, k :: 0 <= j < k < |flipped| ==> flipped[j] < flipped[k]
      {
        if Hit(members[m], a, whom) {
          members := members[m := members[m].(status := status)];
          assert forall j :: 0 <= j < |flipped| ==> flipped[j] in flipped;
          flipped := flipped + [m];
        }
      }
    }

    /**
    Sets the status of the project's allocations, writes a diff for each, and sets the status
    of their listed memberships, for the users meant.
     */
    method FlipAllocations(p: Id, whom: Whom, status: Status)
      modifies this`allocations, this`members, this`diffs
      ensures allocations == WithAllocations(old(allocations), p, status)
      ensures diffs == old(diffs) + StatusDiffs(old(allocations), p, |old(allocations)|, status)
      ensures members == WithMembers(old(members), m => old(Listed(State(), m, p)) && whom.Has(m), status)
    {
      ghost var start := State();
      for a := 0 to |allocations|
        invariant |allocations| == |start.books.allocations| && |members| == |start.members|
        invariant forall i :: 0 <= i < |allocations| ==>
          allocations[i] == if i < a && start.books.allocations[i].project == p
                            then start.books.allocations[i].(status := status) else start.books.allocations[i]
        invariant diffs == start.books.diffs + StatusDiffs(start.books.allocations, p, a, status)
        invariant forall i :: 0 <= i < |members| ==>
          members[i] == if start.members[i].allocation < a && Listed(start, start.members[i], p) && whom.Has(start.members[i])
                        then start.members[i].(status := status) else start.members[i]
      {
        if allocations[a].project == p {
          allocations := allocations[a := allocations[a].(status := status)];
          diffs := diffs + [Diff(a, STATUS_CHANGE, 0, status)];
          if whom != Nobody { var _ := FlipMembers(a, whom, status); }
        }
      }
    }

    // ---------- request_project_inactivate, request_project_reactivate ----------

    method HandleInactivate(p: Id)
      modifies this
      ensures State() == Inactivate(old(State()), p)
      ensures p < |projects| ==> projects[p].status == Inactive
      ensures forall a :: p < |projects| && 0 <= a < |allocations| && allocations[a].project == p ==>
        allocations[a].status == Inactive
    {
      if p >= |projects| { return; }
      projects := projects[p := projects[p].(status := Inactive)];
      FlipAllocations(p, Everyone, Inactive);
    }

    method HandleReactivate(p: Id)
      modifies this
      ensures State() == Reactivate(old(State()), p)
      ensures p < |projects| ==> projects[p].status == Active
      ensures forall a :: p < |projects| && 0 <= a < |allocations| && allocations[a].project == p ==>
        allocations[a].status == Active
    {
      if p >= |projects| { return; }
      projects := projects[p := projects[p].(status := Active)];
      FlipAllocations(p, if projects[p].pi == "" then Nobody else Only(projects[p].pi), Active);
    }

    // ---------- flipUserMemberships ----------

    /** Updates and returns exactly the user's listed memberships under the project; none if the project is unknown. */
    method FlipUserMemberships(p: Id, user: UserId, status: Status) returns (updated: seq<Id>)
      modifies this`members
      ensures members == if p < |projects|
        then WithMembers(old(members), m => old(Listed(State(), m, p)) && m.user == user, status) else old(members)
      ensures forall i: nat :: i in updated <==>
        p < |projects| && i < |members| && Listed(State(), members[i], p) && members[i].user == user
      ensures forall j, k :: 0 <= j < k < |updated| ==> updated[j] != updated[k]
    {
      updated := [];
      if p >= |projects| { return; }
      ghost var start := State();
      for a := 0 to |allocations|
        invariant |members| == |start.members|
        invariant forall i :: 0 <= i < |members| ==>
          members[i] == if start.members[i].allocation < a && Listed(start, start.members[i], p) && start.members[i].user == user
                        then start.members[i].(status := status) else start.members[i]
        invariant forall i: nat :: i in updated <==>
          i < |members| && members[i].allocation < a && Listed(start, members[i], p) && members[i].user == user
        invariant forall j, k :: 0 <= j < k < |updated| ==> updated[j] != updated[k]
      {
        if allocations[a].project == p {
          var flipped := FlipMembers(a, Only(user), status);
          assert forall j :: 0 <= j < |updated| ==> updated[j] in updated;
          assert forall k :: 0 <= k < |flipped| ==> flipped[k] in flipped;
          updated := updated + flipped;
        }
      }
    }

    // ---------- request_project_create ----------

    /** The PI's account, or the first candidate nobody else has. */
    method EnsurePIClusterUser(pi: UserId, base: Option<string>) returns (ok: bool)
      modifies this`accounts
      ensures ok <==> EnsureAccount(old(accounts), pi, base).Some?
      ensures accounts == if ok then EnsureAccount(old(accounts), pi, base).value else old(accounts)
    {
      if pi in accounts { return true; }
      if base.None? { return false; }
      for n := 0 to MAX_COLLISION_SUFFIX
        invariant accounts == old(accounts)
        invariant PickName(accounts.Values, base.value, 0) == PickName(accounts.Values, base.value, n)
      {
        var candidate := Candidate(base.value, n);
        if candidate !in accounts.Values {
          accounts := accounts[pi := candidate];
          return true;
        }
      }
      return false;
    }

    method EnsureProject(d: Delivery) returns (p: Id)
      requires Tidy(State().books)
      modifies this`projects
      ensures State() == old(State()).(books := Grants.EnsureProject(old(State()).books, d))
      ensures p == ProjectOf(projects, d.grant)
    {
      for i := 0 to |projects|
        invariant forall j :: 0 <= j < i ==> projects[j].originated != d.grant
      {
        if projects[i].originated == d.grant { return i; }
      }
      p := |projects|;
      projects := projects + [Project(d.grant, d.pi, Active)];
      assert projects[p].originated == d.grant;
    }

    /** The allocation the packet's units went to; none if the packet could not be read. */
    method EnsureAllocation(p: Id, d: Delivery) returns (a: Option<Id>)
      requires Tidy(State().books) && p < |projects|
      modifies this`allocations, this`diffs
      ensures var written := Grants.EnsureAllocation(old(State()).books, p, d);
        && (written.None? ==> a.None? && State() == old(State()))
        && (written.Some? ==> a == Some(AllocationOf(allocations, p)) && State() == old(State()).(books := written.value))
    {
      var found := NONE;
      for i := 0 to |allocations|
        invariant NONE <= found < i
        invariant found == NONE ==> forall j :: 0 <= j < i ==> allocations[j].project != p
        invariant found != NONE ==> allocations[found].project == p
      {
        if found == NONE && allocations[i].project == p { found := i; }
      }
      if d.su.None? { return None; }
      if found != NONE {
        diffs := diffs + [Diff(found, d.kind, d.su.value, Active)];
        return Some(found);
      }
      if !d.datesOk { return None; }
      a := Some(|allocations|);
      allocations := allocations + [Allocation(p, d.su.value, Active)];
      assert allocations[a.value].project == p;
    }

    /** Stops after `upTo` names; a name outside the catalog is skipped, a mapping that exists stays. */
    method AttachResources(a: Id, names: seq<string>, upTo: nat)
      requires upTo <= |names|
      modifies this`mappings
      ensures State() == Grants.Attach(old(State()), a, names[..upTo])
    {
      assert names[..0] == [];
      for i := 0 to upTo
        invariant State() == Grants.Attach(old(State()), a, names[..i])
      {
        assert names[..i + 1][..i] == names[..i];
        AttachMaps(old(State()), a, names[..i]);
        if names[i] in catalog && (a, names[i]) !in mappings { mappings := mappings + {(a, names[i])}; }
      }
    }

    method EnsurePIMembership(a: Id, pi: UserId) returns (created: bool)
      requires pi in users
      modifies this`members
      ensures State() == Grants.EnsurePIMembership(old(State()), a, pi)
      ensures created <==> !IsMember(old(State()), a, pi)
    {
      for m := 0 to |members|
        invariant forall i :: 0 <= i < m ==> !(members[i].allocation == a && members[i].user == pi)
      {
        if members[m].allocation == a && members[m].user in users && members[m].user == pi { return false; }
      }
      members := members + [Membership(a, pi, Active)];
      return true;
    }

    /** The stages after the units are written. */
    method FinishDelivery(p: Id, a: Id, d: Delivery) returns (completed: bool)
      requires a == AllocationOf(allocations, p) && d.pi in users
      modifies this`mappings, this`members, this`piRows
      ensures Result(State(), true, completed) == Finish(old(State()), p, d)
    {
      var breaks := d.fails.AtResource? && d.fails.attached <= |d.resources|;
      AttachResources(a, d.resources, if breaks then d.fails.attached else |d.resources|);
      if breaks { return false; }
      assert d.resources[..|d.resources|] == d.resources;
      var _ := EnsurePIMembership(a, d.pi);
      if d.fails == AtMembership { return false; }
      if p in piRows && piRows[p] != d.pi { return false; }
      piRows := piRows[p := d.pi];
      return d.fails == Nowhere || d.fails.AtResource?;
    }

    method HandleCreate(d: Delivery) returns (recorded: bool, completed: bool)
      requires Tidy(State().books)
      modifies this
      ensures Result(State(), recorded, completed) == Create(old(State()), d)
    {
      if IsBlank(d.grant) || d.fails == AtUser { return false, false; }
      users := users + {d.pi};
      if d.fails == AtIdentity { return false, false; }
      var ok := EnsurePIClusterUser(d.pi, d.base);
      if !ok { return false, false; }
      if d.fails == AtProject { return false, false; }
      EnsureProjectStep(State().books, d, d.grant);
      var p := EnsureProject(d);
      if d.fails == AtAllocation { return false, false; }
      var a := EnsureAllocation(p, d);
      if a.None? { return false, false; }
      recorded := true;
      completed := FinishDelivery(p, a.value, d);
    }
  }
}
