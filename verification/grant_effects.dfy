/**
What each AMIE project packet leaves in the tables, row by row, from any site: when a delivery
is recorded and when it completes, what it opens, what a failure leaves behind at each stage,
and what stopping and resuming a project change, over every run.
 */
module GrantEffects {
  import opened PosixNames
  import opened Text
  import opened Grants

  // ---------- Stopping and resuming ----------

  /** One status diff per allocation of p among the first n, in table order, carrying no units. */
  ghost predicate StatusDiffsOnly(added: seq<Diff>, allocations: seq<Allocation>, p: Id, n: nat, status: Status)
    requires n <= |allocations|
  {
    && (forall i :: 0 <= i < |added| ==>
          && added[i].allocation < n && allocations[added[i].allocation].project == p
          && added[i] == Diff(added[i].allocation, "ALLOCATION_STATUS_CHANGE", 0, status))
    && (forall i, j :: 0 <= i < j < |added| ==> added[i].allocation < added[j].allocation)
    && (forall a: Id :: a < n && allocations[a].project == p ==> HasDiff(added, a))
  }

  predicate HasDiff(diffs: seq<Diff>, a: Id) {
    exists i :: 0 <= i < |diffs| && diffs[i].allocation == a
  }

  /** The membership is of one of the project's allocations and its user exists; with `onlyPI`, that user is the project's PI. */
  predicate Meant(site: Site, m: Membership, p: Id, onlyPI: bool)
    requires p < |site.books.projects|
  {
    && m.allocation < |site.books.allocations| && site.books.allocations[m.allocation].project == p
    && m.user in site.users
    && (onlyPI ==> m.user == site.books.projects[p].pi && m.user != "")
  }

  /** The project, its allocations and the memberships meant have the status, the diffs say so, and nothing else differs. */
  ghost predicate StatusSet(site: Site, after: Site, p: Id, status: Status, onlyPI: bool)
    requires p < |site.books.projects|
  {
    var b, c := site.books, after.books;
    && |c.projects| == |b.projects| && |c.allocations| == |b.allocations| && |after.members| == |site.members|
    && (forall i :: 0 <= i < |b.projects| ==> c.projects[i] == if i == p then b.projects[i].(status := status) else b.projects[i])
    && (forall a :: 0 <= a < |b.allocations| ==>
          c.allocations[a] == if b.allocations[a].project == p then b.allocations[a].(status := status) else b.allocations[a])
    && (forall m :: 0 <= m < |site.members| ==>
          after.members[m] ==
            if Meant(site, site.members[m], p, onlyPI) then site.members[m].(status := status) else site.members[m])
    && b.diffs <= c.diffs && StatusDiffsOnly(c.diffs[|b.diffs|..], b.allocations, p, |b.allocations|, status)
    && after == site.(books := c, members := after.members)
  }

  lemma {:induction false} StatusDiffsAre(allocations: seq<Allocation>, p: Id, n: nat, status: Status)
    requires n <= |allocations|
    ensures StatusDiffsOnly(StatusDiffs(allocations, p, n, status), allocations, p, n, status)
  {
    if n > 0 {
      StatusDiffsAre(allocations, p, n - 1, status);
      var before := StatusDiffs(allocations, p, n - 1, status);
      var after := StatusDiffs(allocations, p, n, status);
      forall a: Id | a < n && allocations[a].project == p ensures HasDiff(after, a) {
        if a < n - 1 {
          var i :| 0 <= i < |before| && before[i].allocation == a;
          assert after[i].allocation == a;
        } else {
          assert after[|before|].allocation == a;
        }
      }
    }
  }

  /** Stopping a project ends it, its allocations and all their listed memberships; an unknown project is skipped. */
  lemma StopIs(site: Site, p: Id)
    ensures p < |site.books.projects| ==> StatusSet(site, Inactivate(site, p), p, Inactive, false)
    ensures p >= |site.books.projects| ==> Inactivate(site, p) == site
  {
    if p < |site.books.projects| { FlipIs(site.books, p, Inactive); }
  }

  /** Resuming it makes the project and its allocations ACTIVE again, and of the memberships the PI's. */
  lemma ResumeIs(site: Site, p: Id)
    ensures p < |site.books.projects| ==> StatusSet(site, Reactivate(site, p), p, Active, true)
    ensures p >= |site.books.projects| ==> Reactivate(site, p) == site
  {
    if p < |site.books.projects| { FlipIs(site.books, p, Active); }
  }

  lemma FlipIs(b: Books, p: Id, status: Status)
    requires p < |b.projects|
    ensures var c := FlipBooks(b, p, status);
      b.diffs <= c.diffs && StatusDiffsOnly(c.diffs[|b.diffs|..], b.allocations, p, |b.allocations|, status)
  {
    StatusDiffsAre(b.allocations, p, |b.allocations|, status);
    assert FlipBooks(b, p, status).diffs[|b.diffs|..] == StatusDiffs(b.allocations, p, |b.allocations|, status);
  }

  // ---------- When a delivery is recorded, and when it completes ----------

  predicate HasProject(b: Books, grant: string) {
    exists i :: 0 <= i < |b.projects| && b.projects[i].originated == grant
  }

  predicate IsAllocationOf(b: Books, grant: string, a: int) {
    && 0 <= a < |b.allocations| && b.allocations[a].project < |b.projects|
    && b.projects[b.allocations[a].project].originated == grant
  }

  ghost predicate HasAllocation(b: Books, grant: string) {
    exists a :: IsAllocationOf(b, grant, a)
  }

  lemma ReadsTables(b: Books, grant: string)
    requires Tidy(b)
    ensures HasProject(b, grant) <==> ProjectOf(b.projects, grant) != NONE
    ensures HasAllocation(b, grant) <==>
      ProjectOf(b.projects, grant) != NONE && AllocationOf(b.allocations, ProjectOf(b.projects, grant)) != NONE
    ensures forall a :: IsAllocationOf(b, grant, a) ==> a == AllocationOf(b.allocations, ProjectOf(b.projects, grant))
  {
    var p := ProjectOf(b.projects, grant);
    var a := AllocationOf(b.allocations, p);
    if p != NONE && a != NONE { assert IsAllocationOf(b, grant, a); }
    forall c | IsAllocationOf(b, grant, c) ensures c == a {
      assert b.allocations[c].project == p;
    }
  }

  /** The delivery gets as far as its project: the grant is given, the PI resolves and has or gets an account. */
  ghost predicate ReachesProject(site: Site, d: Delivery) {
    !IsBlank(d.grant) && d.fails != AtUser && d.fails != AtIdentity && d.fails != AtProject && CanHaveAccount(site, d)
  }

  lemma RecordedIff(site: Site, d: Delivery)
    requires Tidy(site.books)
    ensures Create(site, d).recorded <==>
      && ReachesProject(site, d) && d.fails != AtAllocation
      && d.su.Some? && (d.datesOk || HasAllocation(site.books, d.grant))
  {
    var named := EnsureProject(site.books, d);
    EnsureProjectStep(site.books, d, d.grant);
    if named != site.books { NewProjectIsLast(site.books, d); }
    ReadsTables(site.books, d.grant);
    AccountIff(site, d);
    FinishRecords(site, d);
  }

  lemma FinishRecords(site: Site, d: Delivery)
    ensures forall s, p :: Finish(s, p, d).recorded
  {
  }

  /** It completes if and only if it is recorded, nothing later breaks, and the project has no other PI. */
  lemma CompletedIff(site: Site, d: Delivery)
    requires Tidy(site.books) && PIRowsRefer(site)
    ensures Create(site, d).completed <==>
      && Create(site, d).recorded
      && d.fails != AtMembership && d.fails != AtReply && !(d.fails.AtResource? && d.fails.attached <= |d.resources|)
      && forall p :: p in site.piRows && p < |site.books.projects| && site.books.projects[p].originated == d.grant ==>
           site.piRows[p] == d.pi
  {
    AbortsIff(site, d);
    CreateWrites(site, d);
    RecordedIff(site, d);
    ReadsTables(site.books, d.grant);
  }

  // ---------- What a delivery opens ----------

  /** A new project belongs to the grant and its PI and is ACTIVE; a grant that has one keeps it. */
  lemma ProjectsAfter(site: Site, d: Delivery)
    requires Tidy(site.books)
    ensures Create(site, d).site.books.projects ==
      if ReachesProject(site, d) && !HasProject(site.books, d.grant)
      then site.books.projects + [Project(d.grant, d.pi, Active)] else site.books.projects
  {
    AccountIff(site, d);
    ReadsTables(site.books, d.grant);
    CreateWrites(site, d);
    var named := EnsureProject(site.books, d);
    var p := ProjectOf(named.projects, d.grant);
    var accounts := EnsureAccount(site.accounts, d.pi, d.base);
    if accounts.Some? && EnsureAllocation(named, p, d).Some? {
      var ready := site.(users := site.users + {d.pi}, accounts := accounts.value, books := EnsureAllocation(named, p, d).value);
      FinishKeepsBooks(ready, p, d);
    }
  }

  /** Recorded units open the grant's allocation, ACTIVE, or add one diff to it; an unrecorded delivery touches neither. */
  lemma UnitsAfter(site: Site, d: Delivery)
    requires Tidy(site.books)
    ensures var r := Create(site, d);
      var b, c := site.books, r.site.books;
      && (!r.recorded ==> c.allocations == b.allocations && c.diffs == b.diffs)
      && (r.recorded && !HasAllocation(b, d.grant) ==>
            && d.su.Some? && c.diffs == b.diffs && |c.allocations| == |b.allocations| + 1
            && b.allocations <= c.allocations && IsAllocationOf(c, d.grant, |b.allocations|)
            && c.allocations[|b.allocations|].initialSU == d.su.value && c.allocations[|b.allocations|].status == Active)
      && (forall a :: r.recorded && IsAllocationOf(b, d.grant, a) ==>
            d.su.Some? && c.allocations == b.allocations && c.diffs == b.diffs + [Diff(a, d.kind, d.su.value, Active)])
  {
    CreateWrites(site, d);
    var named := EnsureProject(site.books, d);
    ReadsTables(site.books, d.grant);
    EnsureProjectStep(site.books, d, d.grant);
    if named != site.books { NewProjectIsLast(site.books, d); }
  }

  /** The site when the units have just been written. */
  ghost function Written(site: Site, d: Delivery): Site
    requires Create(site, d).recorded
  {
    var named := EnsureProject(site.books, d);
    var books := EnsureAllocation(named, ProjectOf(named.projects, d.grant), d).value;
    site.(users := site.users + {d.pi}, accounts := EnsureAccount(site.accounts, d.pi, d.base).value, books := books)
  }

  lemma RecordedIsFinished(site: Site, d: Delivery)
    requires Create(site, d).recorded
    ensures Create(site, d) == Finish(Written(site, d), ProjectOf(EnsureProject(site.books, d).projects, d.grant), d)
    ensures Create(site, d).site.books == Written(site, d).books
    ensures Written(site, d).books.projects == EnsureProject(site.books, d).projects
  {
    CreateWrites(site, d);
  }

  lemma GrantRows(b: Books, grant: string, p: nat, a: nat)
    requires Tidy(b) && p < |b.projects| && b.projects[p].originated == grant
    requires a < |b.allocations| && b.allocations[a].project == p
    ensures p == ProjectOf(b.projects, grant) && a == AllocationOf(b.allocations, p)
  {
  }

  lemma FinishKeepsPeople(site: Site, p: int, d: Delivery)
    ensures var after := Finish(site, p, d).site;
      after == site.(mappings := after.mappings, members := after.members, piRows := after.piRows)
  {
    var a := AllocationOf(site.books.allocations, p);
    if a >= 0 {
      AttachMaps(site, a, d.resources);
      if d.fails.AtResource? && d.fails.attached <= |d.resources| { AttachMaps(site, a, d.resources[..d.fails.attached]); }
    }
  }

  /** The PI is a user from the first stage on, and has an account from the second: the one they had, or a new name. */
  lemma PeopleAfter(site: Site, d: Delivery)
    ensures var after := Create(site, d).site;
      && after.users == (if IsBlank(d.grant) || d.fails == AtUser then site.users else site.users + {d.pi})
      && (forall u :: u != d.pi || u in site.accounts ==>
            && (u in after.accounts <==> u in site.accounts)
            && (u in site.accounts ==> after.accounts[u] == site.accounts[u]))
      && (d.pi !in site.accounts ==>
            (d.pi in after.accounts <==>
               !IsBlank(d.grant) && d.fails != AtUser && d.fails != AtIdentity && CanHaveAccount(site, d)))
  {
    AccountIff(site, d);
    if Create(site, d).recorded {
      RecordedIsFinished(site, d);
      FinishKeepsPeople(Written(site, d), ProjectOf(EnsureProject(site.books, d).projects, d.grant), d);
    }
  }

  /** A new account has the first name of the PI's base that nobody else has. */
  lemma NewAccountIsFirstFree(site: Site, d: Delivery)
    requires d.pi !in site.accounts && d.pi in Create(site, d).site.accounts
    ensures d.base.Some? && exists m: nat ::
      IsFirstFree(site.accounts.Values, d.base.value, 0, m) && Create(site, d).site.accounts[d.pi] == Candidate(d.base.value, m)
  {
    CreateAccounts(site, d);
    PickNameIs(site.accounts.Values, d.base.value, 0);
  }

  predicate BreaksAtResource(d: Delivery) {
    d.fails.AtResource? && d.fails.attached <= |d.resources|
  }

  /** The names whose mappings the delivery gets to write. */
  function Attached(d: Delivery): seq<string> {
    if BreaksAtResource(d) then d.resources[..d.fails.attached] else d.resources
  }

  /** The stages after the units, on project p and its allocation a. */
  ghost predicate Finished(site: Site, after: Site, d: Delivery, p: nat, a: nat) {
    && (forall b: nat, n :: (b, n) in after.mappings <==>
          (b, n) in site.mappings || (b == a && n in Attached(d) && n in site.catalog))
    && after.members == (if BreaksAtResource(d) || exists m :: m in site.members && m.allocation == a && m.user == d.pi
                         then site.members else site.members + [Membership(a, d.pi, Active)])
    && after.piRows == (if BreaksAtResource(d) || d.fails == AtMembership || (p in site.piRows && site.piRows[p] != d.pi)
                        then site.piRows else site.piRows[p := d.pi])
    && after.catalog == site.catalog
  }

  lemma FinishIs(site: Site, d: Delivery, p: nat, a: nat)
    requires a == AllocationOf(site.books.allocations, p)
    ensures Finished(site, Finish(site, p, d).site, d, p, a)
  {
    AttachMaps(site, a, Attached(d));
    AttachMaps(site, a, d.resources);
    assert IsMember(site, a, d.pi) <==> exists m :: m in site.members && m.allocation == a && m.user == d.pi;
  }

  /**
  What follows the units: the resources up to where the delivery breaks, then an ACTIVE
  membership for a PI who has none, then the PI row, unless the project has another PI's.
   */
  lemma RestAfter(site: Site, d: Delivery, p: nat, a: nat)
    requires Tidy(site.books)
    requires var r := Create(site, d);
      && r.recorded && p < |r.site.books.projects| && r.site.books.projects[p].originated == d.grant
      && a < |r.site.books.allocations| && r.site.books.allocations[a].project == p
    ensures Finished(site, Create(site, d).site, d, p, a)
  {
    CreateStep(site, d, d.grant);
    RecordedIsFinished(site, d);
    GrantRows(Create(site, d).site.books, d.grant, p, a);
    FinishIs(Written(site, d), d, p, a);
  }

  /** Unrecorded, it leaves resources, memberships and PI rows alone. */
  lemma RestUnlessRecorded(site: Site, d: Delivery)
    requires !Create(site, d).recorded
    ensures var after := Create(site, d).site;
      after == site.(users := after.users, accounts := after.accounts, books := after.books)
  {
    FinishRecords(site, d);
  }

  // ---------- Statuses over runs ----------

  /** Every row that was there is there, unchanged. */
  ghost predicate KeepsRows(site: Site, after: Site) {
    && site.books.projects <= after.books.projects
    && site.books.allocations <= after.books.allocations
    && site.books.diffs <= after.books.diffs
    && site.members <= after.members
  }

  /** A delivery only ever adds rows: whatever was stopped stays stopped. */
  lemma DeliveryKeepsRows(site: Site, d: Delivery)
    ensures KeepsRows(site, Create(site, d).site)
  {
    CreateWrites(site, d);
    if Create(site, d).recorded {
      RecordedIsFinished(site, d);
      var written := Written(site, d);
      var a := AllocationOf(written.books.allocations, ProjectOf(EnsureProject(site.books, d).projects, d.grant));
      if a >= 0 {
        AttachMaps(written, a, d.resources);
        if BreaksAtResource(d) { AttachMaps(written, a, d.resources[..d.fails.attached]); }
      }
    } else {
      RestUnlessRecorded(site, d);
    }
  }

  /** Project p is INACTIVE, and so are these of its allocations and of the memberships under it. */
  ghost predicate Idle(site: Site, p: Id, allocations: set<nat>, members: set<nat>) {
    && p < |site.books.projects| && site.books.projects[p].status == Inactive
    && (forall a :: a in allocations ==>
          && a < |site.books.allocations|
          && site.books.allocations[a].project == p && site.books.allocations[a].status == Inactive)
    && (forall m :: m in members ==>
          m < |site.members| && UnderProject(site, site.members[m], p) && site.members[m].status == Inactive)
  }

  lemma EventKeepsIdle(site: Site, e: Event, p: Id, allocations: set<nat>, members: set<nat>)
    requires Idle(site, p, allocations, members) && e != Resume(p)
    ensures Idle(Apply(site, e), p, allocations, members)
  {
    match e
    case Deliver(d) => DeliveryKeepsRows(site, d);
    case Stop(q) => StopIs(site, q);
    case Resume(q) => ResumeIs(site, q);
  }

  lemma {:induction false} RunKeepsIdle(site: Site, events: seq<Event>, p: Id, allocations: set<nat>, members: set<nat>)
    requires Idle(site, p, allocations, members)
    requires forall i :: 0 <= i < |events| ==> events[i] != Resume(p)
    ensures Idle(Play(site, events), p, allocations, members)
    decreases |events|
  {
    if events != [] {
      EventKeepsIdle(site, events[0], p, allocations, members);
      RunKeepsIdle(Apply(site, events[0]), events[1..], p, allocations, members);
    }
  }

  /**
  A stopped project stays stopped until it is resumed: whatever is delivered, stopped or resumed
  elsewhere, the project, the allocations it had and their listed memberships are INACTIVE.
   */
  lemma {:induction false} StoppedUntilResumed(site: Site, p: Id, events: seq<Event>)
    requires p < |site.books.projects|
    requires forall i :: 0 <= i < |events| ==> events[i] != Resume(p)
    ensures Idle(Play(Inactivate(site, p), events), p,
                 set a: nat | a < |site.books.allocations| && site.books.allocations[a].project == p,
                 set m: nat | m < |site.members| && Listed(site, site.members[m], p))
  {
    StopIs(site, p);
    RunKeepsIdle(Inactivate(site, p), events, p,
                 set a: nat | a < |site.books.allocations| && site.books.allocations[a].project == p,
                 set m: nat | m < |site.members| && Listed(site, site.members[m], p));
  }
}
