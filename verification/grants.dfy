/**
Projects, allocations, memberships and allocation diffs under the AMIE packets
request_project_create, request_project_inactivate and request_project_reactivate
(connectors/ACCESS/AMIE-Processor/handler). Row ids are positions in the tables, so that a
new row always gets a new id.
 */
module Grants {
  import opened Common
  import opened PosixNames
  import opened Text

  type UserId = string
  type Id = nat

  datatype Status = Active | Inactive | Deleted
  datatype Project = Project(originated: string, pi: UserId, status: Status)
  datatype Allocation = Allocation(project: Id, initialSU: int, status: Status)
  datatype Membership = Membership(allocation: Id, user: UserId, status: Status)
  datatype Diff = Diff(allocation: Id, kind: string, su: int, status: Status)

  const STATUS_CHANGE := "ALLOCATION_STATUS_CHANGE"
  const NONE := -1

  /** The rows that make up the service-unit ledger. */
  datatype Books = Books(projects: seq<Project>, allocations: seq<Allocation>, diffs: seq<Diff>)

  /**
  `accounts` holds the local name of each user with an account on the site's cluster, `catalog` the resources
  registered there, `mappings` the resources of each allocation, and `piRows` holds the PI row of
  each project that has one in project_memberships.
   */
  datatype Site = Site(
    users: set<UserId>,
    accounts: map<UserId, string>,
    books: Books,
    catalog: set<string>,
    mappings: set<(Id, string)>,
    members: seq<Membership>,
    piRows: map<Id, UserId>)

  // ---------- request_project_create ----------

  /** Where a delivery breaks off for reasons outside these tables; everything earlier has committed. */
  datatype Stage = AtUser | AtIdentity | AtProject | AtAllocation | AtResource(attached: nat) | AtMembership | AtReply | Nowhere

  /**
  One delivery of a grant. `pi` is the user its PiGlobalID resolves to, perhaps a new one; `base`
  is the user name built from that user's, if one can be; `su` and `datesOk` say what its
  ServiceUnitsAllocated and dates parse to.
   */
  datatype Delivery = Delivery(
    grant: string, pi: UserId, base: Option<string>, su: Option<int>, datesOk: bool, kind: string,
    resources: seq<string>, fails: Stage)

  /** What a delivery leaves: whether its service units were written, and whether it ran to the end. */
  datatype Result = Result(site: Site, recorded: bool, completed: bool)

  ghost function ProjectOf(projects: seq<Project>, grant: string): (p: int)
    ensures NONE <= p < |projects|
    ensures p != NONE ==> projects[p].originated == grant
  {
    if p :| 0 <= p < |projects| && projects[p].originated == grant then p else NONE
  }

  ghost function AllocationOf(allocations: seq<Allocation>, project: int): (a: int)
    ensures NONE <= a < |allocations|
    ensures a != NONE ==> allocations[a].project == project
  {
    if a :| 0 <= a < |allocations| && allocations[a].project == project then a else NONE
  }

  predicate IsMember(site: Site, allocation: int, user: UserId) {
    exists m :: 0 <= m < |site.members| && site.members[m].allocation == allocation && site.members[m].user == user
  }

  ghost function EnsureProject(b: Books, d: Delivery): Books {
    if ProjectOf(b.projects, d.grant) != NONE then b
    else b.(projects := b.projects + [Project(d.grant, d.pi, Active)])
  }

  /** Writes the units: as the initial amount of a new allocation, or as a diff of the existing one. */
  ghost function EnsureAllocation(b: Books, p: int, d: Delivery): Option<Books> {
    var a := AllocationOf(b.allocations, p);
    if p == NONE || d.su.None? then None
    else if a != NONE then Some(b.(diffs := b.diffs + [Diff(a, d.kind, d.su.value, Active)]))
    else if p < 0 || !d.datesOk then None
    else Some(b.(allocations := b.allocations + [Allocation(p, d.su.value, Active)]))
  }

  function EnsurePIMembership(site: Site, a: nat, pi: UserId): Site {
    if IsMember(site, a, pi) then site else site.(members := site.members + [Membership(a, pi, Active)])
  }

  /** The first candidate from the k-th on that is not taken. */
  function PickName(taken: set<string>, base: string, k: nat): Option<string>
    decreases MAX_COLLISION_SUFFIX - k
  {
    if k >= MAX_COLLISION_SUFFIX then None
    else if Candidate(base, k) !in taken then Some(Candidate(base, k))
    else PickName(taken, base, k + 1)
  }

  /** The accounts with one for the PI; none if no name can be found. */
  function EnsureAccount(accounts: map<UserId, string>, pi: UserId, base: Option<string>): Option<map<UserId, string>> {
    if pi in accounts then Some(accounts)
    else if base.None? then None
    else
      var name := PickName(accounts.Values, base.value, 0);
      if name.None? then None else Some(accounts[pi := name.value])
  }

  /** Maps each named resource of the catalog to the allocation; unregistered names are skipped. */
  function Attach(site: Site, a: nat, names: seq<string>): Site {
    if names == [] then site
    else
      var before := Attach(site, a, names[..|names| - 1]);
      var name := names[|names| - 1];
      if name in site.catalog then before.(mappings := before.mappings + {(a, name)}) else before
  }

  ghost function Create(site: Site, d: Delivery): Result {
    if IsBlank(d.grant) || d.fails == AtUser then Result(site, false, false)
    else
      var s1 := site.(users := site.users + {d.pi});
      var accounts := EnsureAccount(site.accounts, d.pi, d.base);
      if d.fails == AtIdentity || accounts.None? then Result(s1, false, false)
      else
        var s2 := s1.(accounts := accounts.value);
        if d.fails == AtProject then Result(s2, false, false)
        else
          var named := EnsureProject(site.books, d);
          var s3 := s2.(books := named);
          var p := ProjectOf(named.projects, d.grant);
          var written := EnsureAllocation(named, p, d);
          if d.fails == AtAllocation || written.None? then Result(s3, false, false)
          else Finish(s3.(books := written.value), p, d)
  }

  /** The stages after the units are written. */
  ghost function Finish(site: Site, p: int, d: Delivery): Result {
    var a := AllocationOf(site.books.allocations, p);
    if p < 0 || a < 0 then Result(site, true, false)
    else if d.fails.AtResource? && d.fails.attached <= |d.resources| then
      Result(Attach(site, a, d.resources[..d.fails.attached]), true, false)
    else
      var s1 := EnsurePIMembership(Attach(site, a, d.resources), a, d.pi);
      if d.fails == AtMembership || HasOtherPI(site, p, d.pi) then Result(s1, true, false)
      else Result(s1.(piRows := s1.piRows[p := d.pi]), true, d.fails == Nowhere || d.fails.AtResource?)
  }

  predicate HasOtherPI(site: Site, p: int, pi: UserId) {
    p in site.piRows && site.piRows[p] != pi
  }

  // ---------- request_project_inactivate, request_project_reactivate ----------

  predicate UnderProject(site: Site, m: Membership, p: Id) {
    m.allocation < |site.books.allocations| && site.books.allocations[m.allocation].project == p
  }

  /** Listing the members of an allocation joins users, so a row whose user is gone is not listed. */
  predicate Listed(site: Site, m: Membership, p: Id) {
    UnderProject(site, m, p) && m.user in site.users
  }

  function WithMembers(members: seq<Membership>, chosen: Membership -> bool, status: Status): seq<Membership> {
    seq(|members|, i requires 0 <= i < |members| =>
      if chosen(members[i]) then members[i].(status := status) else members[i])
  }

  function WithAllocations(allocations: seq<Allocation>, p: Id, status: Status): seq<Allocation> {
    seq(|allocations|, i requires 0 <= i < |allocations| =>
      if allocations[i].project == p then allocations[i].(status := status) else allocations[i])
  }

  /** The status diffs of the project's allocations among the first n. */
  function StatusDiffs(allocations: seq<Allocation>, p: Id, n: nat, status: Status): seq<Diff>
    requires n <= |allocations|
  {
    if n == 0 then []
    else
      var before := StatusDiffs(allocations, p, n - 1, status);
      if allocations[n - 1].project == p then before + [Diff(n - 1, STATUS_CHANGE, 0, status)] else before
  }

  function FlipBooks(b: Books, p: Id, status: Status): Books
    requires p < |b.projects|
  {
    Books(b.projects[p := b.projects[p].(status := status)],
          WithAllocations(b.allocations, p, status),
          b.diffs + StatusDiffs(b.allocations, p, |b.allocations|, status))
  }

  /** An unknown project is skipped. */
  function Inactivate(site: Site, p: Id): Site {
    if p >= |site.books.projects| then site
    else site.(books := FlipBooks(site.books, p, Inactive),
               members := WithMembers(site.members, m => Listed(site, m, p), Inactive))
  }

  function Reactivate(site: Site, p: Id): Site {
    if p >= |site.books.projects| then site
    else
      var pi := site.books.projects[p].pi;
      site.(books := FlipBooks(site.books, p, Active),
            members := WithMembers(site.members, m => pi != "" && Listed(site, m, p) && m.user == pi, Active))
  }

  // ---------- Runs ----------

  datatype Event = Deliver(delivery: Delivery) | Stop(project: Id) | Resume(project: Id)

  ghost function Apply(site: Site, e: Event): Site {
    match e
    case Deliver(d) => Create(site, d).site
    case Stop(p) => Inactivate(site, p)
    case Resume(p) => Reactivate(site, p)
  }

  ghost function Play(site: Site, events: seq<Event>): Site
    decreases |events|
  {
    if events == [] then site else Play(Apply(site, events[0]), events[1..])
  }

  // ---------- What every event keeps ----------

  ghost predicate UniqueGrants(projects: seq<Project>) {
    forall i, j :: 0 <= i < j < |projects| ==> projects[i].originated != projects[j].originated
  }

  ghost predicate OneAllocationEach(allocations: seq<Allocation>) {
    forall i, j :: 0 <= i < j < |allocations| ==> allocations[i].project != allocations[j].project
  }

  /** One project per grant, one allocation per project, and rows that refer to rows that exist. */
  ghost predicate Tidy(b: Books) {
    && UniqueGrants(b.projects)
    && OneAllocationEach(b.allocations)
    && (forall a :: 0 <= a < |b.allocations| ==> b.allocations[a].project < |b.projects|)
    && (forall i :: 0 <= i < |b.diffs| ==> b.diffs[i].allocation < |b.allocations|)
  }

  lemma {:induction false} StatusDiffsRefer(allocations: seq<Allocation>, p: Id, n: nat, status: Status)
    requires n <= |allocations|
    ensures forall i :: 0 <= i < |StatusDiffs(allocations, p, n, status)| ==>
      StatusDiffs(allocations, p, n, status)[i].allocation < n
  {
    if n > 0 { StatusDiffsRefer(allocations, p, n - 1, status); }
  }

  lemma FlipKeepsTidy(b: Books, p: Id, status: Status)
    requires Tidy(b) && p < |b.projects|
    ensures Tidy(FlipBooks(b, p, status))
  {
    StatusDiffsRefer(b.allocations, p, |b.allocations|, status);
  }

  // ---------- The ledger ----------

  function SumDiffs(diffs: seq<Diff>, a: int): int {
    if diffs == [] then 0
    else
      var last := diffs[|diffs| - 1];
      SumDiffs(diffs[..|diffs| - 1], a) + if last.allocation == a then last.su else 0
  }

  /** The effective service units of a grant: the initial amount plus its diffs; 0 before there is an allocation. */
  ghost function Ledger(b: Books, grant: string): int {
    var p := ProjectOf(b.projects, grant);
    var a := AllocationOf(b.allocations, p);
    if p == NONE || a == NONE then 0 else b.allocations[a].initialSU + SumDiffs(b.diffs, a)
  }

  lemma {:induction false} NoDiffsYet(diffs: seq<Diff>, a: nat)
    requires forall i :: 0 <= i < |diffs| ==> diffs[i].allocation < a
    ensures SumDiffs(diffs, a) == 0
  {
    if diffs != [] { NoDiffsYet(diffs[..|diffs| - 1], a); }
  }

  lemma OneMoreDiff(diffs: seq<Diff>, d: Diff, a: int)
    ensures SumDiffs(diffs + [d], a) == SumDiffs(diffs, a) + if d.allocation == a then d.su else 0
  {
  }

  lemma {:induction false} SumDiffsAppend(xs: seq<Diff>, ys: seq<Diff>, a: int)
    ensures SumDiffs(xs + ys, a) == SumDiffs(xs, a) + SumDiffs(ys, a)
  {
    if ys == [] {
      assert xs + ys == xs;
    } else {
      var last := ys[|ys| - 1];
      SumDiffsAppend(xs, ys[..|ys| - 1], a);
      assert xs + ys == (xs + ys[..|ys| - 1]) + [last];
      OneMoreDiff(xs + ys[..|ys| - 1], last, a);
    }
  }

  lemma {:induction false} StatusDiffsAddNothing(allocations: seq<Allocation>, p: Id, n: nat, status: Status, a: int)
    requires n <= |allocations|
    ensures SumDiffs(StatusDiffs(allocations, p, n, status), a) == 0
  {
    if n > 0 {
      StatusDiffsAddNothing(allocations, p, n - 1, status, a);
      if allocations[n - 1].project == p {
        OneMoreDiff(StatusDiffs(allocations, p, n - 1, status), Diff(n - 1, STATUS_CHANGE, 0, status), a);
      }
    }
  }

  lemma EnsureProjectStep(b: Books, d: Delivery, grant: string)
    requires Tidy(b)
    ensures var after := EnsureProject(b, d);
      Tidy(after) && Ledger(after, grant) == Ledger(b, grant) && ProjectOf(after.projects, d.grant) != NONE
  {
    var after := EnsureProject(b, d);
    if after != b {
      assert after.projects[|b.projects|].originated == d.grant;
      var p := ProjectOf(b.projects, grant);
      if p != NONE { assert after.projects[p].originated == grant; }
    }
  }

  lemma NewAllocationStep(b: Books, p: nat, su: int, grant: string)
    requires Tidy(b) && p < |b.projects| && AllocationOf(b.allocations, p) == NONE
    ensures var after := b.(allocations := b.allocations + [Allocation(p, su, Active)]);
      && Tidy(after)
      && Ledger(after, grant) == Ledger(b, grant) + if grant == b.projects[p].originated then su else 0
  {
    var after := b.(allocations := b.allocations + [Allocation(p, su, Active)]);
    var a := |b.allocations|;
    assert after.allocations[a].project == p;
    NoDiffsYet(b.diffs, a);
    var q := ProjectOf(b.projects, grant);
    var c := AllocationOf(b.allocations, q);
    if c != NONE { assert after.allocations[c].project == q; }
    assert ProjectOf(b.projects, b.projects[p].originated) == p;
  }

  lemma NewDiffStep(b: Books, d: Diff, grant: string)
    requires Tidy(b) && d.allocation < |b.allocations|
    ensures var after := b.(diffs := b.diffs + [d]);
      && Tidy(after)
      && Ledger(after, grant) == Ledger(b, grant)
           + if grant == b.projects[b.allocations[d.allocation].project].originated then d.su else 0
  {
  }

  lemma EnsureAllocationStep(b: Books, p: int, d: Delivery, grant: string)
    requires Tidy(b) && p == ProjectOf(b.projects, d.grant) && EnsureAllocation(b, p, d).Some?
    ensures var after := EnsureAllocation(b, p, d).value;
      && Tidy(after)
      && Ledger(after, grant) == Ledger(b, grant) + if grant == d.grant then d.su.value else 0
  {
    var a := AllocationOf(b.allocations, p);
    if a != NONE {
      NewDiffStep(b, Diff(a, d.kind, d.su.value, Active), grant);
    } else {
      NewAllocationStep(b, p, d.su.value, grant);
    }
  }

  lemma FlipStep(b: Books, p: Id, status: Status, grant: string)
    requires Tidy(b) && p < |b.projects|
    ensures Ledger(FlipBooks(b, p, status), grant) == Ledger(b, grant)
  {
    var after := FlipBooks(b, p, status);
    var q := ProjectOf(b.projects, grant);
    if q != NONE { assert after.projects[q].originated == grant; }
    var a := AllocationOf(b.allocations, q);
    if a != NONE { assert after.allocations[a].project == q; }
    StatusDiffsAddNothing(b.allocations, p, |b.allocations|, status, a);
    SumDiffsAppend(b.diffs, StatusDiffs(b.allocations, p, |b.allocations|, status), a);
  }

  lemma {:induction false} AttachMaps(site: Site, a: nat, names: seq<string>)
    ensures Attach(site, a, names) == site.(mappings := Attach(site, a, names).mappings)
    ensures forall b: nat, n :: (b, n) in Attach(site, a, names).mappings <==>
      (b, n) in site.mappings || (b == a && n in names && n in site.catalog)
  {
    if names != [] {
      AttachMaps(site, a, names[..|names| - 1]);
      assert names == names[..|names| - 1] + [names[|names| - 1]];
    }
  }

  lemma FinishKeepsBooks(site: Site, p: int, d: Delivery)
    ensures var r := Finish(site, p, d);
      && r.site.books == site.books && r.recorded
      && forall q :: q in r.site.piRows ==> q in site.piRows || q == p
  {
    var a := AllocationOf(site.books.allocations, p);
    if a >= 0 {
      AttachMaps(site, a, d.resources);
      if d.fails.AtResource? && d.fails.attached <= |d.resources| { AttachMaps(site, a, d.resources[..d.fails.attached]); }
    }
  }

  /** Nothing after the units are written touches the books. */
  lemma CreateWrites(site: Site, d: Delivery)
    ensures var r := Create(site, d);
      var named := EnsureProject(site.books, d);
      var written := EnsureAllocation(named, ProjectOf(named.projects, d.grant), d);
      && (r.completed ==> r.recorded)
      && (r.recorded ==> written.Some? && r.site.books == written.value)
      && (!r.recorded ==> r.site.books == site.books || r.site.books == named)
      && (forall q :: q in r.site.piRows ==> q in site.piRows || (r.recorded && q == ProjectOf(named.projects, d.grant)))
  {
    var named := EnsureProject(site.books, d);
    var p := ProjectOf(named.projects, d.grant);
    var written := EnsureAllocation(named, p, d);
    var accounts := EnsureAccount(site.accounts, d.pi, d.base);
    if written.Some? && accounts.Some? {
      FinishKeepsBooks(site.(users := site.users + {d.pi}, accounts := accounts.value, books := written.value), p, d);
    }
  }

  lemma CreateStep(site: Site, d: Delivery, grant: string)
    requires Tidy(site.books)
    ensures var r := Create(site, d);
      && Tidy(r.site.books)
      && (r.recorded ==> d.su.Some?)
      && Ledger(r.site.books, grant) == Ledger(site.books, grant) + if r.recorded && grant == d.grant then d.su.value else 0
  {
    CreateWrites(site, d);
    EnsureProjectStep(site.books, d, grant);
    var named := EnsureProject(site.books, d);
    var p := ProjectOf(named.projects, d.grant);
    if Create(site, d).recorded { EnsureAllocationStep(named, p, d, grant); }
  }

  lemma EventKeepsTidy(site: Site, e: Event)
    requires Tidy(site.books)
    ensures Tidy(Apply(site, e).books)
  {
    match e
    case Deliver(d) => CreateStep(site, d, d.grant);
    case Stop(p) => if p < |site.books.projects| { FlipKeepsTidy(site.books, p, Inactive); }
    case Resume(p) => if p < |site.books.projects| { FlipKeepsTidy(site.books, p, Active); }
  }

  // ---------- Whole runs ----------

  /** Service units a single event writes for the grant. */
  ghost function Recorded(site: Site, e: Event, grant: string): int {
    if e.Deliver? && e.delivery.grant == grant && e.delivery.su.Some? && Create(site, e.delivery).recorded
    then e.delivery.su.value else 0
  }

  ghost predicate Aborts(site: Site, e: Event) {
    e.Deliver? && Create(site, e.delivery).recorded && !Create(site, e.delivery).completed
  }

  /** Units written by deliveries that went on to complete (or, with aborted set, that did not). */
  ghost function RunSum(site: Site, events: seq<Event>, grant: string, aborted: bool): int
    decreases |events|
  {
    if events == [] then 0
    else (if Aborts(site, events[0]) == aborted then Recorded(site, events[0], grant) else 0)
         + RunSum(Apply(site, events[0]), events[1..], grant, aborted)
  }

  lemma EventMovesLedger(site: Site, e: Event, grant: string)
    requires Tidy(site.books)
    ensures Ledger(Apply(site, e).books, grant) == Ledger(site.books, grant) + Recorded(site, e, grant)
  {
    match e
    case Deliver(d) => CreateStep(site, d, grant);
    case Stop(p) => if p < |site.books.projects| { FlipStep(site.books, p, Inactive, grant); }
    case Resume(p) => if p < |site.books.projects| { FlipStep(site.books, p, Active, grant); }
  }

  /**
  Over every run, the ledger grows by what the completed deliveries granted, plus what was
  written by deliveries that then failed.
   */
  lemma {:induction false} LedgerOverRun(site: Site, events: seq<Event>, grant: string)
    requires Tidy(site.books)
    ensures Tidy(Play(site, events).books)
    ensures Ledger(Play(site, events).books, grant) ==
      Ledger(site.books, grant) + RunSum(site, events, grant, false) + RunSum(site, events, grant, true)
    decreases |events|
  {
    if events != [] {
      EventKeepsTidy(site, events[0]);
      EventMovesLedger(site, events[0], grant);
      LedgerOverRun(Apply(site, events[0]), events[1..], grant);
    }
  }

  ghost predicate AllComplete(site: Site, events: seq<Event>)
    decreases |events|
  {
    events != [] ==>
      && (events[0].Deliver? ==> Create(site, events[0].delivery).completed)
      && AllComplete(Apply(site, events[0]), events[1..])
  }

  /** ServiceUnitsAllocated summed over the grant's deliveries, from the packets alone. */
  function Granted(events: seq<Event>, grant: string): int {
    if events == [] then 0
    else
      var e := events[0];
      (if e.Deliver? && e.delivery.grant == grant && e.delivery.su.Some? then e.delivery.su.value else 0)
      + Granted(events[1..], grant)
  }

  /** When every delivery completes, the ledger is exactly what the packets granted. */
  lemma {:induction false} LedgerIsGranted(site: Site, events: seq<Event>, grant: string)
    requires Tidy(site.books) && AllComplete(site, events)
    ensures Ledger(Play(site, events).books, grant) == Ledger(site.books, grant) + Granted(events, grant)
    decreases |events|
  {
    if events != [] {
      var e := events[0];
      if e.Deliver? { CreateWrites(site, e.delivery); }
      EventKeepsTidy(site, e);
      EventMovesLedger(site, e, grant);
      LedgerIsGranted(Apply(site, e), events[1..], grant);
    }
  }

  /** The PI rows belong to existing projects. */
  ghost predicate PIRowsRefer(site: Site) {
    forall p :: p in site.piRows ==> p < |site.books.projects|
  }

  lemma {:induction false} RunKeepsPIRows(site: Site, events: seq<Event>)
    requires PIRowsRefer(site)
    ensures PIRowsRefer(Play(site, events))
    decreases |events|
  {
    if events != [] {
      EventExtends(site, events[0]);
      if events[0].Deliver? { CreateWrites(site, events[0].delivery); }
      RunKeepsPIRows(Apply(site, events[0]), events[1..]);
    }
  }

  /** The PI has an account, or has a name some candidate of which is free. */
  ghost predicate CanHaveAccount(site: Site, d: Delivery) {
    || d.pi in site.accounts
    || (d.base.Some? && exists k: nat :: k < MAX_COLLISION_SUFFIX && Candidate(d.base.value, k) !in site.accounts.Values)
  }

  /** From the k-th candidate on, the m-th is the first that is not taken. */
  ghost predicate IsFirstFree(taken: set<string>, base: string, k: nat, m: nat) {
    && k <= m < MAX_COLLISION_SUFFIX && Candidate(base, m) !in taken
    && forall j: nat :: k <= j < m ==> Candidate(base, j) in taken
  }

  lemma {:induction false} PickNameIs(taken: set<string>, base: string, k: nat)
    ensures var name := PickName(taken, base, k);
      && (name.Some? <==> exists j: nat :: k <= j < MAX_COLLISION_SUFFIX && Candidate(base, j) !in taken)
      && (name.Some? ==> name.value !in taken)
      && (name.Some? ==> exists m: nat :: IsFirstFree(taken, base, k, m) && name.value == Candidate(base, m))
    decreases MAX_COLLISION_SUFFIX - k
  {
    if k < MAX_COLLISION_SUFFIX {
      if Candidate(base, k) in taken {
        var next := k + 1;
        PickNameIs(taken, base, next);
        if m: nat :| IsFirstFree(taken, base, next, m) && PickName(taken, base, next) == Some(Candidate(base, m)) {
          assert IsFirstFree(taken, base, k, m);
        }
      } else {
        assert IsFirstFree(taken, base, k, k);
      }
    }
  }

  lemma AccountIff(site: Site, d: Delivery)
    ensures EnsureAccount(site.accounts, d.pi, d.base).Some? <==> CanHaveAccount(site, d)
  {
    if d.base.Some? { PickNameIs(site.accounts.Values, d.base.value, 0); }
  }

  /** The delivery breaks off at a stage after the write. */
  predicate BreaksLate(d: Delivery) {
    d.fails == AtMembership || d.fails == AtReply || (d.fails.AtResource? && d.fails.attached <= |d.resources|)
  }

  predicate BreaksEarly(d: Delivery) {
    d.fails == AtUser || d.fails == AtIdentity || d.fails == AtProject || d.fails == AtAllocation
  }

  /**
  What makes a delivery fail after writing: the write goes through, and then either one of the
  later stages breaks or the project already has a different PI.
   */
  ghost predicate FailsAfterWriting(site: Site, d: Delivery) {
    var p := ProjectOf(site.books.projects, d.grant);
    && !IsBlank(d.grant) && CanHaveAccount(site, d)
    && d.su.Some?
    && (d.datesOk || (p != NONE && AllocationOf(site.books.allocations, p) != NONE))
    && !BreaksEarly(d)
    && (BreaksLate(d) || HasOtherPI(site, p, d.pi))
  }

  lemma AbortsIff(site: Site, d: Delivery)
    requires Tidy(site.books) && PIRowsRefer(site)
    ensures Aborts(site, Deliver(d)) <==> FailsAfterWriting(site, d)
  {
    var b := site.books;
    var named := EnsureProject(b, d);
    var p := ProjectOf(named.projects, d.grant);
    EnsureProjectStep(b, d, d.grant);
    if named != b { NewProjectIsLast(b, d); }
    var written := EnsureAllocation(named, p, d);
    if written.Some? { EnsureAllocationFinds(named, p, d); }
    AccountIff(site, d);
  }

  /** It writes units, not 0, and then fails. */
  ghost predicate LosesUnits(site: Site, d: Delivery) {
    FailsAfterWriting(site, d) && d.su.value != 0
  }

  /** A delivery moves the ledger by what it granted if completed, else not at all, exactly when it loses no units. */
  lemma DeliveryIsLedgeredIff(site: Site, d: Delivery)
    requires Tidy(site.books) && PIRowsRefer(site)
    ensures var r := Create(site, d);
      var granted := if r.completed && d.su.Some? then d.su.value else 0;
      Ledger(r.site.books, d.grant) == Ledger(site.books, d.grant) + granted <==> !LosesUnits(site, d)
  {
    CreateStep(site, d, d.grant);
    CreateWrites(site, d);
    AbortsIff(site, d);
  }

  /** No delivery for the grant loses units in the state where it arrives. */
  ghost predicate NothingLost(site: Site, events: seq<Event>, grant: string)
    decreases |events|
  {
    events != [] ==>
      && !(events[0].Deliver? && events[0].delivery.grant == grant && LosesUnits(site, events[0].delivery))
      && NothingLost(Apply(site, events[0]), events[1..], grant)
  }

  lemma EventLoses(site: Site, e: Event, grant: string)
    requires Tidy(site.books) && PIRowsRefer(site)
    ensures var lost := if Aborts(site, e) then Recorded(site, e, grant) else 0;
      && (lost != 0 <==> e.Deliver? && e.delivery.grant == grant && LosesUnits(site, e.delivery))
      && (lost != 0 ==> lost == e.delivery.su.value)
  {
    if e.Deliver? { AbortsIff(site, e.delivery); }
  }

  ghost predicate NoNegativeAmounts(events: seq<Event>) {
    forall i :: 0 <= i < |events| && events[i].Deliver? && events[i].delivery.su.Some? ==> events[i].delivery.su.value >= 0
  }

  lemma {:induction false} NothingLostSum(site: Site, events: seq<Event>, grant: string)
    requires Tidy(site.books) && PIRowsRefer(site)
    ensures NothingLost(site, events, grant) ==> RunSum(site, events, grant, true) == 0
    ensures NoNegativeAmounts(events) ==> RunSum(site, events, grant, true) >= 0
    ensures NoNegativeAmounts(events) && RunSum(site, events, grant, true) == 0 ==> NothingLost(site, events, grant)
    decreases |events|
  {
    if events != [] {
      EventKeepsTidy(site, events[0]);
      assert PIRowsRefer(Apply(site, events[0])) by {
        assert Play(site, [events[0]]) == Play(Apply(site, events[0]), []);
        RunKeepsPIRows(site, [events[0]]);
      }
      EventLoses(site, events[0], grant);
      NothingLostSum(Apply(site, events[0]), events[1..], grant);
    }
  }

  /** If no delivery loses units where it arrives, the ledger is the sum over the completed ones. */
  lemma LedgerIsCompletedSum(site: Site, events: seq<Event>, grant: string)
    requires Tidy(site.books) && PIRowsRefer(site) && NothingLost(site, events, grant)
    ensures Ledger(Play(site, events).books, grant) == Ledger(site.books, grant) + RunSum(site, events, grant, false)
  {
    LedgerOverRun(site, events, grant);
    NothingLostSum(site, events, grant);
  }

  /** And only then, as long as no packet carries a negative amount that could make up for it. */
  lemma LedgerIsCompletedSumOnlyIf(site: Site, events: seq<Event>, grant: string)
    requires Tidy(site.books) && PIRowsRefer(site)
    requires NoNegativeAmounts(events)
    requires Ledger(Play(site, events).books, grant) == Ledger(site.books, grant) + RunSum(site, events, grant, false)
    ensures NothingLost(site, events, grant)
  {
    LedgerOverRun(site, events, grant);
    NothingLostSum(site, events, grant);
  }

  lemma NewProjectIsLast(b: Books, d: Delivery)
    requires Tidy(b) && EnsureProject(b, d) != b
    ensures ProjectOf(EnsureProject(b, d).projects, d.grant) == |b.projects|
    ensures AllocationOf(b.allocations, |b.projects|) == NONE
  {
    assert EnsureProject(b, d).projects[|b.projects|].originated == d.grant;
  }

  lemma EnsureAllocationFinds(b: Books, p: int, d: Delivery)
    requires EnsureAllocation(b, p, d).Some?
    ensures AllocationOf(EnsureAllocation(b, p, d).value.allocations, p) != NONE
  {
    var after := EnsureAllocation(b, p, d).value;
    if AllocationOf(b.allocations, p) == NONE {
      assert after.allocations[|b.allocations|].project == p;
    }
  }

  // ---------- Accounts ----------

  /** No two users share a local name. */
  ghost predicate OneOwnerEach(accounts: map<UserId, string>) {
    forall u, v :: u in accounts && v in accounts && accounts[u] == accounts[v] ==> u == v
  }

  lemma EnsureAccountKeepsOwners(accounts: map<UserId, string>, pi: UserId, base: Option<string>)
    requires OneOwnerEach(accounts) && EnsureAccount(accounts, pi, base).Some?
    ensures var after := EnsureAccount(accounts, pi, base).value;
      && OneOwnerEach(after) && pi in after
      && forall u :: u in accounts ==> u in after && after[u] == accounts[u]
  {
    if pi !in accounts { PickNameIs(accounts.Values, base.value, 0); }
  }

  lemma CreateAccounts(site: Site, d: Delivery)
    ensures var after := Create(site, d).site.accounts;
      after == site.accounts || Some(after) == EnsureAccount(site.accounts, d.pi, d.base)
  {
    var named := EnsureProject(site.books, d);
    var p := ProjectOf(named.projects, d.grant);
    var written := EnsureAllocation(named, p, d);
    var accounts := EnsureAccount(site.accounts, d.pi, d.base);
    if written.Some? && accounts.Some? {
      var ready := site.(users := site.users + {d.pi}, accounts := accounts.value, books := written.value);
      var a := AllocationOf(written.value.allocations, p);
      if a >= 0 {
        AttachMaps(ready, a, d.resources);
        if d.fails.AtResource? && d.fails.attached <= |d.resources| { AttachMaps(ready, a, d.resources[..d.fails.attached]); }
      }
    }
  }

  /** Every run keeps local names unique, and nobody's account ever changes. */
  lemma {:induction false} RunKeepsAccounts(site: Site, events: seq<Event>)
    requires OneOwnerEach(site.accounts)
    ensures OneOwnerEach(Play(site, events).accounts)
    ensures forall u :: u in site.accounts ==>
      u in Play(site, events).accounts && Play(site, events).accounts[u] == site.accounts[u]
    decreases |events|
  {
    if events != [] {
      var next := Apply(site, events[0]);
      if events[0].Deliver? {
        var d := events[0].delivery;
        CreateAccounts(site, d);
        if next.accounts != site.accounts { EnsureAccountKeepsOwners(site.accounts, d.pi, d.base); }
      }
      RunKeepsAccounts(next, events[1..]);
    }
  }

  // ---------- What a completed delivery leaves ----------

  /**
  A completed delivery leaves its PI with a user row, an account, a membership and the PI row,
  and its allocation with exactly the listed resources of the catalog besides those it had.
   */
  lemma CompletedDeliveryLeaves(site: Site, d: Delivery)
    requires Tidy(site.books) && Create(site, d).completed
    ensures var after := Create(site, d).site;
      var p := ProjectOf(after.books.projects, d.grant);
      var a := AllocationOf(after.books.allocations, p);
      && p != NONE && a != NONE
      && d.pi in after.users && d.pi in after.accounts && IsMember(after, a, d.pi)
      && p in after.piRows && after.piRows[p] == d.pi
      && forall b: nat, n :: (b, n) in after.mappings <==>
           (b, n) in site.mappings || (b == a && n in d.resources && n in site.catalog)
  {
    var named := EnsureProject(site.books, d);
    var p := ProjectOf(named.projects, d.grant);
    var written := EnsureAllocation(named, p, d).value;
    EnsureAllocationFinds(named, p, d);
    var accounts := EnsureAccount(site.accounts, d.pi, d.base).value;
    var ready := site.(users := site.users + {d.pi}, accounts := accounts, books := written);
    var a := AllocationOf(written.allocations, p);
    AttachMaps(ready, a, d.resources);
    var attached := Attach(ready, a, d.resources);
    var s1 := EnsurePIMembership(attached, a, d.pi);
    if !IsMember(attached, a, d.pi) { assert s1.members[|attached.members|] == Membership(a, d.pi, Active); }
  }

  // ---------- Rows stay ----------

  /** Later books keep every row: its grant, its project, its initial amount; diffs are only appended. */
  ghost predicate Extends(b: Books, c: Books) {
    && |b.projects| <= |c.projects| && |b.allocations| <= |c.allocations| && b.diffs <= c.diffs
    && (forall i :: 0 <= i < |b.projects| ==>
          c.projects[i].originated == b.projects[i].originated && c.projects[i].pi == b.projects[i].pi)
    && (forall a :: 0 <= a < |b.allocations| ==>
          c.allocations[a].project == b.allocations[a].project && c.allocations[a].initialSU == b.allocations[a].initialSU)
  }

  lemma EventExtends(site: Site, e: Event)
    ensures Extends(site.books, Apply(site, e).books)
  {
    if e.Deliver? { CreateWrites(site, e.delivery); }
  }

  /** No run changes an allocation's initial amount, or moves a project to another grant. */
  lemma {:induction false} RunExtends(site: Site, events: seq<Event>)
    ensures Extends(site.books, Play(site, events).books)
    decreases |events|
  {
    if events != [] {
      EventExtends(site, events[0]);
      RunExtends(Apply(site, events[0]), events[1..]);
    }
  }

  /** The grant has exactly one project, and that project exactly one allocation. */
  ghost predicate ExactlyOne(b: Books, grant: string) {
    exists p: nat, a: nat :: IsOnly(b, grant, p, a)
  }

  ghost predicate IsOnly(b: Books, grant: string, p: nat, a: nat) {
    && p < |b.projects| && a < |b.allocations|
    && (forall i :: 0 <= i < |b.projects| ==> (b.projects[i].originated == grant <==> i == p))
    && (forall i :: 0 <= i < |b.allocations| ==> (b.allocations[i].project == p <==> i == a))
  }

  /** Once units were written for a grant, every later state has exactly one project and one allocation for it. */
  lemma RecordedGrantHasOne(site: Site, d: Delivery, events: seq<Event>)
    requires Tidy(site.books) && Create(site, d).recorded
    ensures ExactlyOne(Play(Create(site, d).site, events).books, d.grant)
  {
    var after := Create(site, d).site;
    CreateWrites(site, d);
    var named := EnsureProject(site.books, d);
    var p := ProjectOf(named.projects, d.grant);
    EnsureAllocationFinds(named, p, d);
    var a := AllocationOf(after.books.allocations, p);
    CreateStep(site, d, d.grant);
    LedgerOverRun(after, events, d.grant);
    RunExtends(after, events);
    assert IsOnly(Play(after, events).books, d.grant, p, a);
  }

  /** A delivery that fails after writing has moved the ledger all the same, and will again on each retry. */
  lemma FailureMovesLedger(site: Site, d: Delivery)
    requires Tidy(site.books) && PIRowsRefer(site) && FailsAfterWriting(site, d)
    ensures Aborts(site, Deliver(d))
    ensures Ledger(Apply(site, Deliver(d)).books, d.grant) == Ledger(site.books, d.grant) + d.su.value
  {
    AbortsIff(site, d);
    CreateStep(site, d, d.grant);
  }

  const SUPPLEMENTED := Site(
    {"a", "b"}, map["a" := "site-a", "b" := "site-b"],
    Books([Project("grant", "a", Active)], [Allocation(0, 100, Active)], []), {}, {}, [], map[0 := "a"])
  const OTHER_PI := Delivery("grant", "b", None, Some(50), true, "SUPPLEMENT", [], Nowhere)

  lemma SupplementFails()
    ensures Tidy(SUPPLEMENTED.books) && PIRowsRefer(SUPPLEMENTED) && FailsAfterWriting(SUPPLEMENTED, OTHER_PI)
    ensures Ledger(SUPPLEMENTED.books, "grant") == 100
  {
    var b := SUPPLEMENTED.books;
    assert b.projects[0].originated == "grant" && b.allocations[0].project == 0;
    assert ProjectOf(b.projects, "grant") == 0 && AllocationOf(b.allocations, 0) == 0;
    assert OTHER_PI.grant[0] == 'g' && !IsSpace(OTHER_PI.grant[0]);
    assert SumDiffs([], 0) == 0;
  }

  /** A supplement that names another PI is refused only after its units are written. */
  lemma LedgerCanDrift()
    ensures Aborts(SUPPLEMENTED, Deliver(OTHER_PI))
    ensures Ledger(Apply(SUPPLEMENTED, Deliver(OTHER_PI)).books, "grant") == 150
  {
    SupplementFails();
    FailureMovesLedger(SUPPLEMENTED, OTHER_PI);
  }

  // ---------- What inactivation and reactivation reach ----------

  function CountDiffs(diffs: seq<Diff>, a: nat): nat {
    if diffs == [] then 0
    else CountDiffs(diffs[..|diffs| - 1], a) + if diffs[|diffs| - 1].allocation == a then 1 else 0
  }

  /** One status diff for each allocation of the project, none for the others. */
  lemma {:induction false} OneStatusDiffEach(allocations: seq<Allocation>, p: Id, n: nat, status: Status, a: nat)
    requires n <= |allocations|
    ensures CountDiffs(StatusDiffs(allocations, p, n, status), a) == if a < n && allocations[a].project == p then 1 else 0
  {
    if n > 0 {
      OneStatusDiffEach(allocations, p, n - 1, status, a);
      var before := StatusDiffs(allocations, p, n - 1, status);
      assert (before + [Diff(n - 1, STATUS_CHANGE, 0, status)])[..|before|] == before;
    }
  }

  lemma {:induction false} CountDiffsAppend(xs: seq<Diff>, ys: seq<Diff>, a: nat)
    ensures CountDiffs(xs + ys, a) == CountDiffs(xs, a) + CountDiffs(ys, a)
  {
    if ys == [] {
      assert xs + ys == xs;
    } else {
      CountDiffsAppend(xs, ys[..|ys| - 1], a);
      assert (xs + ys)[..|xs + ys| - 1] == xs + ys[..|ys| - 1];
    }
  }

  /** Stopping or resuming a project adds one diff to each of its allocations and none to any other. */
  lemma FlipCountsDiffs(b: Books, p: Id, status: Status, a: nat)
    requires p < |b.projects|
    ensures CountDiffs(FlipBooks(b, p, status).diffs, a) ==
      CountDiffs(b.diffs, a) + if a < |b.allocations| && b.allocations[a].project == p then 1 else 0
  {
    OneStatusDiffEach(b.allocations, p, |b.allocations|, status, a);
    CountDiffsAppend(b.diffs, StatusDiffs(b.allocations, p, |b.allocations|, status), a);
  }

  /** Every membership under the project ends INACTIVE exactly when none without a user row was otherwise. */
  lemma InactivateReachesAllIff(site: Site, p: Id)
    requires p < |site.books.projects|
    ensures var after := Inactivate(site, p);
      (forall i :: 0 <= i < |site.members| && UnderProject(site, site.members[i], p) ==> after.members[i].status == Inactive)
      <==>
      (forall i :: 0 <= i < |site.members| && UnderProject(site, site.members[i], p) && site.members[i].user !in site.users
         ==> site.members[i].status == Inactive)
  {
  }

  const ORPHANED := Site(
    {}, map[], Books([Project("grant", "a", Active)], [Allocation(0, 100, Active)], []), {}, {},
    [Membership(0, "gone", Active)], map[])

  /** The membership of a deleted user stays ACTIVE under a stopped project. */
  lemma OrphanStaysActive()
    ensures UnderProject(ORPHANED, ORPHANED.members[0], 0)
    ensures Inactivate(ORPHANED, 0).members[0].status == Active
  {
  }

  /** The status a membership has after its project was stopped and resumed. */
  function StatusAfterBoth(site: Site, p: Id, m: Membership): Status
    requires p < |site.books.projects|
  {
    if !Listed(site, m, p) then m.status
    else if m.user == site.books.projects[p].pi && m.user != "" then Active
    else Inactive
  }

  /**
  Stopped and resumed: the project and its allocations are ACTIVE, of their listed memberships
  exactly the PI's are ACTIVE, and no other project, allocation or membership has changed.
   */
  lemma StopThenResume(site: Site, p: Id)
    requires p < |site.books.projects|
    ensures var after := Reactivate(Inactivate(site, p), p);
      && after.books.projects == site.books.projects[p := site.books.projects[p].(status := Active)]
      && after.books.allocations == WithAllocations(site.books.allocations, p, Active)
      && |after.members| == |site.members|
      && (forall i :: 0 <= i < |site.members| ==>
            after.members[i] == site.members[i].(status := StatusAfterBoth(site, p, site.members[i])))
      && after == site.(books := after.books, members := after.members)
  {
  }
}
