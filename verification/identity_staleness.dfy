/**
ResolveCaller under concurrency. Reading the clock, looking in the cache, reading the user,
reading the direct grants, reading the role keys and storing the entry are separate steps of
many resolvers; in between, the clock advances, other requests change the database in any way
they like, invalidate the cache or change its time to live.

The result: the user, the direct keys and the role keys behind every answer were each in the
database less than the maximum time to live before the moment its resolver read the clock. The
two key sets are read one after the other, so their union need not have been anyone's
privileges at any moment; the exact condition for that is stated too.
 */
module IdentityStaleness {
  import opened Authorization
  import opened IdentityCache

  /** What the resolver reads: subject bindings, each user's direct keys, and the keys of each user's roles. */
  datatype Directory = Directory(bindings: map<Sub, UserId>, direct: map<UserId, set<Key>>, viaRoles: map<UserId, set<Key>>)

  function Of(keys: map<UserId, set<Key>>, user: UserId): set<Key> {
    if user in keys then keys[user] else {}
  }

  function AllOf(dir: Directory, user: UserId): set<Key> {
    Of(dir.direct, user) + Of(dir.viaRoles, user)
  }

  /** The authorization tables as the two queries see them. */
  function Snapshot(bindings: map<Sub, UserId>, t: Tables): Directory {
    Directory(bindings, map u | u in t.users :: DirectKeys(t, u), map u | u in t.users :: RoleKeys(t, u))
  }

  lemma SnapshotIsEffective(bindings: map<Sub, UserId>, t: Tables, reg: set<Key>, user: UserId)
    requires Valid(t, reg)
    ensures var dir := Snapshot(bindings, t);
      && Of(dir.direct, user) == DirectKeys(t, user) && Of(dir.viaRoles, user) == RoleKeys(t, user)
      && AllOf(dir, user) == Effective(t, user)
  {
    if user !in t.users {
      assert forall k :: (user, k) !in t.direct;
      assert forall r, k :: !ViaRole(t, user, r, k);
      assert DirectKeys(t, user) == {} && RoleKeys(t, user) == {};
    }
  }

  /** Where one resolver is; `at` is the clock value it captured first. */
  datatype Resolver =
    | Captured(sub: Sub, at: int)
    | Missed(sub: Sub, at: int)
    | Resolved(sub: Sub, at: int, user: UserId)
    | HalfRead(sub: Sub, at: int, user: UserId, direct: set<Key>)
    | Loaded(sub: Sub, at: int, user: UserId, privs: set<Key>)
    | Answered(sub: Sub, at: int, user: UserId, privs: set<Key>)

  datatype World = World(clock: int, dir: Directory, cache: Contents, resolvers: map<nat, Resolver>)

  datatype Action =
    | Tick(d: nat)
    | Capture(w: nat, sub: Sub)
    | LookUp(w: nat)
    | ReadUser(w: nat)
    | Link(w: nat, user: UserId)      // first sign-in binds the subject
    | ReadDirect(w: nat)              // the two queries of EffectivePrivileges
    | ReadRoleKeys(w: nat)
    | Store(w: nat)
    | GiveUp(w: nat)                  // any error path
    | Change(dir: Directory)          // any committed transaction
    | InvalidateAll
    | SetTTL(ttl: int)

  predicate At(x: World, w: nat) {
    w in x.resolvers
  }

  predicate Enabled(x: World, a: Action) {
    match a
    case Tick(_) => true
    case Capture(w, sub) => !At(x, w) && sub != ""
    case LookUp(w) => At(x, w) && x.resolvers[w].Captured?
    case ReadUser(w) => At(x, w) && x.resolvers[w].Missed? && x.resolvers[w].sub in x.dir.bindings
    case Link(w, _) => At(x, w) && x.resolvers[w].Missed? && x.resolvers[w].sub !in x.dir.bindings
    case ReadDirect(w) => At(x, w) && x.resolvers[w].Resolved?
    case ReadRoleKeys(w) => At(x, w) && x.resolvers[w].HalfRead?
    case Store(w) => At(x, w) && x.resolvers[w].Loaded?
    case GiveUp(w) => At(x, w)
    case Change(_) => true
    case InvalidateAll => true
    case SetTTL(d) => d <= MAX_TTL    // the loader caps it
  }

  function Act(x: World, a: Action): World
    requires Enabled(x, a)
  {
    match a
    case Tick(d) => x.(clock := x.clock + d)
    case Capture(w, sub) => x.(resolvers := x.resolvers[w := Captured(sub, x.clock)])
    case LookUp(w) =>
      var r := x.resolvers[w];
      var hit := Fresh(x.cache, r.sub, r.at);
      x.(cache := AfterGet(x.cache, r.sub, r.at),
      resolvers := x.resolvers[w :=
        if hit.Some? then Answered(r.sub, r.at, hit.value.user, hit.value.privs) else Missed(r.sub, r.at)])
    case ReadUser(w) =>
      var r := x.resolvers[w];
      x.(resolvers := x.resolvers[w := Resolved(r.sub, r.at, x.dir.bindings[r.sub])])
    case Link(w, user) =>
      var r := x.resolvers[w];
      x.(dir := x.dir.(bindings := x.dir.bindings[r.sub := user]),
      resolvers := x.resolvers[w := Resolved(r.sub, r.at, user)])
    case ReadDirect(w) =>
      var r := x.resolvers[w];
      x.(resolvers := x.resolvers[w := HalfRead(r.sub, r.at, r.user, Of(x.dir.direct, r.user))])
    case ReadRoleKeys(w) =>
      var r := x.resolvers[w];
      x.(resolvers := x.resolvers[w := Loaded(r.sub, r.at, r.user, r.direct + Of(x.dir.viaRoles, r.user))])
    case Store(w) =>
      var r := x.resolvers[w];
      x.(cache := AfterSet(x.cache, r.sub, r.user, r.privs, r.at),
      resolvers := x.resolvers[w := Answered(r.sub, r.at, r.user, r.privs)])
    case GiveUp(w) => x.(resolvers := x.resolvers - {w})
    case Change(dir) => x.(dir := dir)
    case InvalidateAll => x.(cache := x.cache.(entries := map[]))
    case SetTTL(d) => x.(cache := x.cache.(ttl := EffectiveTTL(d)))
  }

  ghost predicate Initial(x: World) {
    x.cache == Contents(map[], DEFAULT_TTL) && x.resolvers == map[]
  }

  ghost predicate IsRun(run: seq<World>, actions: seq<Action>) {
    && |run| == |actions| + 1
    && Initial(run[0])
    && forall i :: 0 <= i < |actions| ==> Enabled(run[i], actions[i]) && run[i + 1] == Act(run[i], actions[i])
  }

  // ---------- What was in the database, and when ----------

  ghost predicate BoundIn(x: World, from: int, sub: Sub, user: UserId) {
    x.clock >= from && sub in x.dir.bindings && x.dir.bindings[sub] == user
  }

  ghost predicate DirectIn(x: World, from: int, user: UserId, direct: set<Key>) {
    x.clock >= from && Of(x.dir.direct, user) == direct
  }

  /** The union of the user's direct keys at moment i and role keys at moment j, neither before `from`. */
  ghost predicate ReadAt(run: seq<World>, i: nat, j: nat, from: int, user: UserId, privs: set<Key>) {
    && i <= j < |run| && run[i].clock >= from && run[j].clock >= from
    && privs == Of(run[i].dir.direct, user) + Of(run[j].dir.viaRoles, user)
  }

  /** At some moment of the run, not before `from`, the subject was bound to the user. */
  ghost predicate WasBound(run: seq<World>, from: int, sub: Sub, user: UserId) {
    exists i :: 0 <= i < |run| && BoundIn(run[i], from, sub, user)
  }

  /** At some moment of the run, not before `from`, these were the user's direct keys. */
  ghost predicate WasDirect(run: seq<World>, from: int, user: UserId, direct: set<Key>) {
    exists i :: 0 <= i < |run| && DirectIn(run[i], from, user, direct)
  }

  /** The keys are what two reads of the user's rows would have found, in this order. */
  ghost predicate WasRead(run: seq<World>, from: int, user: UserId, privs: set<Key>) {
    exists i: nat, j: nat :: ReadAt(run, i, j, from, user, privs)
  }

  ghost predicate ResolverSound(run: seq<World>, r: Resolver) {
    match r
    case Captured(_, _) => true
    case Missed(_, _) => true
    case Resolved(sub, at, user) => WasBound(run, at, sub, user)
    case HalfRead(sub, at, user, direct) => WasBound(run, at, sub, user) && WasDirect(run, at, user, direct)
    case Loaded(sub, at, user, privs) => WasBound(run, at, sub, user) && WasRead(run, at, user, privs)
    case Answered(sub, at, user, privs) =>
      WasBound(run, at - MAX_TTL + 1, sub, user) && WasRead(run, at - MAX_TTL + 1, user, privs)
  }

  ghost predicate EntrySound(run: seq<World>, sub: Sub, e: Entry) {
    WasBound(run, e.expires - MAX_TTL, sub, e.user) && WasRead(run, e.expires - MAX_TTL, e.user, e.privs)
  }

  ghost predicate Sound(run: seq<World>)
    requires run != []
  {
    var x := run[|run| - 1];
    && 0 < x.cache.ttl <= MAX_TTL
    && (forall i :: 0 <= i < |run| ==> run[i].clock <= x.clock)
    && (forall sub :: sub in x.cache.entries ==> EntrySound(run, sub, x.cache.entries[sub]))
    && (forall w :: w in x.resolvers ==> ResolverSound(run, x.resolvers[w]))
  }

  // ---------- Proof ----------

  /** A resolver never holds a clock value from the future. */
  ghost predicate ClocksPast(x: World) {
    forall w :: w in x.resolvers ==> x.resolvers[w].at <= x.clock
  }

  lemma WasBoundLater(run: seq<World>, x: World, from: int, from': int, sub: Sub, user: UserId)
    requires from' <= from
    ensures WasBound(run, from, sub, user) ==> WasBound(run + [x], from', sub, user)
    ensures BoundIn(x, from, sub, user) ==> WasBound(run + [x], from', sub, user)
  {
    var run' := run + [x];
    if WasBound(run, from, sub, user) {
      var i :| 0 <= i < |run| && BoundIn(run[i], from, sub, user);
      assert BoundIn(run'[i], from', sub, user);
    }
    if BoundIn(x, from, sub, user) { assert BoundIn(run'[|run|], from', sub, user); }
  }

  lemma WasDirectLater(run: seq<World>, x: World, from: int, user: UserId, direct: set<Key>)
    ensures WasDirect(run, from, user, direct) || DirectIn(x, from, user, direct) ==> WasDirect(run + [x], from, user, direct)
  {
    var run' := run + [x];
    if WasDirect(run, from, user, direct) {
      var i :| 0 <= i < |run| && DirectIn(run[i], from, user, direct);
      assert DirectIn(run'[i], from, user, direct);
    }
    if DirectIn(x, from, user, direct) { assert DirectIn(run'[|run|], from, user, direct); }
  }

  lemma WasReadLater(run: seq<World>, x: World, from: int, from': int, user: UserId, privs: set<Key>)
    requires from' <= from && WasRead(run, from, user, privs)
    ensures WasRead(run + [x], from', user, privs)
  {
    var i: nat, j: nat :| ReadAt(run, i, j, from, user, privs);
    assert ReadAt(run + [x], i, j, from', user, privs);
  }

  /** The second read completes the first. */
  lemma ReadCompletes(run: seq<World>, x: World, from: int, user: UserId, direct: set<Key>)
    requires WasDirect(run, from, user, direct) && x.clock >= from
    ensures WasRead(run + [x], from, user, direct + Of(x.dir.viaRoles, user))
  {
    var i :| 0 <= i < |run| && DirectIn(run[i], from, user, direct);
    assert ReadAt(run + [x], i, |run|, from, user, direct + Of(x.dir.viaRoles, user));
  }

  lemma EntrySoundLater(run: seq<World>, x: World, sub: Sub, e: Entry)
    requires EntrySound(run, sub, e)
    ensures EntrySound(run + [x], sub, e)
  {
    WasBoundLater(run, x, e.expires - MAX_TTL, e.expires - MAX_TTL, sub, e.user);
    WasReadLater(run, x, e.expires - MAX_TTL, e.expires - MAX_TTL, e.user, e.privs);
  }

  lemma ResolverSoundLater(run: seq<World>, x: World, r: Resolver)
    requires ResolverSound(run, r)
    ensures ResolverSound(run + [x], r)
  {
    match r
    case Captured(_, _) =>
    case Missed(_, _) =>
    case Resolved(sub, at, user) => WasBoundLater(run, x, at, at, sub, user);
    case HalfRead(sub, at, user, direct) =>
      WasBoundLater(run, x, at, at, sub, user);
      WasDirectLater(run, x, at, user, direct);
    case Loaded(sub, at, user, privs) =>
      WasBoundLater(run, x, at, at, sub, user);
      WasReadLater(run, x, at, at, user, privs);
    case Answered(sub, at, user, privs) =>
      WasBoundLater(run, x, at - MAX_TTL + 1, at - MAX_TTL + 1, sub, user);
      WasReadLater(run, x, at - MAX_TTL + 1, at - MAX_TTL + 1, user, privs);
  }

  /** A hit is sound for the resolver that looked: it was captured before the entry expired. */
  lemma LookUpSound(run: seq<World>, w: nat)
    requires run != [] && Enabled(run[|run| - 1], LookUp(w))
    requires var x := run[|run| - 1]; var sub := x.resolvers[w].sub;
      sub in x.cache.entries ==> EntrySound(run, sub, x.cache.entries[sub])
    ensures
      var x' := Act(run[|run| - 1], LookUp(w));
      ResolverSound(run + [x'], x'.resolvers[w])
  {
    var x := run[|run| - 1];
    var r := x.resolvers[w];
    var hit := Fresh(x.cache, r.sub, r.at);
    if hit.Some? {
      var x', e := Act(x, LookUp(w)), hit.value;
      WasBoundLater(run, x', e.expires - MAX_TTL, r.at - MAX_TTL + 1, r.sub, e.user);
      WasReadLater(run, x', e.expires - MAX_TTL, r.at - MAX_TTL + 1, e.user, e.privs);
    }
  }

  /** A resolver is sound after each of its own reads. */
  lemma OwnReadSound(run: seq<World>, a: Action)
    requires run != [] && Enabled(run[|run| - 1], a)
    requires a.ReadUser? || a.Link? || a.ReadDirect? || a.ReadRoleKeys? || a.Store?
    requires var x := run[|run| - 1]; ResolverSound(run, x.resolvers[a.w]) && x.resolvers[a.w].at <= x.clock
    ensures
      var x' := Act(run[|run| - 1], a);
      ResolverSound(run + [x'], x'.resolvers[a.w])
  {
    var x := run[|run| - 1];
    var x' := Act(x, a);
    var r := x.resolvers[a.w];
    match a
    case ReadUser(w) => WasBoundLater(run, x', r.at, r.at, r.sub, x.dir.bindings[r.sub]);
    case Link(w, user) => WasBoundLater(run, x', r.at, r.at, r.sub, user);
    case ReadDirect(w) =>
      WasBoundLater(run, x', r.at, r.at, r.sub, r.user);
      WasDirectLater(run, x', r.at, r.user, Of(x.dir.direct, r.user));
    case ReadRoleKeys(w) =>
      WasBoundLater(run, x', r.at, r.at, r.sub, r.user);
      ReadCompletes(run, x', r.at, r.user, r.direct);
    case Store(w) =>
      WasBoundLater(run, x', r.at, r.at - MAX_TTL + 1, r.sub, r.user);
      WasReadLater(run, x', r.at, r.at - MAX_TTL + 1, r.user, r.privs);
  }

  lemma EntryStaysSound(run: seq<World>, a: Action, sub: Sub)
    requires run != [] && Sound(run) && ClocksPast(run[|run| - 1])
    requires Enabled(run[|run| - 1], a) && sub in Act(run[|run| - 1], a).cache.entries
    ensures var x' := Act(run[|run| - 1], a);
      EntrySound(run + [x'], sub, x'.cache.entries[sub])
  {
    var x := run[|run| - 1];
    var x' := Act(x, a);
    if a.Store? && sub == x.resolvers[a.w].sub {
      var r := x.resolvers[a.w];
      var e := x'.cache.entries[sub];
      WasBoundLater(run, x', r.at, e.expires - MAX_TTL, sub, r.user);
      WasReadLater(run, x', r.at, e.expires - MAX_TTL, r.user, r.privs);
    } else {
      EntrySoundLater(run, x', sub, x.cache.entries[sub]);
    }
  }

  lemma ResolverStaysSound(run: seq<World>, a: Action, w: nat)
    requires run != [] && Sound(run) && ClocksPast(run[|run| - 1])
    requires Enabled(run[|run| - 1], a) && w in Act(run[|run| - 1], a).resolvers
    ensures var x' := Act(run[|run| - 1], a);
      ResolverSound(run + [x'], x'.resolvers[w])
  {
    var x := run[|run| - 1];
    var x' := Act(x, a);
    if w in x.resolvers && x'.resolvers[w] == x.resolvers[w] {
      ResolverSoundLater(run, x', x.resolvers[w]);
    } else if a.LookUp? {
      LookUpSound(run, w);
    } else if !a.Capture? {
      OwnReadSound(run, a);
    }
  }

  lemma StepKeepsSound(run: seq<World>, a: Action)
    requires run != [] && Sound(run) && ClocksPast(run[|run| - 1])
    requires Enabled(run[|run| - 1], a)
    ensures Sound(run + [Act(run[|run| - 1], a)]) && ClocksPast(Act(run[|run| - 1], a))
  {
    var x' := Act(run[|run| - 1], a);
    forall sub | sub in x'.cache.entries ensures EntrySound(run + [x'], sub, x'.cache.entries[sub]) {
      EntryStaysSound(run, a, sub);
    }
    forall w | w in x'.resolvers ensures ResolverSound(run + [x'], x'.resolvers[w]) {
      ResolverStaysSound(run, a, w);
    }
  }

  lemma {:induction false} RunsAreSound(run: seq<World>, actions: seq<Action>)
    requires IsRun(run, actions)
    ensures Sound(run) && ClocksPast(run[|run| - 1])
    decreases |actions|
  {
    if actions != [] {
      var n := |actions| - 1;
      RunsAreSound(run[..n + 1], actions[..n]);
      StepKeepsSound(run[..n + 1], actions[n]);
      assert run == run[..n + 1] + [run[n + 1]];
    }
  }

  /**
  Bounded staleness. In every interleaving, each component of every answer was what the
  database held at some moment of the run less than MAX_TTL before the resolver captured the
  clock, and no later than now: the binding at one moment, the direct keys at another, and the
  role keys at a third that is not before the second. Answers from the cache and from a read alike.
   */
  lemma BoundedStaleness(run: seq<World>, actions: seq<Action>, w: nat)
    requires IsRun(run, actions)
    requires w in run[|run| - 1].resolvers && run[|run| - 1].resolvers[w].Answered?
    ensures
      var r := run[|run| - 1].resolvers[w];
      var now := run[|run| - 1].clock;
      && (exists i :: 0 <= i < |run| && BoundIn(run[i], r.at - MAX_TTL + 1, r.sub, r.user) && run[i].clock <= now)
      && (exists i: nat, j: nat ::
            ReadAt(run, i, j, r.at - MAX_TTL + 1, r.user, r.privs) && run[i].clock <= now && run[j].clock <= now)
  {
    RunsAreSound(run, actions);
    assert ResolverSound(run, run[|run| - 1].resolvers[w]);
  }

  ghost predicate HoldsIn(x: World, from: int, user: UserId, key: Key) {
    x.clock >= from && key in AllOf(x.dir, user)
  }

  /** Key by key: whatever an answer grants, the user did hold within the bound. */
  lemma EveryAnsweredKeyWasHeld(run: seq<World>, actions: seq<Action>, w: nat, key: Key)
    requires IsRun(run, actions)
    requires w in run[|run| - 1].resolvers && run[|run| - 1].resolvers[w].Answered?
    requires key in run[|run| - 1].resolvers[w].privs
    ensures
      var r := run[|run| - 1].resolvers[w];
      exists i :: 0 <= i < |run| && HoldsIn(run[i], r.at - MAX_TTL + 1, r.user, key)
  {
    RunsAreSound(run, actions);
    var r := run[|run| - 1].resolvers[w];
    assert ResolverSound(run, r);
    ReadKeyWasHeld(run, r.at - MAX_TTL + 1, r.user, r.privs, key);
  }

  lemma ReadKeyWasHeld(run: seq<World>, from: int, user: UserId, privs: set<Key>, key: Key)
    requires WasRead(run, from, user, privs) && key in privs
    ensures exists i :: 0 <= i < |run| && HoldsIn(run[i], from, user, key)
  {
    var i: nat, j: nat :| ReadAt(run, i, j, from, user, privs);
    if key in Of(run[i].dir.direct, user) {
      assert HoldsIn(run[i], from, user, key);
    } else {
      assert HoldsIn(run[j], from, user, key);
    }
  }

  /**
  When two reads add up to a set the user really had: at the second read if and only if the
  direct keys changed in between only by keys the roles carry; at the first if and only if the
  role keys changed only by keys held directly.
   */
  lemma WholeSetIff(run: seq<World>, i: nat, j: nat, from: int, user: UserId, privs: set<Key>)
    requires ReadAt(run, i, j, from, user, privs)
    ensures
      var first, second := run[i].dir, run[j].dir;
      && (privs == AllOf(second, user) <==>
            Of(first.direct, user) - Of(second.viaRoles, user) == Of(second.direct, user) - Of(second.viaRoles, user))
      && (privs == AllOf(first, user) <==>
            Of(second.viaRoles, user) - Of(first.direct, user) == Of(first.viaRoles, user) - Of(first.direct, user))
  {
    SameUnionIff(Of(run[i].dir.direct, user), Of(run[j].dir.direct, user), Of(run[j].dir.viaRoles, user));
    SameUnionIff(Of(run[j].dir.viaRoles, user), Of(run[i].dir.viaRoles, user), Of(run[i].dir.direct, user));
  }

  lemma SameUnionIff(a: set<Key>, b: set<Key>, c: set<Key>)
    ensures a + c == b + c <==> a - c == b - c
    ensures a + c == c + a
  {
    if a + c == b + c { assert forall k :: k in a - c <==> k in a + c && k !in c; }
    if a - c == b - c { assert forall k :: k in a + c <==> k in a - c || k in c; }
  }

  // ---------- Two concrete runs ----------

  lemma OneMore(run: seq<World>, actions: seq<Action>, a: Action, x: World)
    requires IsRun(run, actions) && Enabled(run[|run| - 1], a) && x == Act(run[|run| - 1], a)
    ensures IsRun(run + [x], actions + [a])
  {}

  /** A resolver at time 0 that has read the user and the direct keys, in a database that has not changed yet. */
  lemma FirstHalf(dir: Directory, sub: Sub, user: UserId) returns (run: seq<World>, actions: seq<Action>)
    requires sub != "" && sub in dir.bindings && dir.bindings[sub] == user
    ensures IsRun(run, actions) && |actions| == 4
    ensures run[4] == World(0, dir, Contents(map[], DEFAULT_TTL), map[0 := HalfRead(sub, 0, user, Of(dir.direct, user))])
    ensures forall i :: 0 <= i < |run| ==> run[i].dir == dir
    ensures forall i :: 0 <= i < 4 ==> !actions[i].Change?
  {
    var none: Contents := Contents(map[], DEFAULT_TTL);
    var x0 := World(0, dir, none, map[]);
    var x1 := World(0, dir, none, map[0 := Captured(sub, 0)]);
    var x2 := World(0, dir, none, map[0 := Missed(sub, 0)]);
    var x3 := World(0, dir, none, map[0 := Resolved(sub, 0, user)]);
    var x4 := World(0, dir, none, map[0 := HalfRead(sub, 0, user, Of(dir.direct, user))]);
    OneMore([x0], [], Capture(0, sub), x1);
    OneMore([x0] + [x1], [] + [Capture(0, sub)], LookUp(0), x2);
    run, actions := [x0] + [x1] + [x2], [] + [Capture(0, sub)] + [LookUp(0)];
    OneMore(run, actions, ReadUser(0), x3);
    run, actions := run + [x3], actions + [ReadUser(0)];
    OneMore(run, actions, ReadDirect(0), x4);
    run, actions := run + [x4], actions + [ReadDirect(0)];
  }

  /**
  A resolver that read before a change may store after the change's invalidation: whatever the
  user had and has now, the cache is left with what they had.
   */
  lemma StaleAfterInvalidation(early: Directory, late: Directory, sub: Sub, user: UserId)
    requires sub != "" && sub in early.bindings && early.bindings[sub] == user
    ensures exists run, actions :: StaleRun(run, actions, early, late, sub, user)
  {
    var run, actions := FirstHalf(early, sub, user);
    var x := Act(run[4], ReadRoleKeys(0));
    OneMore(run, actions, ReadRoleKeys(0), x);
    run, actions := run + [x], actions + [ReadRoleKeys(0)];
    var y := x.(dir := late);
    OneMore(run, actions, Change(late), y);
    run, actions := run + [y], actions + [Change(late)];
    OneMore(run, actions, InvalidateAll, y);
    run, actions := run + [y], actions + [InvalidateAll];
    var z := Act(y, Store(0));
    OneMore(run, actions, Store(0), z);
    run, actions := run + [z], actions + [Store(0)];
    assert StaleRun(run, actions, early, late, sub, user);
  }

  ghost predicate StaleRun(run: seq<World>, actions: seq<Action>, early: Directory, late: Directory, sub: Sub, user: UserId) {
    && IsRun(run, actions) && |actions| == 8 && run[0].dir == early && run[8].dir == late
    && actions[5] == Change(late) && actions[6] == InvalidateAll && run[7].cache.entries == map[] && run[7].dir == late
    && run[7].resolvers == map[0 := Loaded(sub, 0, user, AllOf(early, user))]
    && sub in run[8].cache.entries && run[8].cache.entries[sub].user == user
    && run[8].cache.entries[sub].privs == AllOf(early, user)
  }

  /** A resolver whose two reads have `middle` and `late` between them, the last seen by the second. */
  lemma TwoChangesBetween(early: Directory, middle: Directory, late: Directory, sub: Sub, user: UserId)
    returns (run: seq<World>, actions: seq<Action>)
    requires sub != "" && sub in early.bindings && early.bindings[sub] == user
    ensures IsRun(run, actions) && |actions| == 8
    ensures actions[4] == Change(middle) && actions[5] == Change(late)
    ensures forall i :: 0 <= i < 8 && actions[i].Change? ==> i == 4 || i == 5
    ensures forall i :: 0 <= i < |run| ==> run[i].dir == if i <= 4 then early else if i == 5 then middle else late
    ensures run[8].resolvers == map[0 := Answered(sub, 0, user, Of(early.direct, user) + Of(late.viaRoles, user))]
    ensures sub in run[8].cache.entries && run[8].cache.entries[sub].privs == Of(early.direct, user) + Of(late.viaRoles, user)
  {
    run, actions := FirstHalf(early, sub, user);
    var x := run[4].(dir := middle);
    OneMore(run, actions, Change(middle), x);
    run, actions := run + [x], actions + [Change(middle)];
    var y := x.(dir := late);
    OneMore(run, actions, Change(late), y);
    run, actions := run + [y], actions + [Change(late)];
    var z := Act(y, ReadRoleKeys(0));
    OneMore(run, actions, ReadRoleKeys(0), z);
    run, actions := run + [z], actions + [ReadRoleKeys(0)];
    var last := Act(z, Store(0));
    OneMore(run, actions, Store(0), last);
    run, actions := run + [last], actions + [Store(0)];
  }

  /** The user has keys directly, then none, then others through roles. */
  ghost predicate Tears(early: Directory, middle: Directory, late: Directory,
                        user: UserId, direct: set<Key>, viaRoles: set<Key>) {
    && Of(early.direct, user) == direct && Of(early.viaRoles, user) == {}
    && AllOf(middle, user) == {}
    && Of(late.direct, user) == {} && Of(late.viaRoles, user) == viaRoles
  }

  /**
  Direct keys taken and role keys given between the two reads: the answer, stored and given, is
  a set the user never had.
   */
  lemma TornRead(early: Directory, middle: Directory, late: Directory,
                 sub: Sub, user: UserId, direct: set<Key>, viaRoles: set<Key>)
    requires sub != "" && sub in early.bindings && early.bindings[sub] == user
    requires Tears(early, middle, late, user, direct, viaRoles) && !(direct <= viaRoles) && !(viaRoles <= direct)
    ensures exists run, actions :: TornRun(run, actions, early, middle, late, sub, user, direct + viaRoles)
  {
    var run, actions := TwoChangesBetween(early, middle, late, sub, user);
    assert AllOf(early, user) == direct && AllOf(late, user) == viaRoles;
    assert TornRun(run, actions, early, middle, late, sub, user, direct + viaRoles);
  }

  /** The database goes from early over middle to late; the answer and the entry are a set it never gave the user. */
  ghost predicate TornRun(run: seq<World>, actions: seq<Action>, early: Directory, middle: Directory, late: Directory,
                          sub: Sub, user: UserId, privs: set<Key>) {
    && IsRun(run, actions) && |run| == 9
    && (forall i :: 0 <= i < 9 ==> run[i].dir == if i <= 4 then early else if i == 5 then middle else late)
    && run[8].resolvers == map[0 := Answered(sub, 0, user, privs)]
    && sub in run[8].cache.entries && run[8].cache.entries[sub].privs == privs
    && forall i :: 0 <= i < 9 ==> AllOf(run[i].dir, user) != privs
  }

  const TORN_REGISTRY: set<Key> := {PRIVILEGES_GRANT, ROLES_MANAGE, "a", "b"}

  const BEFORE: Tables := Tables(
    map["u" := "u@example.org", "adm" := "adm@example.org"], map["r" := Role("readers", false)],
    {("u", "a"), ("adm", PRIVILEGES_GRANT), ("adm", ROLES_MANAGE)}, {}, {("r", "b")})

  const BETWEEN: Tables := BEFORE.(direct := {("adm", PRIVILEGES_GRANT), ("adm", ROLES_MANAGE)})
  const AFTER: Tables := BETWEEN.(held := {("u", "r")})

  /** Two accepted steps lead from BEFORE over BETWEEN to AFTER. */
  lemma TornSteps()
    ensures Apply(BEFORE, TORN_REGISTRY, RevokePrivilege("u", "a", "adm")) == Reply(BETWEEN, Done)
    ensures Apply(BETWEEN, TORN_REGISTRY, GrantRole("u", "r", "adm")) == Reply(AFTER, Done)
  {
    assert Holds(BEFORE, "adm", PRIVILEGES_GRANT) && Holds(BETWEEN, "adm", ROLES_MANAGE);
    assert BEFORE.direct - {("u", "a")} == BETWEEN.direct;
    assert BETWEEN.held + {("u", "r")} == AFTER.held;
  }

  lemma KeysAre(bindings: map<Sub, UserId>, t: Tables, user: UserId, direct: set<Key>, viaRoles: set<Key>)
    requires user in t.users
    requires forall k :: ((user, k) in t.direct) == (k in direct)
    requires forall r, k :: ViaRole(t, user, r, k) ==> k in viaRoles
    requires forall k :: k in viaRoles ==> exists r :: ViaRole(t, user, r, k)
    ensures var dir := Snapshot(bindings, t); Of(dir.direct, user) == direct && Of(dir.viaRoles, user) == viaRoles
  {
  }

  lemma KeysBefore(bindings: map<Sub, UserId>)
    ensures var dir := Snapshot(bindings, BEFORE); Of(dir.direct, "u") == {"a"} && Of(dir.viaRoles, "u") == {}
  {
    KeysAre(bindings, BEFORE, "u", {"a"}, {});
  }

  lemma KeysBetween(bindings: map<Sub, UserId>)
    ensures var dir := Snapshot(bindings, BETWEEN); Of(dir.direct, "u") == {} && Of(dir.viaRoles, "u") == {}
  {
    KeysAre(bindings, BETWEEN, "u", {}, {});
  }

  lemma KeysAfter(bindings: map<Sub, UserId>)
    ensures var dir := Snapshot(bindings, AFTER); Of(dir.direct, "u") == {} && Of(dir.viaRoles, "u") == {"b"}
  {
    assert ViaRole(AFTER, "u", "r", "b");
    KeysAre(bindings, AFTER, "u", {}, {"b"});
  }

  /** So those steps, taken between the two reads, tear the answer. */
  lemma TornTables(bindings: map<Sub, UserId>)
    ensures Tears(Snapshot(bindings, BEFORE), Snapshot(bindings, BETWEEN), Snapshot(bindings, AFTER), "u", {"a"}, {"b"})
  {
    KeysBefore(bindings);
    KeysBetween(bindings);
    KeysAfter(bindings);
  }

  /** u is answered {a, b}, though it never held both. */
  lemma TornAnswer(bindings: map<Sub, UserId>)
    requires "sub" in bindings && bindings["sub"] == "u"
    ensures exists run, actions :: TornRun(
      run, actions, Snapshot(bindings, BEFORE), Snapshot(bindings, BETWEEN), Snapshot(bindings, AFTER), "sub", "u", {"a"} + {"b"})
  {
    TornTables(bindings);
    assert "a" in {"a"} && "a" !in {"b"} && "b" in {"b"} && "b" !in {"a"};
    TornRead(Snapshot(bindings, BEFORE), Snapshot(bindings, BETWEEN), Snapshot(bindings, AFTER), "sub", "u", {"a"}, {"b"});
  }
}
