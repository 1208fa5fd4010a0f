/**
The concurrent resolver of module IdentityStaleness, left alone, is the serial one of module
IdentityResolver: if no other step comes in between, its steps end with the same answer, the
same bindings and the same cache.
 */
module IdentityRefinement {
  import opened Authorization
  import opened Common
  import opened IdentityCache
  import opened IdentityAnswers
  import S = IdentityStaleness
  import R = IdentityResolver

  function Owners(bindings: map<Sub, R.Binding>): map<Sub, UserId> {
    map sub | sub in bindings :: bindings[sub].user
  }

  /** Both see the same database and the same cache. */
  ghost predicate Same(x: S.World, s: R.State) {
    x.cache == s.cache && x.dir == S.Snapshot(Owners(s.bindings), s.tables)
  }

  /** Worker w's steps for a subject that is bound, or that user u signs in with. */
  function Schedule(x: S.World, w: nat, sub: Sub, u: UserId): seq<S.Action> {
    if Fresh(x.cache, sub, x.clock).Some? then [S.Capture(w, sub), S.LookUp(w)]
    else [S.Capture(w, sub), S.LookUp(w)] + (Finding(x, w, sub, u) + [S.ReadRoleKeys(w), S.Store(w)])
  }

  function Finding(x: S.World, w: nat, sub: Sub, u: UserId): seq<S.Action> {
    [if sub in x.dir.bindings then S.ReadUser(w) else S.Link(w, u), S.ReadDirect(w)]
  }

  /** The world after these actions; none if one of them is not possible where it comes. */
  ghost function Follow(x: S.World, actions: seq<S.Action>): Option<S.World>
    decreases |actions|
  {
    if actions == [] then Some(x)
    else if !S.Enabled(x, actions[0]) then None
    else Follow(S.Act(x, actions[0]), actions[1..])
  }

  lemma FollowTwo(x: S.World, a: S.Action, b: S.Action, rest: seq<S.Action>)
    requires S.Enabled(x, a) && S.Enabled(S.Act(x, a), b)
    ensures Follow(x, [a, b] + rest) == Follow(S.Act(S.Act(x, a), b), rest)
  {
    assert ([a, b] + rest)[1..] == [b] + rest && ([b] + rest)[1..] == rest;
  }

  /** Capturing the clock and looking in the cache. */
  lemma LooksUp(x: S.World, w: nat, sub: Sub, rest: seq<S.Action>)
    requires sub != "" && w !in x.resolvers
    ensures var hit := Fresh(x.cache, sub, x.clock);
      var found := if hit.Some? then S.Answered(sub, x.clock, hit.value.user, hit.value.privs) else S.Missed(sub, x.clock);
      Follow(x, [S.Capture(w, sub), S.LookUp(w)] + rest)
        == Follow(x.(cache := AfterGet(x.cache, sub, x.clock), resolvers := x.resolvers[w := found]), rest)
  {
    FollowTwo(x, S.Capture(w, sub), S.LookUp(w), rest);
    var x2 := S.Act(S.Act(x, S.Capture(w, sub)), S.LookUp(w));
    assert x2.resolvers == x.resolvers[w := x2.resolvers[w]];
  }

  /** The owner the subject has, or gets. */
  function OwnerOf(x: S.World, sub: Sub, u: UserId): UserId {
    if sub in x.dir.bindings then x.dir.bindings[sub] else u
  }

  /** After a miss: finding or binding the user and reading the direct keys. */
  lemma FindsUser(x: S.World, w: nat, sub: Sub, u: UserId, at: int, rest: seq<S.Action>)
    requires w in x.resolvers && x.resolvers[w] == S.Missed(sub, at)
    ensures var owner := OwnerOf(x, sub, u);
      Follow(x, Finding(x, w, sub, u) + rest)
        == Follow(x.(dir := x.dir.(bindings := x.dir.bindings[sub := owner]),
                     resolvers := x.resolvers[w := S.HalfRead(sub, at, owner, S.Of(x.dir.direct, owner))]), rest)
  {
    var first := if sub in x.dir.bindings then S.ReadUser(w) else S.Link(w, u);
    FollowTwo(x, first, S.ReadDirect(w), rest);
    var x2 := S.Act(S.Act(x, first), S.ReadDirect(w));
    assert x2.dir.bindings == x.dir.bindings[sub := OwnerOf(x, sub, u)];
    assert x2.resolvers == x.resolvers[w := x2.resolvers[w]];
  }

  /** And then: reading the role keys and storing the entry. */
  lemma Stores(x: S.World, w: nat, sub: Sub, user: UserId, at: int)
    requires w in x.resolvers && x.resolvers[w] == S.HalfRead(sub, at, user, S.Of(x.dir.direct, user))
    ensures var privs := S.AllOf(x.dir, user);
      Follow(x, [S.ReadRoleKeys(w), S.Store(w)])
        == Some(x.(cache := AfterSet(x.cache, sub, user, privs, at),
                   resolvers := x.resolvers[w := S.Answered(sub, at, user, privs)]))
  {
    FollowTwo(x, S.ReadRoleKeys(w), S.Store(w), []);
    assert [S.ReadRoleKeys(w), S.Store(w)] + [] == [S.ReadRoleKeys(w), S.Store(w)];
    var x2 := S.Act(S.Act(x, S.ReadRoleKeys(w)), S.Store(w));
    assert x2.resolvers == x.resolvers[w := x2.resolvers[w]];
  }

  lemma MissedAlone(x: S.World, w: nat, sub: Sub, u: UserId, at: int)
    requires w in x.resolvers && x.resolvers[w] == S.Missed(sub, at)
    ensures var owner := OwnerOf(x, sub, u);
      var privs := S.AllOf(x.dir, owner);
      Follow(x, Finding(x, w, sub, u) + [S.ReadRoleKeys(w), S.Store(w)])
        == Some(x.(dir := x.dir.(bindings := x.dir.bindings[sub := owner]),
                   cache := AfterSet(x.cache, sub, owner, privs, at),
                   resolvers := x.resolvers[w := S.Answered(sub, at, owner, privs)]))
  {
    FindsUser(x, w, sub, u, at, [S.ReadRoleKeys(w), S.Store(w)]);
    var owner := OwnerOf(x, sub, u);
    var half := S.HalfRead(sub, at, owner, S.Of(x.dir.direct, owner));
    var read := x.(dir := x.dir.(bindings := x.dir.bindings[sub := owner]), resolvers := x.resolvers[w := half]);
    Stores(read, w, sub, owner, at);
    var answered := S.Answered(sub, at, owner, S.AllOf(x.dir, owner));
    assert read.resolvers[w := answered] == x.resolvers[w := answered];
  }

  /** A cached subject is answered with its entry. */
  lemma CachedAlone(x: S.World, w: nat, sub: Sub, u: UserId)
    requires sub != "" && w !in x.resolvers && Fresh(x.cache, sub, x.clock).Some?
    ensures var e := Fresh(x.cache, sub, x.clock).value;
      Follow(x, Schedule(x, w, sub, u)) == Some(x.(resolvers := x.resolvers[w := S.Answered(sub, x.clock, e.user, e.privs)]))
  {
    LooksUp(x, w, sub, []);
    assert Schedule(x, w, sub, u) + [] == Schedule(x, w, sub, u);
  }

  /** Any other subject gets its owner, with what one and the same database gives them, and is cached. */
  lemma UncachedAlone(x: S.World, w: nat, sub: Sub, u: UserId)
    requires sub != "" && w !in x.resolvers && Fresh(x.cache, sub, x.clock).None?
    ensures var owner := OwnerOf(x, sub, u);
      var privs := S.AllOf(x.dir, owner);
      Follow(x, Schedule(x, w, sub, u))
        == Some(x.(dir := x.dir.(bindings := x.dir.bindings[sub := owner]),
                   cache := AfterSet(AfterGet(x.cache, sub, x.clock), sub, owner, privs, x.clock),
                   resolvers := x.resolvers[w := S.Answered(sub, x.clock, owner, privs)]))
  {
    var missed := x.(cache := AfterGet(x.cache, sub, x.clock), resolvers := x.resolvers[w := S.Missed(sub, x.clock)]);
    LooksUp(x, w, sub, Finding(x, w, sub, u) + [S.ReadRoleKeys(w), S.Store(w)]);
    assert Finding(missed, w, sub, u) == Finding(x, w, sub, u);
    MissedAlone(missed, w, sub, u, x.clock);
    var answered := S.Answered(sub, x.clock, OwnerOf(x, sub, u), S.AllOf(x.dir, OwnerOf(x, sub, u)));
    assert missed.resolvers[w := answered] == x.resolvers[w := answered];
  }

  lemma CachedAsIsSet(s: R.State, after: R.State, sub: Sub, user: UserId, privs: set<Key>, now: int)
    requires CachedAs(s, after, sub, user, privs, now) && !IsCached(s, sub, now)
    ensures after.cache == AfterSet(AfterGet(s.cache, sub, now), sub, user, privs, now)
  {
    assert after.cache.entries == (s.cache.entries - {sub})[sub := Entry(user, privs, now + s.cache.ttl)];
  }

  /** What the serial resolver does with a subject that is not cached. */
  lemma UncachedSerial(s: R.State, sub: Sub, email: string, u: UserId, now: int)
    requires sub != "" && !IsCached(s, sub, now)
    requires sub in s.bindings || (OneUserPerEmail(s.tables, email) && SignsIn(s, email, u))
    ensures var owner := if sub in s.bindings then s.bindings[sub].user else u;
      var privs := Effective(s.tables, owner);
      var (after, answer) := R.ResolveReply(s, sub, email, now);
      && answer == R.Caller(owner, privs) && Owners(after.bindings) == Owners(s.bindings)[sub := owner]
      && after.cache == AfterSet(AfterGet(s.cache, sub, now), sub, owner, privs, now)
  {
    var after := R.ResolveReply(s, sub, email, now).0;
    if sub in s.bindings { BoundAnswer(s, sub, email, now); } else { FirstAnswer(s, sub, email, now, u); }
    var owner := if sub in s.bindings then s.bindings[sub].user else u;
    CachedAsIsSet(s, after, sub, owner, Effective(s.tables, owner), now);
  }

  /**
  Left alone, a worker answers as the serial resolver does at its clock, for a cached or bound
  subject and for the first sign-in of user u, and leaves the same bindings and cache.
   */
  lemma AloneIsSerial(x: S.World, s: R.State, reg: set<Key>, w: nat, sub: Sub, email: string, u: UserId)
    requires Same(x, s) && Valid(s.tables, reg) && sub != "" && w !in x.resolvers
    requires IsCached(s, sub, x.clock) || sub in s.bindings || SignsIn(s, email, u)
    ensures var (after, answer) := R.ResolveReply(s, sub, email, x.clock);
      var end := Follow(x, Schedule(x, w, sub, u));
      && answer.Caller? && end.Some?
      && end.value.resolvers == x.resolvers[w := S.Answered(sub, x.clock, answer.user, answer.privs)]
      && end.value.cache == after.cache && end.value.dir.bindings == Owners(after.bindings) && end.value.clock == x.clock
  {
    if IsCached(s, sub, x.clock) {
      CachedAlone(x, w, sub, u);
      CachedAnswer(s, sub, email, x.clock);
    } else {
      UncachedAlone(x, w, sub, u);
      UncachedSerial(s, sub, email, u, x.clock);
      S.SnapshotIsEffective(Owners(s.bindings), s.tables, reg, OwnerOf(x, sub, u));
    }
  }
}
