/**
When an invalidation takes hold. Emptying the cache makes it agree with the database from then
on, until the next change, exactly if no resolver in flight carries a read that is out of date.
 */
module IdentityInvalidation {
  import opened Authorization
  import opened IdentityCache
  import opened IdentityStaleness

  // ---------- Continuations ----------

  predicate CanRun(x: World, actions: seq<Action>)
    decreases |actions|
  {
    actions != [] ==> Enabled(x, actions[0]) && CanRun(Act(x, actions[0]), actions[1..])
  }

  function After(x: World, actions: seq<Action>): World
    requires CanRun(x, actions)
    decreases |actions|
  {
    if actions == [] then x else After(Act(x, actions[0]), actions[1..])
  }

  /** No committed change; first sign-ins may still bind subjects. */
  predicate Quiet(actions: seq<Action>) {
    forall i :: 0 <= i < |actions| ==> !actions[i].Change?
  }

  // ---------- What is current ----------

  predicate BoundNow(x: World, sub: Sub, user: UserId) {
    sub in x.dir.bindings && x.dir.bindings[sub] == user
  }

  ghost predicate CacheCurrent(x: World) {
    forall sub :: sub in x.cache.entries ==>
      BoundNow(x, sub, x.cache.entries[sub].user) && x.cache.entries[sub].privs == AllOf(x.dir, x.cache.entries[sub].user)
  }

  /** What the resolver has read so far still adds up to the current answer. */
  predicate Ready(x: World, r: Resolver) {
    match r
    case Resolved(sub, _, user) => BoundNow(x, sub, user)
    case HalfRead(sub, _, user, direct) => BoundNow(x, sub, user) && direct + Of(x.dir.viaRoles, user) == AllOf(x.dir, user)
    case Loaded(sub, _, user, privs) => BoundNow(x, sub, user) && privs == AllOf(x.dir, user)
    case _ => true
  }

  ghost predicate InFlightReady(x: World) {
    forall w :: w in x.resolvers ==> Ready(x, x.resolvers[w])
  }

  // ---------- Ready resolvers keep the cache current ----------

  lemma ReadyStep(x: World, a: Action)
    requires Enabled(x, a) && !a.Change? && CacheCurrent(x) && InFlightReady(x)
    ensures CacheCurrent(Act(x, a)) && InFlightReady(Act(x, a))
  {
    var y := Act(x, a);
    forall w | w in y.resolvers ensures Ready(y, y.resolvers[w]) {
      if w in x.resolvers { assert Ready(x, x.resolvers[w]); }
    }
  }

  lemma {:induction false} ReadyRun(x: World, actions: seq<Action>)
    requires CanRun(x, actions) && Quiet(actions) && CacheCurrent(x) && InFlightReady(x)
    ensures CacheCurrent(After(x, actions))
    decreases |actions|
  {
    if actions != [] {
      ReadyStep(x, actions[0]);
      ReadyRun(Act(x, actions[0]), actions[1..]);
    }
  }

  // ---------- Any other resolver can spoil it ----------

  /** The resolver's own remaining steps. */
  function Rest(r: Resolver, w: nat): seq<Action> {
    match r
    case Resolved(_, _, _) => [ReadDirect(w), ReadRoleKeys(w), Store(w)]
    case HalfRead(_, _, _, _) => [ReadRoleKeys(w), Store(w)]
    case Loaded(_, _, _, _) => [Store(w)]
    case _ => []
  }

  lemma {:induction false} UnreadySpoils(x: World, w: nat)
    requires w in x.resolvers && !Ready(x, x.resolvers[w])
    ensures var rest := Rest(x.resolvers[w], w);
      Quiet(rest) && CanRun(x, rest) && !CacheCurrent(After(x, rest))
    decreases |Rest(x.resolvers[w], w)|
  {
    var r := x.resolvers[w];
    var rest := Rest(r, w);
    var y := Act(x, rest[0]);
    if r.Loaded? {
      assert y.cache.entries[r.sub].user == r.user && y.cache.entries[r.sub].privs == r.privs;
      assert CanRun(y, rest[1..]) && After(x, rest) == After(y, rest[1..]) == y;
    } else {
      assert rest[1..] == Rest(y.resolvers[w], w);
      UnreadySpoils(y, w);
    }
  }

  /**
  An emptied cache holds only current answers, over every continuation without a change, if
  and only if every resolver in flight is ready.
   */
  lemma InvalidationHoldsIff(x: World)
    requires x.cache.entries == map[]
    ensures (forall actions :: CanRun(x, actions) && Quiet(actions) ==> CacheCurrent(After(x, actions))) <==> InFlightReady(x)
  {
    if InFlightReady(x) {
      forall actions | CanRun(x, actions) && Quiet(actions) ensures CacheCurrent(After(x, actions)) {
        ReadyRun(x, actions);
      }
    } else {
      var w :| w in x.resolvers && !Ready(x, x.resolvers[w]);
      UnreadySpoils(x, w);
    }
  }

  /** The stale run is such a failure: right after its invalidation, the resolver is ready only if the change was none to it. */
  lemma StaleRunIsUnready(run: seq<World>, actions: seq<Action>, early: Directory, late: Directory, sub: Sub, user: UserId)
    requires StaleRun(run, actions, early, late, sub, user)
    ensures run[7].cache.entries == map[]
    ensures InFlightReady(run[7]) <==> BoundNow(run[7], sub, user) && AllOf(early, user) == AllOf(late, user)
  {
    assert 0 in run[7].resolvers;
  }
}
