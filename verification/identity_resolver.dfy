/**
ResolveCaller and first sign-in linking as the source writes them, run one request at a
time, together with the role and privilege handlers of internal/server that invalidate
the cache after a successful change.

The result: a cached answer is always the current answer, over every serial run. Creating
a role skips the invalidation and needs none; merging or deleting users and updating or deleting
identities skip it too, and there the cache stays current exactly when it holds no entry that is
concerned.
 */
module IdentityResolver {
  import opened Authorization
  import opened Common
  import opened Lifecycle
  import opened IdentityCache
  import Directory

  const OIDC := "oidc"

  datatype Binding = Binding(user: UserId, source: string)

  datatype ResolveError = NotLinked | EmailNotVerified | NoUserMatchesEmail | UserAlreadyLinked | UserNotPending

  datatype Answer = Caller(user: UserId, privs: set<Key>) | Unresolved(error: ResolveError)

  datatype State = State(
    bindings: map<Sub, Binding>,
    status: map<UserId, UserStatus>,
    tables: Tables,
    cache: Contents)

  datatype Request =
    | Resolve(sub: Sub, email: string, now: int)
    | Handle(step: Step)
    | Configure(ttl: int)

  // ---------- First sign-in ----------

  predicate LinkedAlready(s: State, u: UserId) {
    exists sub :: sub in s.bindings && s.bindings[sub] == Binding(u, OIDC)
  }

  /** The error of linkBySub, or None when the binding is created for user u. */
  ghost function LinkError(s: State, email: string): Option<ResolveError> {
    if email == "" then Some(EmailNotVerified)
    else if u :| HasEmail(s.tables, u, email) then
      if LinkedAlready(s, u) then Some(UserAlreadyLinked)
      else if u !in s.status || s.status[u] != Pending then Some(UserNotPending)
      else None
    else Some(NoUserMatchesEmail)
  }

  ghost function Linked(s: State, sub: Sub, u: UserId): State {
    s.(bindings := s.bindings[sub := Binding(u, OIDC)], status := s.status[u := Active])
  }

  // ---------- One request ----------

  ghost function Remember(s: State, sub: Sub, now: int): (State, Answer)
    requires sub in s.bindings
  {
    var u := s.bindings[sub].user;
    var privs := Effective(s.tables, u);
    (s.(cache := AfterSet(s.cache, sub, u, privs, now)), Caller(u, privs))
  }

  ghost function ResolveReply(s: State, sub: Sub, email: string, now: int): (State, Answer) {
    if sub == "" then (s, Unresolved(NotLinked))
    else
      var hit := Fresh(s.cache, sub, now);
      if hit.Some? then (s, Caller(hit.value.user, hit.value.privs))
      else
        var s1 := s.(cache := AfterGet(s.cache, sub, now));
        if sub in s1.bindings then Remember(s1, sub, now)
        else if LinkError(s1, email).Some? then (s1, Unresolved(LinkError(s1, email).value))
        else if u :| HasEmail(s1.tables, u, email) then Remember(Linked(s1, sub, u), sub, now)
        else (s1, Unresolved(NoUserMatchesEmail))
  }

  ghost function Serve(s: State, reg: set<Key>, r: Request): State {
    match r
    case Resolve(sub, email, now) => ResolveReply(s, sub, email, now).0
    case Handle(step) =>
      var out := Apply(s.tables, reg, step);
      var s1 := s.(tables := out.tables);
      if out.outcome == Done && !step.CreateRole? then s1.(cache := s1.cache.(entries := map[])) else s1
    case Configure(ttl) => s.(cache := s.cache.(ttl := EffectiveTTL(ttl)))
  }

  ghost function ServeAll(s: State, reg: set<Key>, rs: seq<Request>): State
    decreases |rs|
  {
    if rs == [] then s else ServeAll(Serve(s, reg, rs[0]), reg, rs[1..])
  }

  // ---------- Coherence ----------

  ghost predicate Current(s: State, sub: Sub, e: Entry) {
    sub in s.bindings && s.bindings[sub].user == e.user && e.privs == Effective(s.tables, e.user)
  }

  ghost predicate Coherent(s: State) {
    forall sub :: sub in s.cache.entries ==> Current(s, sub, s.cache.entries[sub])
  }

  /** A role or privilege handler's step; bootstrap runs before the server serves, and deleting users has no such handler. */
  predicate Servable(r: Request) {
    r.Handle? ==> !r.step.Bootstrap? && !r.step.DeleteUser?
  }

  /** A fresh role is held by nobody and carries nothing. */
  lemma CreateRoleChangesNobody(t: Tables, reg: set<Key>, s: Step, u: UserId)
    requires s.CreateRole?
    ensures Effective(Apply(t, reg, s).tables, u) == Effective(t, u)
  {
    var after := Apply(t, reg, s).tables;
    assert after == t.(roles := after.roles);
    assert forall r, k :: ViaRole(after, u, r, k) <==> ViaRole(t, u, r, k);
  }

  lemma GetKeepsCoherent(s: State, sub: Sub, now: int)
    requires Coherent(s)
    ensures Coherent(s.(cache := AfterGet(s.cache, sub, now)))
  {
  }

  lemma LinkKeepsCoherent(s: State, sub: Sub, u: UserId)
    requires Coherent(s) && sub !in s.bindings
    ensures Coherent(Linked(s, sub, u))
  {
  }

  ghost predicate AnswerCurrent(s: State, sub: Sub, a: Answer) {
    a.Caller? ==> sub in s.bindings && s.bindings[sub].user == a.user && a.privs == Effective(s.tables, a.user)
  }

  lemma RememberKeepsCoherent(s: State, sub: Sub, now: int)
    requires Coherent(s) && sub in s.bindings
    ensures Coherent(Remember(s, sub, now).0) && AnswerCurrent(Remember(s, sub, now).0, sub, Remember(s, sub, now).1)
  {
  }

  /** With a coherent cache, resolving keeps it coherent and answers with what is current. */
  lemma ResolveKeepsCoherent(s: State, sub: Sub, email: string, now: int)
    requires Coherent(s)
    ensures
      var (s', a) := ResolveReply(s, sub, email, now);
      Coherent(s') && AnswerCurrent(s', sub, a)
  {
    if Fresh(s.cache, sub, now).Some? {
      assert Current(s, sub, s.cache.entries[sub]);
    } else {
      var s1 := s.(cache := AfterGet(s.cache, sub, now));
      GetKeepsCoherent(s, sub, now);
      if sub in s1.bindings {
        RememberKeepsCoherent(s1, sub, now);
      } else {
        forall u
          ensures
            var (s', a) := Remember(Linked(s1, sub, u), sub, now);
            Coherent(s') && AnswerCurrent(s', sub, a)
        {
          LinkKeepsCoherent(s1, sub, u);
          RememberKeepsCoherent(Linked(s1, sub, u), sub, now);
        }
      }
    }
  }

  lemma HandleKeepsCoherent(s: State, reg: set<Key>, step: Step)
    requires Coherent(s) && !step.Bootstrap? && !step.DeleteUser?
    ensures Coherent(Serve(s, reg, Handle(step)))
  {
    var s' := Serve(s, reg, Handle(step));
    forall sub | sub in s'.cache.entries ensures Current(s', sub, s'.cache.entries[sub]) {
      assert Current(s, sub, s.cache.entries[sub]);
      if step.CreateRole? { CreateRoleChangesNobody(s.tables, reg, step, s.cache.entries[sub].user); }
    }
  }

  lemma ServeKeepsCoherent(s: State, reg: set<Key>, r: Request)
    requires Coherent(s) && Servable(r)
    ensures Coherent(Serve(s, reg, r))
  {
    match r
    case Resolve(sub, email, now) => ResolveKeepsCoherent(s, sub, email, now);
    case Handle(step) => HandleKeepsCoherent(s, reg, step);
    case Configure(ttl) =>
      var s' := Serve(s, reg, r);
      forall sub | sub in s'.cache.entries ensures Current(s', sub, s'.cache.entries[sub]) {
        assert Current(s, sub, s.cache.entries[sub]);
      }
  }

  lemma {:induction false} SerialRunsStayCoherent(s: State, reg: set<Key>, rs: seq<Request>)
    requires Coherent(s)
    requires forall i :: 0 <= i < |rs| ==> Servable(rs[i])
    ensures Coherent(ServeAll(s, reg, rs))
    decreases |rs|
  {
    if rs != [] {
      ServeKeepsCoherent(s, reg, rs[0]);
      SerialRunsStayCoherent(Serve(s, reg, rs[0]), reg, rs[1..]);
    }
  }

  /** So a caller is never told anything but the current binding and privileges. */
  lemma SerialAnswersAreCurrent(s: State, reg: set<Key>, rs: seq<Request>, sub: Sub, email: string, now: int)
    requires Coherent(s)
    requires forall i :: 0 <= i < |rs| ==> Servable(rs[i])
    ensures
      var (s', a) := ResolveReply(ServeAll(s, reg, rs), sub, email, now);
      AnswerCurrent(s', sub, a)
  {
    SerialRunsStayCoherent(s, reg, rs);
    ResolveKeepsCoherent(ServeAll(s, reg, rs), sub, email, now);
  }

  // ---------- Merging users does not invalidate ----------

  /** The row that binds the subject, by its unique oidc_sub column. */
  function Subject(sub: Sub): Directory.Identity {
    Directory.Identity(OIDC, sub)
  }

  /** What the merge sees of this state: the statuses decide it, and its identity update moves the bindings. */
  function AsDirectory(s: State): Directory.Db {
    Directory.Db(s.status,
                 map sub | sub in s.bindings :: Subject(sub) := s.bindings[sub].user,
                 {}, map[], {}, {}, map[], {})
  }

  /** The state after Directory's merge, accepted or refused; the cache is left alone. */
  function AfterMerge(s: State, surviving: UserId, retiring: UserId): State {
    var db := Directory.MergeReply(AsDirectory(s), surviving, retiring).db;
    s.(status := db.users,
       bindings := map sub | sub in s.bindings ::
         s.bindings[sub].(user := db.identities[Subject(sub)]))
  }

  ghost predicate MergeRefused(s: State, surviving: UserId, retiring: UserId) {
    Directory.MergeReply(AsDirectory(s), surviving, retiring).outcome.Refused?
  }

  lemma OwnerAfterMerge(s: State, surviving: UserId, retiring: UserId, sub: Sub)
    requires sub in s.bindings
    ensures var owner := Directory.MergeReply(AsDirectory(s), surviving, retiring).db.identities[Subject(sub)];
      owner == if !MergeRefused(s, surviving, retiring) && s.bindings[sub].user == retiring
               then surviving else s.bindings[sub].user
  {
    assert Subject(sub) in AsDirectory(s).identities;
  }

  /** An accepted merge retires the one user and binds their subjects to the other, each by the source it had. */
  lemma AfterMergeIs(s: State, surviving: UserId, retiring: UserId)
    ensures var after := AfterMerge(s, surviving, retiring);
      && after == s.(status := after.status, bindings := after.bindings)
      && after.status == (if MergeRefused(s, surviving, retiring) then s.status else s.status[retiring := Merged])
      && after.bindings.Keys == s.bindings.Keys
      && forall sub :: sub in s.bindings ==>
           && after.bindings[sub].source == s.bindings[sub].source
           && after.bindings[sub].user == if !MergeRefused(s, surviving, retiring) && s.bindings[sub].user == retiring
                                          then surviving else s.bindings[sub].user
  {
    forall sub | sub in s.bindings { OwnerAfterMerge(s, surviving, retiring, sub); }
  }

  /** A merge keeps the cache coherent if and only if it is refused or nobody is cached as the retiring user. */
  lemma MergeCoherentIff(s: State, surviving: UserId, retiring: UserId)
    requires Coherent(s)
    ensures Coherent(AfterMerge(s, surviving, retiring)) <==>
      || Directory.MergeReply(AsDirectory(s), surviving, retiring).outcome.Refused?
      || forall sub :: sub in s.cache.entries ==> s.cache.entries[sub].user != retiring
  {
    var s' := AfterMerge(s, surviving, retiring);
    var db := AsDirectory(s);
    forall sub | sub in s.bindings
      ensures db.identities[Subject(sub)] == s.bindings[sub].user
    {
      assert Subject(sub) in db.identities;
    }
    forall sub | sub in s.cache.entries
      ensures Current(s', sub, s.cache.entries[sub]) <==>
        || Directory.MergeReply(db, surviving, retiring).outcome.Refused?
        || s.cache.entries[sub].user != retiring
    {
      assert Current(s, sub, s.cache.entries[sub]);
    }
  }

  const CACHED_LEAVER := State(
    map["sub" := Binding("leaver", OIDC)],
    map["keeper" := Active, "leaver" := Active],
    Tables(map["keeper" := "k@example.org", "leaver" := "l@example.org"], map[], {}, {}, {}),
    Contents(map["sub" := Entry("leaver", {}, DEFAULT_TTL)], DEFAULT_TTL))

  /** After this merge the cache still answers with the retired user. */
  lemma MergeLeavesStaleEntry()
    ensures Coherent(CACHED_LEAVER) && !Coherent(AfterMerge(CACHED_LEAVER, "keeper", "leaver"))
    ensures Fresh(AfterMerge(CACHED_LEAVER, "keeper", "leaver").cache, "sub", 0).value.user == "leaver"
  {
    assert Effective(CACHED_LEAVER.tables, "leaver") == {};
    MergeCoherentIff(CACHED_LEAVER, "keeper", "leaver");
    assert CACHED_LEAVER.cache.entries["sub"].user == "leaver";
  }

  // ---------- Nor does deleting a user ----------

  /** The user's rows go with them. */
  function AfterDelete(s: State, user: UserId): State {
    s.(status := s.status - {user},
       bindings := (map sub | sub in s.bindings && s.bindings[sub].user != user :: s.bindings[sub]),
       tables := Effect(s.tables, DeleteUser(user, false)))
  }

  /** Exactly the user's status, subjects and privileges go. */
  lemma AfterDeleteIs(s: State, user: UserId)
    ensures var after := AfterDelete(s, user);
      && after.cache == s.cache
      && after.status.Keys == s.status.Keys - {user} && (forall u :: u in after.status ==> after.status[u] == s.status[u])
      && (forall sub :: sub in after.bindings <==> sub in s.bindings && s.bindings[sub].user != user)
      && (forall sub :: sub in after.bindings ==> after.bindings[sub] == s.bindings[sub])
      && forall v, k :: Holds(after.tables, v, k) <==> v != user && Holds(s.tables, v, k)
  {
    forall v, k { AfterDeleteUser(s.tables, user, false, v, k); }
  }

  lemma OthersKeepTheirs(t: Tables, user: UserId, v: UserId)
    requires v != user
    ensures Effective(Effect(t, DeleteUser(user, false)), v) == Effective(t, v)
  {
    forall k ensures Holds(Effect(t, DeleteUser(user, false)), v, k) <==> Holds(t, v, k) {
      AfterDeleteUser(t, user, false, v, k);
    }
  }

  lemma EntryAfterDelete(s: State, user: UserId, sub: Sub, e: Entry)
    requires Current(s, sub, e)
    ensures Current(AfterDelete(s, user), sub, e) <==> e.user != user
  {
    if e.user != user { OthersKeepTheirs(s.tables, user, e.user); }
  }

  /** Deleting a user keeps the cache coherent if and only if nobody is cached as that user. */
  lemma DeleteCoherentIff(s: State, user: UserId)
    requires Coherent(s)
    ensures Coherent(AfterDelete(s, user)) <==> forall sub :: sub in s.cache.entries ==> s.cache.entries[sub].user != user
  {
    forall sub | sub in s.cache.entries
      ensures Current(AfterDelete(s, user), sub, s.cache.entries[sub]) <==> s.cache.entries[sub].user != user
    {
      EntryAfterDelete(s, user, sub, s.cache.entries[sub]);
    }
  }

  // ---------- Nor does updating or deleting an identity ----------

  /** Directory's identity update, on the row that binds sub; blank fields keep what is stored. */
  function AfterRebind(s: State, sub: Sub, user: UserId, newSub: Sub): State {
    var reply := Directory.RebindReply(AsDirectory(s), Subject(sub), user, "", newSub);
    if reply.outcome.Refused? || sub !in s.bindings then s
    else
      var key := if newSub == "" then sub else newSub;
      var owner := if user == "" then s.bindings[sub].user else user;
      s.(bindings := (s.bindings - {sub})[key := s.bindings[sub].(user := owner)])
  }

  /** An accepted update moves that one subject, which keeps its source. */
  lemma AfterRebindIs(s: State, sub: Sub, user: UserId, newSub: Sub)
    requires sub in s.bindings && !Directory.RebindReply(AsDirectory(s), Subject(sub), user, "", newSub).outcome.Refused?
    ensures var after := AfterRebind(s, sub, user, newSub);
      var key := if newSub == "" then sub else newSub;
      && after == s.(bindings := after.bindings)
      && after.bindings.Keys == s.bindings.Keys - {sub} + {key}
      && after.bindings[key] == Binding(if user == "" then s.bindings[sub].user else user, s.bindings[sub].source)
      && forall other :: other in s.bindings && other != sub && other != key ==> after.bindings[other] == s.bindings[other]
  {
  }

  function AfterUnbind(s: State, sub: Sub): State {
    s.(bindings := s.bindings - {sub})
  }

  lemma SubjectsAgree(s: State)
    ensures forall sub :: Subject(sub) in AsDirectory(s).identities <==> sub in s.bindings
    ensures forall sub :: sub in s.bindings ==> AsDirectory(s).identities[Subject(sub)] == s.bindings[sub].user
  {
  }

  /** Every cached subject is bound to the same user as before. */
  ghost predicate KeepsOwners(s: State, bindings: map<Sub, Binding>) {
    forall sub :: sub in s.cache.entries ==>
      sub in bindings && (sub in s.bindings ==> bindings[sub].user == s.bindings[sub].user)
  }

  lemma CoherentIffKeepsOwners(s: State, bindings: map<Sub, Binding>)
    requires Coherent(s)
    ensures Coherent(s.(bindings := bindings)) <==> KeepsOwners(s, bindings)
  {
    var s' := s.(bindings := bindings);
    forall sub | sub in s.cache.entries
      ensures Current(s', sub, s.cache.entries[sub]) <==>
        sub in bindings && (sub in s.bindings ==> bindings[sub].user == s.bindings[sub].user)
    {
      assert Current(s, sub, s.cache.entries[sub]);
    }
  }

  ghost predicate CachedAreBound(s: State) {
    forall sub :: sub in s.cache.entries ==> sub in s.bindings
  }

  lemma CoherentAreBound(s: State)
    requires Coherent(s)
    ensures CachedAreBound(s)
  {
  }

  /** The update keeps the subject and its user. */
  predicate SameOwner(s: State, sub: Sub, user: UserId, newSub: Sub) {
    (newSub == "" || newSub == sub) && (user == "" || (sub in s.bindings && user == s.bindings[sub].user))
  }

  lemma RebindKeepsOwnersIff(s: State, sub: Sub, user: UserId, newSub: Sub)
    requires CachedAreBound(s)
    ensures KeepsOwners(s, AfterRebind(s, sub, user, newSub).bindings) <==>
      || Directory.RebindReply(AsDirectory(s), Subject(sub), user, "", newSub).outcome.Refused?
      || sub !in s.cache.entries || SameOwner(s, sub, user, newSub)
  {
    SubjectsAgree(s);
  }

  /**
  An identity update keeps the cache coherent if and only if it is refused, the subject is not
  cached, or it keeps the subject and its user.
   */
  lemma RebindCoherentIff(s: State, sub: Sub, user: UserId, newSub: Sub)
    requires Coherent(s)
    ensures Coherent(AfterRebind(s, sub, user, newSub)) <==>
      || Directory.RebindReply(AsDirectory(s), Subject(sub), user, "", newSub).outcome.Refused?
      || sub !in s.cache.entries || SameOwner(s, sub, user, newSub)
  {
    CoherentAreBound(s);
    RebindKeepsOwnersIff(s, sub, user, newSub);
    CoherentIffKeepsOwners(s, AfterRebind(s, sub, user, newSub).bindings);
  }

  lemma UnbindKeepsOwnersIff(s: State, sub: Sub)
    requires CachedAreBound(s)
    ensures KeepsOwners(s, s.bindings - {sub}) <==> sub !in s.cache.entries
  {
  }

  /** Deleting an identity keeps it coherent if and only if the subject is not cached. */
  lemma UnbindCoherentIff(s: State, sub: Sub)
    requires Coherent(s)
    ensures Coherent(AfterUnbind(s, sub)) <==> sub !in s.cache.entries
  {
    CoherentAreBound(s);
    UnbindKeepsOwnersIff(s, sub);
    CoherentIffKeepsOwners(s, s.bindings - {sub});
  }

  /** Each of them leaves a stale entry for the cached leaver. */
  lemma CachedLeaverGoesStale()
    ensures !Coherent(AfterDelete(CACHED_LEAVER, "leaver"))
    ensures !Coherent(AfterUnbind(CACHED_LEAVER, "sub"))
    ensures !Coherent(AfterRebind(CACHED_LEAVER, "sub", "keeper", ""))
  {
    MergeLeavesStaleEntry();
    SubjectsAgree(CACHED_LEAVER);
    assert CACHED_LEAVER.cache.entries["sub"].user == "leaver";
    DeleteCoherentIff(CACHED_LEAVER, "leaver");
    UnbindCoherentIff(CACHED_LEAVER, "sub");
    RebindCoherentIff(CACHED_LEAVER, "sub", "keeper", "");
  }

  // ---------- The resolver as the service runs it ----------

  class Resolver {
    var bindings: map<Sub, Binding>
    var status: map<UserId, UserStatus>
    var tables: Tables
    const cache: Cache

    ghost function Value(): State
      reads this, cache
    {
      State(bindings, status, tables, cache.Value())
    }

    constructor (initialTables: Tables)
      ensures fresh(cache)
      ensures Value() == State(map[], map[], initialTables, Contents(map[], DEFAULT_TTL)) && Coherent(Value())
    {
      bindings, status, tables := map[], map[], initialTables;
      cache := new Cache();
    }

    method LinkBySub(sub: Sub, email: string) returns (user: Option<UserId>, error: ResolveError)
      requires forall u, v :: HasEmail(tables, u, email) && HasEmail(tables, v, email) ==> u == v
      requires sub !in bindings
      modifies this
      ensures user.None? <==> LinkError(old(Value()), email).Some?
      ensures user.None? ==> Value() == old(Value()) && error == LinkError(old(Value()), email).value
      ensures user.Some? ==> HasEmail(tables, user.value, email) && Value() == Linked(old(Value()), sub, user.value)
    {
      if email == "" { return None, EmailNotVerified; }
      if u :| u in tables.users && tables.users[u] == email {
        assert HasEmail(tables, u, email);
        if exists other :: other in bindings && bindings[other] == Binding(u, OIDC) { return None, UserAlreadyLinked; }
        if u !in status || status[u] != Pending { return None, UserNotPending; }
        bindings := bindings[sub := Binding(u, OIDC)];
        status := status[u := Active];
        return Some(u), NotLinked;
      }
      return None, NoUserMatchesEmail;
    }

    /**
    Either the cached answer or a fresh read that is then cached. With a coherent cache the
    answer is the current one, and the cache stays coherent.
     */
    method ResolveCaller(sub: Sub, email: string, now: int) returns (answer: Answer)
      requires forall u, v :: HasEmail(tables, u, email) && HasEmail(tables, v, email) ==> u == v
      modifies this, cache
      ensures (Value(), answer) == ResolveReply(old(Value()), sub, email, now)
      ensures tables == old(tables)
      ensures old(Coherent(Value())) ==> Coherent(Value())
      ensures old(Coherent(Value())) ==> AnswerCurrent(Value(), sub, answer)
      ensures sub != "" && sub in old(bindings) ==> answer.Caller?
      ensures sub != "" && sub in old(bindings) && old(Coherent(Value())) ==>
        answer == Caller(old(bindings)[sub].user, Effective(tables, old(bindings)[sub].user))
    {
      ghost var before := Value();
      if Coherent(before) { ResolveKeepsCoherent(before, sub, email, now); }
      if sub == "" { return Unresolved(NotLinked); }
      var hit := cache.Get(sub, now);
      if hit.Some? { return Caller(hit.value.user, hit.value.privs); }
      var user: UserId;
      if sub in bindings {
        user := bindings[sub].user;
      } else {
        var found, error := LinkBySub(sub, email);
        if found.None? { return Unresolved(error); }
        user := found.value;
      }
      var privs := Effective(tables, user);
      cache.Set(sub, user, privs, now);
      return Caller(user, privs);
    }
  }
}
