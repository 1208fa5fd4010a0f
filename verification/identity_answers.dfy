/**
What ResolveCaller answers, by the state it finds: who gets an answer at all, which one, with
what error the others are turned away, and what signing in once is good for over every later
serial run.
 */
module IdentityAnswers {
  import opened Authorization
  import opened Lifecycle
  import opened IdentityCache
  import opened IdentityResolver

  /** The unique email column. */
  ghost predicate OneUserPerEmail(t: Tables, email: string) {
    forall u, v :: u in t.users && v in t.users && t.users[u] == email && t.users[v] == email ==> u == v
  }

  ghost predicate UniqueEmails(t: Tables) {
    forall u, v :: u in t.users && v in t.users && t.users[u] == t.users[v] ==> u == v
  }

  predicate IsCached(s: State, sub: Sub, now: int) {
    sub in s.cache.entries && now < s.cache.entries[sub].expires
  }

  /** A sign-in with this email links user u. */
  ghost predicate SignsIn(s: State, email: string, u: UserId) {
    && email != "" && u in s.tables.users && s.tables.users[u] == email
    && u in s.status && s.status[u] == Pending
    && forall sub :: sub in s.bindings && s.bindings[sub].source == OIDC ==> s.bindings[sub].user != u
  }

  // ---------- Who is answered ----------

  /** A subject gets an answer exactly if it is cached, or bound, or its email names a PENDING user without a sign-in. */
  lemma AnswersIff(s: State, sub: Sub, email: string, now: int)
    requires OneUserPerEmail(s.tables, email)
    ensures ResolveReply(s, sub, email, now).1.Caller? <==>
      sub != "" && (IsCached(s, sub, now) || sub in s.bindings || exists u :: SignsIn(s, email, u))
  {
    LinksIff(s, email);
  }

  lemma LinksIff(s: State, email: string)
    requires OneUserPerEmail(s.tables, email)
    ensures LinkError(s, email).None? <==> exists u :: SignsIn(s, email, u)
    ensures forall c: Contents :: LinkError(s.(cache := c), email) == LinkError(s, email)
  {
    if u :| u in s.tables.users && s.tables.users[u] == email && email != "" {
      assert HasEmail(s.tables, u, email);
      forall c: Contents ensures LinkError(s.(cache := c), email) == LinkError(s, email) {
        assert LinkedAlready(s.(cache := c), u) <==> LinkedAlready(s, u);
      }
      if LinkError(s, email).None? { assert SignsIn(s, email, u); }
    }
  }

  /** Each refusal has the error of the first condition that fails. */
  lemma RefusalIs(s: State, sub: Sub, email: string, now: int)
    requires OneUserPerEmail(s.tables, email) && ResolveReply(s, sub, email, now).1.Unresolved?
    ensures ResolveReply(s, sub, email, now).1.error ==
      if sub == "" then NotLinked
      else if email == "" then EmailNotVerified
      else if forall u :: u in s.tables.users ==> s.tables.users[u] != email then NoUserMatchesEmail
      else if exists other :: other in s.bindings && s.bindings[other].source == OIDC
                && s.bindings[other].user in s.tables.users && s.tables.users[s.bindings[other].user] == email
      then UserAlreadyLinked
      else UserNotPending
    ensures var after := ResolveReply(s, sub, email, now).0;
      && after == s.(cache := after.cache) && after.cache.ttl == s.cache.ttl
      && after.cache.entries == (if sub == "" then s.cache.entries else s.cache.entries - {sub})
  {
    LinksIff(s, email);
    if u :| u in s.tables.users && s.tables.users[u] == email {
      assert HasEmail(s.tables, u, email);
      assert LinkedAlready(s, u) <==> exists other :: other in s.bindings && s.bindings[other] == Binding(u, OIDC);
    }
  }

  // ---------- With what ----------

  /** A cached subject gets the entry, and nothing changes. */
  lemma CachedAnswer(s: State, sub: Sub, email: string, now: int)
    requires sub != "" && IsCached(s, sub, now)
    ensures ResolveReply(s, sub, email, now) == (s, Caller(s.cache.entries[sub].user, s.cache.entries[sub].privs))
  {
  }

  /** The subject is cached as that user with these keys for one time to live from now; the other entries stay. */
  ghost predicate CachedAs(s: State, after: State, sub: Sub, user: UserId, privs: set<Key>, now: int) {
    && after.cache.ttl == s.cache.ttl
    && after.cache.entries.Keys == s.cache.entries.Keys + {sub}
    && after.cache.entries[sub] == Entry(user, privs, now + s.cache.ttl)
    && forall other :: other in s.cache.entries && other != sub ==> after.cache.entries[other] == s.cache.entries[other]
  }

  /** A bound subject that is not cached gets its user and what that user holds, and is cached. */
  lemma BoundAnswer(s: State, sub: Sub, email: string, now: int)
    requires sub != "" && !IsCached(s, sub, now) && sub in s.bindings
    ensures var (after, answer) := ResolveReply(s, sub, email, now);
      var user := s.bindings[sub].user;
      && answer == Caller(user, Effective(s.tables, user))
      && CachedAs(s, after, sub, user, answer.privs, now)
      && after == s.(cache := after.cache)
  {
  }

  /** A first sign-in binds the subject, makes the user ACTIVE and caches them; nobody else is touched. */
  lemma FirstAnswer(s: State, sub: Sub, email: string, now: int, u: UserId)
    requires sub != "" && !IsCached(s, sub, now) && sub !in s.bindings
    requires OneUserPerEmail(s.tables, email) && SignsIn(s, email, u)
    ensures var (after, answer) := ResolveReply(s, sub, email, now);
      && answer == Caller(u, Effective(s.tables, u))
      && CachedAs(s, after, sub, u, answer.privs, now)
      && after.tables == s.tables
      && after.bindings == s.bindings[sub := Binding(u, OIDC)]
      && after.status.Keys == s.status.Keys && after.status[u] == Active
      && forall v :: v in s.status && v != u ==> after.status[v] == s.status[v]
  {
    LinksIff(s, email);
  }

  // ---------- Over every serial run ----------

  /** Bindings, ACTIVE users and the user table outlive every request. */
  ghost predicate Lasts(s: State, later: State) {
    && (forall sub :: sub in s.bindings ==> sub in later.bindings && later.bindings[sub] == s.bindings[sub])
    && (forall u :: u in s.status && s.status[u] == Active ==> u in later.status && later.status[u] == Active)
    && later.tables.users == s.tables.users
  }

  lemma HandlerKeepsUsers(t: Tables, reg: set<Key>, step: Step)
    requires !step.Bootstrap? && !step.DeleteUser?
    ensures Apply(t, reg, step).tables.users == t.users
  {
  }

  lemma ResolveLasts(s: State, sub: Sub, email: string, now: int)
    ensures Lasts(s, ResolveReply(s, sub, email, now).0)
  {
  }

  lemma RequestLasts(s: State, reg: set<Key>, r: Request)
    requires Servable(r)
    ensures Lasts(s, Serve(s, reg, r))
  {
    match r
    case Resolve(sub, email, now) => ResolveLasts(s, sub, email, now);
    case Handle(step) => HandlerKeepsUsers(s.tables, reg, step);
    case Configure(_) =>
  }

  /** A request binds nothing, or one subject to a user who had none. */
  lemma RequestBinds(s: State, reg: set<Key>, r: Request)
    requires UniqueEmails(s.tables)
    ensures Serve(s, reg, r).bindings == s.bindings ||
      exists u :: r.Resolve? && SignsIn(s, r.email, u) && Serve(s, reg, r).bindings == s.bindings[r.sub := Binding(u, OIDC)]
  {
    if r.Resolve? && r.sub != "" && !IsCached(s, r.sub, r.now) && r.sub !in s.bindings {
      LinksIff(s, r.email);
      if u :| SignsIn(s, r.email, u) { FirstAnswer(s, r.sub, r.email, r.now, u); }
    }
  }

  lemma {:induction false} RunLasts(s: State, reg: set<Key>, rs: seq<Request>)
    requires forall i :: 0 <= i < |rs| ==> Servable(rs[i])
    ensures Lasts(s, ServeAll(s, reg, rs))
    decreases |rs|
  {
    if rs != [] {
      RequestLasts(s, reg, rs[0]);
      RunLasts(Serve(s, reg, rs[0]), reg, rs[1..]);
    }
  }

  /** In a coherent state a bound subject is always answered, cached or not, with its user's current keys. */
  lemma BoundIsAnswered(s: State, sub: Sub, email: string, now: int)
    requires Coherent(s) && sub != "" && sub in s.bindings
    ensures var (after, answer) := ResolveReply(s, sub, email, now);
      var user := s.bindings[sub].user;
      && answer == Caller(user, Effective(s.tables, user))
      && sub in after.cache.entries && after.cache.entries[sub].user == user
      && after.cache.entries[sub].privs == answer.privs
  {
    if IsCached(s, sub, now) {
      assert Current(s, sub, s.cache.entries[sub]);
      CachedAnswer(s, sub, email, now);
    } else {
      BoundAnswer(s, sub, email, now);
    }
  }

  /**
  Signing in once is enough: after it, whatever is served in between, the subject is answered
  with the same user, who is still ACTIVE, and with exactly the keys that user holds by then.
   */
  lemma ReturningUser(
      s: State, reg: set<Key>, sub: Sub, email: string, now: int, u: UserId, rs: seq<Request>, email': string, now': int)
    requires Coherent(s) && sub != "" && sub !in s.bindings
    requires OneUserPerEmail(s.tables, email) && SignsIn(s, email, u)
    requires forall i :: 0 <= i < |rs| ==> Servable(rs[i])
    ensures var later := ServeAll(ResolveReply(s, sub, email, now).0, reg, rs);
      && ResolveReply(later, sub, email', now').1 == Caller(u, Effective(later.tables, u))
      && u in later.status && later.status[u] == Active
  {
    CoherentAreBound(s);
    FirstAnswer(s, sub, email, now, u);
    var first := ResolveReply(s, sub, email, now).0;
    ResolveKeepsCoherent(s, sub, email, now);
    SerialRunsStayCoherent(first, reg, rs);
    RunLasts(first, reg, rs);
    assert sub in first.bindings && first.bindings[sub] == Binding(u, OIDC);
    BoundIsAnswered(ServeAll(first, reg, rs), sub, email', now');
  }

  /** A change that a handler accepts shows in the very next answer, whatever was cached before it. */
  lemma ChangeIsSeen(s: State, reg: set<Key>, step: Step, sub: Sub, email: string, now: int)
    requires Coherent(s) && sub != "" && sub in s.bindings && !step.Bootstrap? && !step.DeleteUser?
    ensures var user := s.bindings[sub].user;
      var answer := ResolveReply(Serve(s, reg, Handle(step)), sub, email, now).1;
      && answer.Caller? && answer.user == user
      && forall k :: k in answer.privs <==> Holds(Apply(s.tables, reg, step).tables, user, k)
  {
    HandleKeepsCoherent(s, reg, step);
    BoundIsAnswered(Serve(s, reg, Handle(step)), sub, email, now);
  }

  /** The handlers empty the cache after every accepted change but a new role, and leave it alone otherwise. */
  lemma HandlerInvalidatesIff(s: State, reg: set<Key>, step: Step)
    ensures var accepted := Apply(s.tables, reg, step).outcome == Done;
      Serve(s, reg, Handle(step)).cache ==
        if accepted && !step.CreateRole? then Contents(map[], s.cache.ttl) else s.cache
  {
  }

  /** A new time to live leaves what is cached as it is, and counts from the next answer that is cached. */
  lemma NewTTLCounts(s: State, reg: set<Key>, d: int, sub: Sub, email: string, now: int)
    requires d > 0 && sub != "" && sub in s.bindings && !IsCached(s, sub, now)
    ensures var configured := Serve(s, reg, Configure(d));
      && configured == s.(cache := Contents(s.cache.entries, d))
      && IsCached(ResolveReply(configured, sub, email, now).0, sub, now + d - 1)
      && !IsCached(ResolveReply(configured, sub, email, now).0, sub, now + d)
  {
    BoundAnswer(Serve(s, reg, Configure(d)), sub, email, now);
  }

  // ---------- One subject per user ----------

  ghost predicate OneSubjectEach(s: State) {
    forall a, b :: a in s.bindings && b in s.bindings && s.bindings[a] == s.bindings[b] && s.bindings[a].source == OIDC ==> a == b
  }

  lemma RequestKeepsOneSubject(s: State, reg: set<Key>, r: Request)
    requires OneSubjectEach(s) && UniqueEmails(s.tables) && Servable(r)
    ensures OneSubjectEach(Serve(s, reg, r))
  {
    RequestBinds(s, reg, r);
  }

  /** No run of requests links a second subject to a user. */
  lemma {:induction false} RunKeepsOneSubject(s: State, reg: set<Key>, rs: seq<Request>)
    requires OneSubjectEach(s) && UniqueEmails(s.tables)
    requires forall i :: 0 <= i < |rs| ==> Servable(rs[i])
    ensures OneSubjectEach(ServeAll(s, reg, rs))
    decreases |rs|
  {
    if rs != [] {
      RequestKeepsOneSubject(s, reg, rs[0]);
      RequestLasts(s, reg, rs[0]);
      RunKeepsOneSubject(Serve(s, reg, rs[0]), reg, rs[1..]);
    }
  }
}
