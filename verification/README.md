# Custos verification model

A Dafny model of the access-management core of Apache Airavata Custos: who holds which
privilege and how the identity cache answers for it, how users are merged and projects
governed, how AMIE packets keep accounts, allocations and certificate names, how audit traces
become trees, and three smaller protocols (change requests, read policies, the device flow).

Tables are sets and maps, a transaction is one step, and runs are sequences of steps. Where the
service updates tables or nodes in place, a class with the same methods, checks and loops is
proved to follow the step relation, and the theorems about whole runs are proved of that
relation; the steps themselves are described row by row, by what they find and what they leave. Clocks, fresh identifiers, lower-casing, the answers of remote servers and failures
outside the tables are parameters. `dafny verify dfyconfig.toml` verifies everything.

| file | models |
|---|---|
| authorization.dfy, authority.dfy, authorization_service.dfy | privileges, roles, bootstrap, the last-holder guards; who may change them and who holds what afterwards |
| identity_cache.dfy, identity_staleness.dfy, identity_invalidation.dfy | the cache, concurrent resolvers, when an invalidation takes hold |
| identity_resolver.dfy, identity_answers.dfy, identity_refinement.dfy | serial runs, who is answered with what, the concurrent resolver left alone |
| link_graph.dfy, walk_ends.dfy, trace_tree.dfy, spans.dfy | walks over links, when they end, the trace tree and its mutable builder, span parents |
| keyed_table.dfy, directory.dfy, directory_steps.dfy, merge_packets.dfy, directory_service.dfy | user merge, project roles, the plain steps around them, merge packets |
| grants.dfy, grant_effects.dfy, grants_service.dfy | the service-unit ledger, what each packet leaves, stopping and resuming projects |
| common.dfy | what several components share |
| text.dfy, dn_sync.dfy, posix_names.dfy, provisioning.dfy | blank fields, certificate names, POSIX names and their allocation |
| change_requests.dfy, read_policy.dfy, device_flow.dfy | the event log, read policies, token polling |

Schema constraints the model relies on are those of internal/db/migrations: unique emails, one
row per (allocation, user), (cluster, user), (cluster, local user name) and (project, user),
unique (source, external id) identities, unique certificate names, and the foreign keys of
project memberships and allocations. Allocation memberships have no foreign key to users.

## Where the code and its promises part

Each of these is stated by a lemma on a concrete input, by the exact condition, or by both.

- The last-holder guards do not cover deleting a role or a user, taking a key out of a role that
  is held while another role that carries it is not, or a direct revoke of roles:manage.
- Effective privileges are read by two queries; with changes in between, an answer can be a set of
  keys that the user never had at once.
- An invalidation takes hold only if no resolver in flight has read what is out of date by then;
  merging or deleting a user and updating or deleting an identity do not invalidate at all.
- A merge packet merges again if the person and their global id are put back in between.
- A trace tree shows only the last of several rows written under one span, repeated as often as
  the row counts on its way to the root multiply. Rows stamped by the service always give a finite
  tree; only rows that come with ids of their own, two of one span naming different parents, can
  make it endless.
- A merge can leave a project without a PI row.
- A supplement that names another PI is refused only after its units are written, and again on
  every retry, so the ledger exceeds what was granted.
- Inactivating a project skips memberships whose user row is gone.
- A certificate name held by someone else is neither moved nor refused, but reported as added.
- A change request created in another status than PENDING, or moved to a log keyword, makes the
  log tell another story than the table.
- After slow_down the poll waits one second longer; section 3.5 of RFC 8628 asks for five.

## Model

| member | source | states |
|---|---|---|
| `Authorization.RunKeepsValid` | pkg/service/role.go:38-262 | Over every run of grant, revoke, create, update, delete and bootstrap steps, rows refer to existing users and roles, role names stay unique and every stored key is a registered one. |
| `Authorization.StepKeepsValid` | pkg/service/user_role.go:40-133 | The same for one step, accepted or refused. |
| `Authorization.BootstrapGivesHolder` | pkg/service/user_role.go:159-215 | A bootstrap with an email that goes through leaves one user holding every registered key, both meta keys among them. |
| `Authorization.BootstrapGrows` | pkg/service/user_role.go:219-303 | Bootstrap only ever adds grants, assignments and role contents, so it takes no key from anyone. |
| `Authorization.StepLosesHolderIffStrands` | pkg/service/user_role.go:307-371 | From any state with a holder of a meta key, a step loses the last holder if and only if it is of one of four kinds (deleting a non-system role, taking the key out of a role, revoking roles:manage directly, deleting a user) applied where no other source remains. |
| `Authorization.RunKeepsHolder` | pkg/service/user_role.go:307-371 | A run that never meets that condition keeps a holder. |
| `Authorization.MetaHolderSafety` | pkg/service/user_privilege.go:85-128 | No run of direct grants and revokes, role grants and revokes, role creation and update, additions to roles and bootstraps loses the last holder of privileges:grant; without direct revokes of roles:manage the same holds of that key. |
| `Authorization.BootstrapThenRun` | pkg/service/user_role.go:159-371 | Bootstrapped, the tables keep a holder of privileges:grant through every such run, and of roles:manage if none of its direct grants is revoked. |
| `Authorization.DeleteRoleCanStrand` | pkg/service/role.go:119-148 | A concrete state in which DeleteRole is accepted and removes the last holder of privileges:grant. |
| `Authorization.RemoveFromRoleCanStrand` | pkg/service/role.go:216-262 | A concrete state in which the role-counting guard lets the last holder go, because the other role that carries the key is held by nobody. |
| `Authorization.RevokePrivilegeCanStrandManage` | pkg/service/user_privilege.go:85-128 | A concrete state in which a direct revoke removes the last holder of roles:manage. |
| `Authorization.DeleteUserCanStrand` | pkg/service/user.go:217-236 | A concrete state in which deleting a user removes the last holder of both meta keys, by the cascade on their grants. |
| `AuthorizationService.Service.AssertHasPrivilege` | pkg/service/role.go:266-284 | Accepts exactly the actors who hold the key directly or through a role. |
| `AuthorizationService.Service.Permitted` | pkg/service/role.go:266-284 | A malformed call is refused before anything is read; otherwise exactly the holders of the key pass. |
| `AuthorizationService.Service.HasPrivilege` | pkg/service/user_privilege.go:132-156 | Rejects blank users and unregistered keys, otherwise answers exactly whether the user holds the key. |
| `AuthorizationService.Service.EffectivePrivileges` | pkg/service/user_privilege.go:173-197 | Lists each key the user holds, directly or through roles, exactly once and nothing else. |
| `AuthorizationService.Service.GroupDetails` | internal/store/user_role_store.go:127-162 | The grouping loop yields one group per role in order of first appearance, each with that role's keys in row order. |
| `AuthorizationService.GroupedViewAgrees` | internal/store/user_role_store.go:127-177 | For every answer of the role join: one group per held role, every held key is registered, and a key is held if and only if it is granted directly or lies in some group; with the three rows above, four views of privilege coincide. |
| `AuthorizationService.Service.AssertNotLastMetaHolder` | pkg/service/user_role.go:307-371 | The loop over the two counting queries refuses exactly the revokes after which nobody would hold one of the meta keys. |
| `AuthorizationService.GuardIsExact` | pkg/service/user_role.go:342-371 | At most one holder and no other source for this user is the same as the revoke leaving nobody with the key. |
| `AuthorizationService.Service.GrantPrivilege` | pkg/service/user_privilege.go:36-79 | Takes the tables where the step relation says, with its error; nothing changes unless the granter holds privileges:grant, and then exactly the one direct row is new. |
| `AuthorizationService.Service.RevokePrivilege` | pkg/service/user_privilege.go:85-128 | Takes the tables where the step relation says; the guard on privileges:grant counts direct rows, as the code does. |
| `AuthorizationService.Service.GrantRoleToUser` | pkg/service/user_role.go:40-88 | Takes the tables where the step relation says, with its error. |
| `AuthorizationService.Service.RevokeRoleFromUser` | pkg/service/user_role.go:92-133 | Takes the tables where the step relation says, the guard being stated there as "would leave nobody", here as counts. |
| `AuthorizationService.Service.CreateRole` | pkg/service/role.go:38-71 | Takes the tables where the step relation says, with its error. |
| `AuthorizationService.Service.UpdateRole` | pkg/service/role.go:75-115 | Takes the tables where the step relation says, with its error. |
| `AuthorizationService.Service.DeleteRole` | pkg/service/role.go:119-148 | Takes the tables where the step relation says: a non-system role goes with its assignments and contents. |
| `AuthorizationService.Service.AddPrivilegeToRole` | pkg/service/role.go:174-211 | Takes the tables where the step relation says, with its error. |
| `AuthorizationService.Service.RemovePrivilegeFromRole` | pkg/service/role.go:216-262 | Takes the tables where the step relation says, its guard counting roles. |
| `AuthorizationService.Service.EnsureSuperAdminRole` | pkg/service/user_role.go:275-303 | The loop over registered keys leaves a super_admin role that carries them all and loses none it had. |
| `AuthorizationService.Service.BootstrapSuperAdmin` | pkg/service/user_role.go:159-256 | Takes the tables where the step relation says, keeps them consistent, and with an email leaves a user holding every registered key. |
| `Authority.OnlyHoldersAct` | pkg/service/role.go:266-284 | No call is accepted or changes a row unless its actor holds the key it needs: privileges:grant for direct grants and revokes, roles:manage for everything about roles. |
| `Authority.PowerlessRun` | pkg/service/user_privilege.go:57-59 | Over every run of calls whose actors lack the keys they need, the tables stay as they were. |
| `Authority.CanReachIff` | pkg/service/user_privilege.go:36-79 | By calls of their own a user can come to hold a registered key if and only if they hold it already or hold one of the two meta keys; either one is worth both. |
| `Authority.OutcomeIs` | pkg/service/role.go:38-262 | The outcome of every call by the rows it finds: malformed or not permitted, missing row, row already there, last holder or system role, rejected by the schema, or accepted, in this order; refused calls change nothing. |
| `Authority.HoldsAfter` | pkg/service/user_role.go:40-133 | For every accepted step, exactly who holds which key afterwards, in terms of who held what before. |
| `Authority.RepeatIsRefused` | pkg/service/user_privilege.go:60-66 | An accepted grant, assignment, role or role content is refused as already there when repeated. |
| `Authority.TakenBack` | pkg/service/user_role.go:92-133 | Taken back by the opposite call, each of them leaves the tables exactly as they were. |
| `Authority.AddedBack` | pkg/service/role.go:174-262 | A row taken away and added again is where it was. |
| `Authority.NewRoleCanGo` | pkg/service/role.go:119-148 | A role just created can be deleted by anyone with roles:manage. |
| `Authority.RenameTouchesName` | pkg/service/role.go:75-115 | A role update changes that role's name and nothing else; a blank name changes nothing. |
| `Authority.DeletionTakesOwnRows` | internal/db/migrations/000006_authorization.up.sql:51-73 | Deleting a role or a user takes exactly the rows that name them. |
| `Authority.DeleteUserOutcome` | pkg/service/user.go:217-236 | A user can be deleted unless unknown or still the PI of a project. |
| `Authority.BootstrapAdds` | pkg/service/user_role.go:159-303 | Bootstrap adds at most the user with the email, the system role super_admin, that role's registered keys, and one assignment of it to that user, made only if nobody had the role. |
| `Authority.BootstrapOutcome` | pkg/service/user_role.go:159-303 | It fails exactly if a row it must insert has a used id, and without an email does nothing. |
| `IdentityCache.StoredIsFound` | pkg/service/identity_resolver.go:61-79 | A stored entry is found for exactly one time to live. |
| `IdentityCache.OthersUndisturbed` | pkg/service/identity_resolver.go:61-79 | Storing or looking up one subject never changes what is found for another. |
| `IdentityCache.LookedUpTwice` | pkg/service/identity_resolver.go:61-73 | Looking up changes nothing but that an expired entry is gone for good. |
| `IdentityCache.Cache.Get` | pkg/service/identity_resolver.go:61-73 | Returns the entry only before it expires and deletes it once it has. |
| `IdentityCache.Cache.Set` | pkg/service/identity_resolver.go:75-79 | Stores the entry to expire one time to live after the given moment. |
| `IdentityCache.Cache.InvalidateAll` | pkg/service/identity_resolver.go:81-85 | Empties the cache and keeps the time to live. |
| `IdentityCache.Cache.SetTTL` | pkg/service/identity_resolver.go:87-94 | Keeps the entries; a non-positive duration means the default. |
| `IdentityCache.ApplyAuthDefaults` | internal/config/config.go:98-112 | Fails exactly without issuer or audience, otherwise yields a positive time to live of at most 60 seconds, the configured one whenever that is in range. |
| `IdentityStaleness.BoundedStaleness` | pkg/service/identity_resolver.go:61-133 | In every interleaving of clock, resolvers, invalidations, time-to-live changes and arbitrary database changes, the user, the direct keys and the role keys behind every answer were each in the database at some moment less than 60 seconds before that resolver captured the clock, the role keys not before the direct ones. |
| `IdentityStaleness.RunsAreSound` | pkg/service/identity_resolver.go:61-133 | Over every run, every cache entry and every resolver in flight carries only what its reads found since its time stamp less the maximum time to live. |
| `IdentityStaleness.EveryAnsweredKeyWasHeld` | pkg/service/identity_resolver.go:108-133 | Every single key of every answer was held by that user at some moment within the bound. |
| `IdentityStaleness.WholeSetIff` | pkg/service/user_privilege.go:173-197 | The union of the two reads was the effective set at the second if and only if the direct keys changed in between only by keys the roles carry, and at the first if and only if the role keys changed only by keys held directly. |
| `IdentityStaleness.TornRead` | pkg/service/user_privilege.go:178-189 | For all directories in which direct keys go and other role keys come between the two reads there is a run whose answer and cache entry are a set the user never had. |
| `IdentityStaleness.TornAnswer` | pkg/service/user_privilege.go:178-189 | A concrete such run on concrete tables. |
| `IdentityStaleness.TornSteps` | pkg/service/user_privilege.go:85-128 | The changes in that run are an accepted revoke and an accepted role grant. |
| `IdentityStaleness.SnapshotIsEffective` | internal/store/user_role_store.go:166-177 | On valid tables the two queries give the direct and the role keys, and their union the effective privileges. |
| `IdentityStaleness.StaleAfterInvalidation` | pkg/service/identity_resolver.go:108-133 | For every change of the database there is a run in which a resolver that read before it stores after its invalidation, and the cache is left with what the user had. |
| `IdentityInvalidation.InvalidationHoldsIff` | pkg/service/identity_resolver.go:75-133 | From an emptied cache, every continuation without a database change leaves only entries equal to the current binding and privileges if and only if every resolver in flight is ready: what it has read so far names the user its subject is bound to and still adds up to that user's current keys. |
| `IdentityInvalidation.ReadyRun` | pkg/service/identity_resolver.go:108-133 | With ready resolvers and a current cache, every such continuation keeps the cache current, first sign-ins included. |
| `IdentityInvalidation.UnreadySpoils` | pkg/service/identity_resolver.go:108-133 | Any other resolver, left to finish its own reads and store, leaves an entry that is not current. |
| `IdentityInvalidation.StaleRunIsUnready` | pkg/service/identity_resolver.go:81-85 | Right after the invalidation of the run above the resolver is ready if and only if the change changed neither its binding nor its keys. |
| `IdentityResolver.SerialRunsStayCoherent` | internal/server/role.go:92-368 | Over every serial run of resolutions, role and privilege handlers and configuration changes, every cached entry equals the current binding and effective privileges of its user. |
| `IdentityResolver.SerialAnswersAreCurrent` | pkg/service/identity_resolver.go:108-133 | So after every such run a caller is answered with what is current. |
| `IdentityResolver.CreateRoleChangesNobody` | internal/server/role.go:92-108 | Creating a role changes nobody's effective privileges, which is why that handler need not invalidate. |
| `IdentityResolver.HandleKeepsCoherent` | internal/server/privilege.go:183-244 | Each handler keeps the cache coherent, by invalidating when it succeeds or by changing nothing anyone holds. |
| `IdentityResolver.MergeCoherentIff` | pkg/service/user_merge.go:47-97 | A user merge, which does not invalidate, keeps the cache coherent if and only if it is refused or no entry is cached for the retiring user; the merge is the one of the Directory rows. |
| `IdentityResolver.MergeLeavesStaleEntry` | pkg/service/user_merge.go:81-97 | A concrete merge after which the cache still answers with the retired user. |
| `IdentityResolver.DeleteCoherentIff` | pkg/service/user.go:217-236 | Deleting a user, which does not invalidate either, keeps the cache coherent if and only if no entry is cached for them. |
| `IdentityResolver.RebindCoherentIff` | pkg/service/user_identity.go:131-168 | Updating an identity keeps the cache coherent if and only if it is refused, the subject is not cached, or it keeps the subject and its user. |
| `IdentityResolver.UnbindCoherentIff` | pkg/service/user_identity.go:171-189 | Deleting an identity keeps it coherent if and only if the subject is not cached. |
| `IdentityResolver.CachedLeaverGoesStale` | pkg/service/user_identity.go:131-189 | A concrete cached user for whom deleting the user, deleting the identity and rebinding it each leave a stale entry. |
| `IdentityResolver.Resolver.ResolveCaller` | pkg/service/identity_resolver.go:108-133 | Answers from a fresh entry or from a read it then caches, with every error case; a bound subject is always answered, on a coherent cache with its user and exactly what that user holds, and the cache stays coherent. |
| `IdentityResolver.Resolver.LinkBySub` | pkg/service/identity_resolver.go:136-201 | Binds the subject and activates the pending user with that email, or changes nothing and says which of the four conditions failed. |
| `IdentityResolver.AfterMergeIs` | pkg/service/user_merge.go:81-102 | For the resolver an accepted merge retires one user and binds their subjects to the other, each by the source it had; a refused one changes nothing. |
| `IdentityResolver.AfterDeleteIs` | pkg/service/user.go:217-236 | For the resolver a deletion takes exactly the user's status, subjects and privileges. |
| `IdentityResolver.AfterRebindIs` | pkg/service/user_identity.go:131-168 | An accepted identity update moves that one subject, which keeps its source. |
| `IdentityAnswers.AnswersIff` | pkg/service/identity_resolver.go:108-201 | A subject is answered if and only if it is cached and fresh, or bound, or its email names a PENDING user without an OIDC binding. |
| `IdentityAnswers.RefusalIs` | pkg/service/identity_resolver.go:136-201 | Every other subject is refused with the error of the first condition that fails, and nothing but its expired entry changes. |
| `IdentityAnswers.CachedAnswer` | pkg/service/identity_resolver.go:113-116 | A cached subject gets its entry. |
| `IdentityAnswers.BoundAnswer` | pkg/service/identity_resolver.go:117-132 | A bound subject that is not cached gets its user with exactly what that user holds, and is cached for one time to live; nothing else changes. |
| `IdentityAnswers.FirstAnswer` | pkg/service/identity_resolver.go:136-201 | A first sign-in binds the subject, makes the user ACTIVE, answers with what they hold and caches it; nobody else is touched. |
| `IdentityAnswers.BoundIsAnswered` | pkg/service/identity_resolver.go:108-133 | In every coherent state a bound subject, cached or not, is answered with its user and what that user holds now. |
| `IdentityAnswers.ReturningUser` | pkg/service/identity_resolver.go:108-201 | Signing in once is enough: after every later serial run the subject is answered with the same, still ACTIVE user and the keys held by then. |
| `IdentityAnswers.RunLasts` | pkg/service/identity_resolver.go:136-201 | Over every serial run, bindings, ACTIVE users and the user table stay. |
| `IdentityAnswers.ChangeIsSeen` | internal/server/privilege.go:183-244 | Whatever was cached, the next answer after a handled role or privilege step shows exactly the keys held after it. |
| `IdentityAnswers.HandlerInvalidatesIff` | internal/server/role.go:92-368 | The handlers empty the cache after every accepted change but a new role, and otherwise leave it alone. |
| `IdentityAnswers.NewTTLCounts` | pkg/service/identity_resolver.go:87-101 | A new time to live counts from the next answer that is cached, to the nanosecond. |
| `IdentityAnswers.RunKeepsOneSubject` | pkg/service/identity_resolver.go:150-172 | No serial run links a second OIDC subject to a user. |
| `IdentityRefinement.AloneIsSerial` | pkg/service/identity_resolver.go:108-133 | Left alone, the steps of a concurrent resolver end with the answer, the bindings and the cache of the serial one, for cached, bound and first-time subjects. |
| `LinkGraph.LinksConserveRows` | internal/store/audit_trace_store.go:233-250 | The number of child links always equals the number of rows. |
| `LinkGraph.ShowsEveryRowOnceIff` | internal/store/audit_trace_store.go:233-250 | A preorder walk from the root meets every row exactly once if and only if every row kept its own node and no parent chain loops. |
| `LinkGraph.ChildrenInRowOrder` | internal/store/audit_trace_store.go:240-248 | With own nodes, the children of a node are exactly the rows filed under it, in row order. |
| `LinkGraph.VisitsThroughParent` | internal/store/audit_trace_store.go:240-248 | Where rows that share a node share its parent, each visit of a row is as one of its equal copies below a visit of its parent. |
| `LinkGraph.VisitsAreProducts` | internal/store/audit_trace_store.go:240-248 | Then a walk shows a row as often as the product of the row counts of the nodes on its way to the root, and not at all if that way is longer than the walk is deep. |
| `LinkGraph.RankedIsAcyclic` | internal/store/audit_trace_store.go:233-250 | Parent links along which a rank falls cannot loop. |
| `TraceTree.TreeShowsRowsIff` | internal/store/audit_trace_store.go:233-250 | For every row list: the tree shows each row exactly once if and only if span ids are distinct and parents acyclic, and links always equal rows in number. |
| `TraceTree.FiledUnder` | internal/store/audit_trace_store.go:239-248 | A row is filed at the top if and only if it names no parent or one no row has, otherwise under the last row of the span it names. |
| `TraceTree.MakeNodes` | internal/store/audit_trace_store.go:234-237 | The first loop makes a fresh node per row and leaves the map pointing at the last node of each span. |
| `TraceTree.LinkRows` | internal/store/audit_trace_store.go:239-248 | The second loop leaves every child list equal to the links of the rows, in order, whatever the span ids and parents. |
| `TraceTree.BuildTree` | internal/store/audit_trace_store.go:233-250 | The returned nodes are fresh, carry the rows, and are linked exactly as the link graph of the rows. |
| `TraceTree.HeapWalkIsGraphWalk` | internal/store/audit_trace_store.go:233-250 | Walking the mutable nodes gives the rows of the walk over the link graph, at every depth. |
| `TraceTree.GetTraceTree` | internal/store/audit_trace_store.go:210-229 | No tree exactly for no rows, the flag exactly when more than 500 rows are stored, and a tree whose walk is that of the first 500 rows. |
| `TraceTree.TreeEndsIff` | internal/store/audit_trace_store.go:233-250 | For every row list: the tree is finite if and only if no chain of child links from its root is longer than there are rows. |
| `TraceTree.AgreeingTree` | internal/store/audit_trace_store.go:233-250 | If all rows of one span name the same parent, the tree is finite even where parents form a loop, only the last row of a span is shown, and that as often as the product of the row counts on its way to the root. |
| `TraceTree.RepeatedSpanCanLoop` | internal/store/audit_trace_store.go:233-250 | Three concrete rows, two of one span with different parents, whose tree is endless: its walk exceeds every bound. |
| `WalkEnds.WalkEndsIff` | internal/store/audit_trace_store.go:233-250 | The same for every link graph whose children are rows. |
| `WalkEnds.RankedWalkEnds` | internal/store/audit_trace_store.go:233-250 | A rank of at most n that rises along child links completes the walk at depth n + 2. |
| `WalkEnds.OneParentEnds` | internal/store/audit_trace_store.go:233-250 | If rows that share a node share its parent, no chain from the root is longer than there are rows. |
| `Spans.BusinessParent` | internal/tracing/tracing.go:97-112 | In every nesting of Start calls, a business span records the nearest enclosing business span however many bus.* spans lie between, else the span immediately enclosing it. |
| `Spans.BusParent` | internal/tracing/tracing.go:97-119 | Under a bus.* span, audit rows name the parent of the business span around it rather than that span. |
| `Spans.ParentStartedEarlier` | internal/tracing/tracing.go:97-131 | A recorded parent is always the span of an earlier context. |
| `Spans.StampedTree` | internal/tracing/audit.go:22-34 | Rows stamped from any run of contexts have acyclic parents, so their tree shows every row once if and only if no two were written under one span. |
| `Spans.StampedTreeEnds` | internal/tracing/audit.go:22-34 | The tree of stamped rows always ends, however many rows share a span: it is complete two levels below the number of Start calls. |
| `Spans.StampedVisits` | internal/tracing/audit.go:22-34 | Of each span it shows only the last row, as often as the product of the numbers of rows written under the spans on its way to the root. |
| `Spans.PresetIdsStay` | internal/tracing/audit.go:22-34 | Stamping fills in missing ids from the context and never replaces one a row has. |
| `Spans.BusNames` | internal/tracing/tracing.go:97-112 | Bus spans are exactly those whose name starts with "bus.". |
| `KeyedTable.ReassignUser` | internal/store/compute_allocation_membership_store.go:130-146 | The delete and the update together compute the reassignment that the rows below are about. |
| `KeyedTable.ReassignIsKeyedUnion` | internal/store/compute_cluster_user_store.go:135-151 | The retiring user ends with no rows, the survivor with the union of both key sets; on a collision the survivor's row stays, otherwise the row is handed over as it was; nobody else's row changes; (key, user) stays unique. |
| `KeyedTable.KeyedUnionDetermines` | internal/store/project_membership_store.go:128-142 | That description fits only one table. |
| `KeyedTable.ReassignDropsOverlap` | internal/store/project_membership_store.go:128-142 | The table shrinks by exactly the number of keys both users held. |
| `KeyedTable.ReassignKeepsNames` | internal/store/compute_cluster_user_store.go:135-151 | A second unique column per key, such as local user names, stays unique. |
| `KeyedTable.ReassignToSelfErases` | internal/store/compute_allocation_membership_store.go:130-146 | Reassigned to itself a user would lose every row, which is what the self-merge check prevents. |
| `Directory.MergeIsKeyedUnion` | pkg/service/user_merge.go:81-97 | A successful merge is the keyed union in all three tables at once. |
| `Directory.MergeDropsOverlap` | pkg/service/user_merge.go:81-97 | Each of the three tables shrinks by exactly the overlap. |
| `Directory.MergeHandsOver` | pkg/service/user_merge.go:81-102 | All identities and projects of the retiring user, and nothing else, pass to the survivor, and only the retiring user's status changes, to MERGED. |
| `Directory.MergeDoneIff` | pkg/service/user_merge.go:47-79 | A merge goes through if and only if both users exist, differ and are ACTIVE or PENDING, and is refused as done if and only if only the retiring one is MERGED; a refusal changes nothing; and after it the same merge is refused as done, the reverse one as invalid. |
| `Directory.MergeKeepsPIIff` | internal/store/project_store.go:135-140 | Where the project record and the PI row agreed, they agree after a merge if and only if the merge does not retire that PI into a user who already has a role on the project. |
| `Directory.MergeCanDropPI` | internal/store/project_membership_store.go:128-142 | A concrete merge after which a project has no PI row although its record names the survivor. |
| `Directory.RunKeepsValid` | internal/store/project_membership_store.go:128-142 | Every run of upserts, merges, user and identity updates and deletions, new memberships and new accounts keeps one row per (project, user), per (allocation, user) and per (cluster, user), one owner per local user name, and at most one PI per project. |
| `Directory.EnsureSetsRole` | pkg/service/project_membership.go:37-103 | A successful upsert leaves the user with exactly the role of the name asked for, none for MEMBER. |
| `Directory.EnsureDoneIff` | pkg/service/project_membership.go:37-103 | The upsert succeeds if and only if both ids are given, the role is blank, MEMBER or one of the three names, the PI stays, and for a named role there is a row to change or project and user are known. |
| `Directory.EnsureKeepsDate` | pkg/service/project_membership.go:94-102 | A new row is dated now, a row that was there keeps its date. |
| `Directory.EnsureTouchesOneRow` | pkg/service/project_membership.go:37-103 | No other row and no other table changes, and a refusal changes nothing. |
| `Directory.PIChangeIff` | pkg/service/project_membership.go:53-86 | The PI rule fires if and only if a second PI is asked for or the PI is to lose the role; a call is invalid if and only if an id is blank or the role is none of the five names. |
| `Directory.UpsertsNeverTouchPI` | pkg/service/project_membership.go:37-103 | Over every run of upserts a PI row is never removed, demoted or replaced. |
| `DirectoryService.Service.MergeUsers` | pkg/service/user_merge.go:47-106 | The checks, then the five table updates and the status, as the merge step says. |
| `DirectoryService.Service.EnsureProjectMembership` | pkg/service/project_membership.go:37-103 | Every branch and error of the upsert, as the upsert step says; it succeeds exactly for given ids, a role of the five names, the PI unchanged, and for a named role a row to change or a known project and user. |
| `DirectoryService.Service.CreateComputeAllocationMembership` | pkg/service/compute_allocation_membership.go:34-77 | Succeeds exactly for a known allocation and user without a row for the pair, and then adds that one row, ACTIVE unless another status is given. |
| `DirectoryService.Service.UpdateMembershipStatus` | pkg/service/compute_allocation_membership.go:185-208 | Succeeds exactly for a stored id and a status, and then sets the status of that row; no other row changes and nobody gains or loses a membership. |
| `DirectoryService.Service.HandlePersonMerge` | connectors/ACCESS/AMIE-Processor/handler/request_person_merge.go:48-128 | Every check, the replay short cut, both lookups and the merge, as the delivery step says. |
| `MergePackets.RedeliveryIsSafe` | connectors/ACCESS/AMIE-Processor/handler/request_person_merge.go:78-128 | Once a delivery of a merge packet has succeeded, or changed anything, then after every run of other steps and deliveries none of which unsettles it, delivering it again leaves every core table unchanged, whatever its DeletePersonID. |
| `MergePackets.StepKeepsSettledIff` | pkg/service/user.go:191-236 | A step unsettles such a packet if and only if it takes MERGED off the person or deletes them while the global ids name different users, or parts the ids (rebinds or unbinds one, deletes their owner) while the person is not merged. |
| `MergePackets.CalmRunsNeverUnsettle` | pkg/service/user_identity.go:131-189 | Runs without status updates, user deletions, identity updates and identity deletions unsettle nothing. |
| `MergePackets.UndoneMergeRunsAgain` | pkg/service/user_identity.go:131-168 | For every packet that merged the person it names: with the status and the identity put back, delivering it again merges a second time. |
| `MergePackets.PlayKeepsSettled` | pkg/service/user_merge.go:47-79 | Over every run without an unsettling step, the person stays merged or both global ids keep naming one user. |
| `MergePackets.SettledIsInert` | connectors/ACCESS/AMIE-Processor/handler/request_person_merge.go:83-128 | Such a packet changes nothing and is answered with success if and only if its DeletePersonID names a merged user. |
| `MergePackets.DeliveryChangesIff` | connectors/ACCESS/AMIE-Processor/handler/request_person_merge.go:58-128 | A delivery changes any table if and only if its fields are there, its global ids name two different users who are both ACTIVE or PENDING, and the person it names is not merged; never when it is settled. |
| `MergePackets.DeliveryIs` | connectors/ACCESS/AMIE-Processor/handler/request_person_merge.go:48-128 | What a delivery answers, error by error, by the packet and the rows it finds; when it still merges, it merges the owner of the deleted global id into that of the kept one. |
| `DirectorySteps.RunKeepsGrounded` | internal/db/migrations/000004_allocations.up.sql:138-152 | Every run of merges, upserts and plain steps keeps all foreign keys: every row names rows that exist, but for the user of a membership. |
| `DirectorySteps.RefusedIsInert` | pkg/service/user_identity.go:131-189 | A refused step changes nothing. |
| `DirectorySteps.BindIs` | pkg/service/user_identity.go:31-69 | An identity is created exactly for a known user, given in full and not taken; no other owner changes. |
| `DirectorySteps.RebindIs` | pkg/service/user_identity.go:131-168 | An identity update goes through exactly if the identity exists, the owner is known and the new key is free, and moves that one identity. |
| `DirectorySteps.BlankMeansStored` | pkg/service/user_identity.go:142-150 | A blank part of an identity update means what is stored. |
| `DirectorySteps.ReboundBack` | pkg/service/user_identity.go:131-168 | An identity updated and updated back is where it was. |
| `DirectorySteps.UnbindIs` | pkg/service/user_identity.go:171-189 | Deleting an identity takes that one only. |
| `DirectorySteps.DeleteUserIs` | internal/db/migrations/000003_projects.up.sql:18-46 | A user who is no project's PI can be deleted, and takes exactly their identities, accounts and roles along; memberships stay. |
| `DirectorySteps.UserStepsAre` | pkg/service/user.go:31-215 | New users start PENDING; a status can be set for a known user, and only theirs changes. |
| `DirectorySteps.OpeningIs` | pkg/service/project.go:32-76 | A project needs a known PI and an allocation a known project, and each a fresh id. |
| `DirectorySteps.AccountIs` | pkg/service/compute_cluster_user.go:33-84 | An account is added exactly for a known cluster and user of whom neither the pair nor the local name is used. |
| `DirectorySteps.MembershipIs` | pkg/service/compute_allocation_membership.go:34-77 | A membership is added exactly for a known allocation and user without one, ACTIVE unless another status is given. |
| `DirectorySteps.MembershipStatusIs` | pkg/service/compute_allocation_membership.go:185-208 | Exactly the rows with the id change, and only in their status. |
| `Grants.LedgerOverRun` | connectors/ACCESS/AMIE-Processor/handler/request_project_create.go:216-246 | Over every run of deliveries, stops and resumes, a grant's initial amount plus its diffs grows by what completed deliveries granted plus what failed deliveries had written before they failed. |
| `Grants.DeliveryIsLedgeredIff` | connectors/ACCESS/AMIE-Processor/handler/request_project_create.go:311-330 | One delivery moves the ledger by exactly what it granted if it completed, and not at all otherwise, if and only if it does not, judged by the state it arrives in, write units and then fail. |
| `Grants.LedgerIsCompletedSum` | connectors/ACCESS/AMIE-Processor/handler/request_project_create.go:311-330 | Over every run in which no delivery does that, the ledger is the sum over the completed deliveries. |
| `Grants.LedgerIsCompletedSumOnlyIf` | connectors/ACCESS/AMIE-Processor/handler/request_project_create.go:311-330 | And only over such runs, when no packet carries a negative amount. |
| `Grants.LedgerIsGranted` | connectors/ACCESS/AMIE-Processor/handler/request_project_create.go:197-330 | When every delivery completes, the ledger is exactly the sum of ServiceUnitsAllocated over the packets. |
| `Grants.AbortsIff` | connectors/ACCESS/AMIE-Processor/handler/request_project_create.go:90-146 | A delivery fails after writing if and only if its PI has an account or a free candidate name, its units can be read and written, and then either a later stage breaks or the project already has a different PI. |
| `Grants.FailureMovesLedger` | connectors/ACCESS/AMIE-Processor/handler/request_project_create.go:110-128 | Every such delivery has moved the ledger by its units all the same. |
| `Grants.RunKeepsAccounts` | connectors/ACCESS/AMIE-Processor/handler/request_project_create.go:184-195 | Every run keeps local user names unique and never changes an account. |
| `Grants.PickNameIs` | connectors/ACCESS/AMIE-Processor/handler/posix_alloc.go:54-74 | The allocator finds a name if and only if one of the 999 candidates is free, and then the first free one. |
| `Grants.CompletedDeliveryLeaves` | connectors/ACCESS/AMIE-Processor/handler/request_project_create.go:53-150 | A completed delivery leaves its PI with a user row, an account, a membership and the PI row, and its allocation with exactly the listed resources of the catalog besides those it had. |
| `Grants.AttachMaps` | connectors/ACCESS/AMIE-Processor/handler/request_project_create.go:252-275 | Attaching a list adds exactly the listed resources of the catalog to the allocation, whatever their order and repetition. |
| `Grants.LedgerCanDrift` | connectors/ACCESS/AMIE-Processor/handler/request_project_create.go:110-128 | A concrete supplement that names another PI: refused, with its units written. |
| `Grants.RunExtends` | connectors/ACCESS/AMIE-Processor/handler/request_project_create.go:210-246 | No run changes the initial amount of an allocation, moves a project to another grant, or removes a diff. |
| `Grants.RecordedGrantHasOne` | connectors/ACCESS/AMIE-Processor/handler/request_project_create.go:197-246 | Once units were written for a grant, every later state has exactly one project for it and exactly one allocation under that. |
| `Grants.FlipCountsDiffs` | connectors/ACCESS/AMIE-Processor/handler/request_project_inactivate.go:94-127 | Stopping or resuming a project adds one diff to each of its allocations and none to any other. |
| `Grants.InactivateReachesAllIff` | connectors/ACCESS/AMIE-Processor/handler/request_project_inactivate.go:94-127 | Every membership under the project ends INACTIVE if and only if none whose user row is gone was anything else. |
| `Grants.OrphanStaysActive` | internal/store/compute_allocation_membership_store.go:157-191 | A concrete membership of a deleted user that stays ACTIVE under a stopped project, since the listing joins users. |
| `Grants.StopThenResume` | connectors/ACCESS/AMIE-Processor/handler/request_project_reactivate.go:98-137 | Stopped and resumed, the project and its allocations are ACTIVE, of their listed memberships exactly the PI's are ACTIVE, and no other row has changed. |
| `GrantsService.Handler.HandleCreate` | connectors/ACCESS/AMIE-Processor/handler/request_project_create.go:53-150 | The stages of a delivery in order (user row, identity, account, project, allocation, resources, membership, PI row, reply), each committing before the next, as the delivery step says. |
| `GrantsService.Handler.EnsurePIClusterUser` | connectors/ACCESS/AMIE-Processor/handler/request_project_create.go:184-195 | Keeps the account the PI has, or takes the first free candidate; fails without a change if there is none. |
| `GrantsService.Handler.AttachResources` | connectors/ACCESS/AMIE-Processor/handler/request_project_create.go:252-275 | The loop attaches each listed resource of the catalog once and skips unregistered names. |
| `GrantsService.Handler.EnsureProject` | connectors/ACCESS/AMIE-Processor/handler/request_project_create.go:197-209 | Finds the grant's project or opens one. |
| `GrantsService.Handler.EnsureAllocation` | connectors/ACCESS/AMIE-Processor/handler/request_project_create.go:216-246 | Writes the units as a new allocation or as a diff of the existing one, or fails on unreadable fields and changes nothing. |
| `GrantsService.Handler.EnsurePIMembership` | connectors/ACCESS/AMIE-Processor/handler/request_project_create.go:281-303 | Adds the PI's membership exactly when there is none. |
| `GrantsService.Handler.HandleInactivate` | connectors/ACCESS/AMIE-Processor/handler/request_project_inactivate.go:47-127 | The nested loops stop exactly the project, its allocations and their listed memberships, with one diff per allocation; the project and all its allocations end INACTIVE; an unknown project changes nothing. |
| `GrantsService.Handler.HandleReactivate` | connectors/ACCESS/AMIE-Processor/handler/request_project_reactivate.go:50-137 | The nested loops resume exactly the project, its allocations and the PI's listed memberships; the project and all its allocations end ACTIVE. |
| `GrantsService.Handler.FlipUserMemberships` | connectors/ACCESS/AMIE-Processor/handler/handler.go:142-172 | Changes and returns, without repetition, exactly the user's listed memberships under the project. |
| `GrantEffects.StopIs` | connectors/ACCESS/AMIE-Processor/handler/request_project_inactivate.go:47-127 | From any site: the project, its allocations and their listed memberships are INACTIVE, the new diffs are one status change without units per allocation in table order, and nothing else differs. |
| `GrantEffects.ResumeIs` | connectors/ACCESS/AMIE-Processor/handler/request_project_reactivate.go:50-137 | The same with ACTIVE, and of the memberships only the listed ones of the project's PI. |
| `GrantEffects.StoppedUntilResumed` | connectors/ACCESS/AMIE-Processor/handler/request_project_inactivate.go:47-127 | Over every run without its resumption, a stopped project, the allocations it had and their listed memberships stay INACTIVE, whatever is delivered. |
| `GrantEffects.RecordedIff` | connectors/ACCESS/AMIE-Processor/handler/request_project_create.go:53-112 | A delivery writes its units if and only if the grant is given, the PI has or gets an account, no earlier stage breaks, the units can be read, and the dates too unless there is an allocation. |
| `GrantEffects.CompletedIff` | connectors/ACCESS/AMIE-Processor/handler/request_project_create.go:114-150 | It completes if and only if it is recorded, no later stage breaks and the project has no other PI's row. |
| `GrantEffects.ProjectsAfter` | connectors/ACCESS/AMIE-Processor/handler/request_project_create.go:197-209 | A delivery that gets that far opens an ACTIVE project for its grant and its PI if the grant has none; no other project changes. |
| `GrantEffects.UnitsAfter` | connectors/ACCESS/AMIE-Processor/handler/request_project_create.go:216-330 | Recorded units are the initial amount of a new ACTIVE allocation of the grant, or one ACTIVE diff of the packet's type on the existing one; otherwise neither table changes. |
| `GrantEffects.PeopleAfter` | connectors/ACCESS/AMIE-Processor/handler/request_project_create.go:151-195 | The PI is a user from the first stage on and has an account from the second; nobody else's account changes. |
| `GrantEffects.NewAccountIsFirstFree` | connectors/ACCESS/AMIE-Processor/handler/posix_alloc.go:54-74 | A new account has the first candidate of the PI's base that nobody has. |
| `GrantEffects.RestAfter` | connectors/ACCESS/AMIE-Processor/handler/request_project_create.go:252-303 | After the units: the catalog's resources up to where the delivery breaks, an ACTIVE membership for a PI who has none, and the PI row unless the project has another PI's. |
| `GrantEffects.RestUnlessRecorded` | connectors/ACCESS/AMIE-Processor/handler/request_project_create.go:110-128 | Unrecorded, a delivery leaves resources, memberships and PI rows alone. |
| `GrantEffects.DeliveryKeepsRows` | connectors/ACCESS/AMIE-Processor/handler/request_project_create.go:197-303 | No delivery changes a project, allocation, diff or membership that was there. |
| `DnSync.Store.SyncDNs` | connectors/ACCESS/AMIE-Processor/handler/request_user_modify.go:244-285 | Leaves the user with exactly the listed names nobody else holds, keeps the rows of names held before, leaves everyone else's rows, and reports the names dropped and the listed names not held before; an empty list changes nothing. |
| `DnSync.SyncReachesListIff` | connectors/ACCESS/AMIE-Processor/store/user_dn_store.go:51-59 | The user ends with the listed names if and only if nobody else held one of them. |
| `DnSync.AddedIsTrueIff` | connectors/ACCESS/AMIE-Processor/handler/request_user_modify.go:268-277 | The reported number of additions is the true one under the same condition and no other. |
| `DnSync.SyncTwiceIsOnce` | connectors/ACCESS/AMIE-Processor/handler/request_user_modify.go:244-285 | Reconciling twice with one list equals reconciling once, row ids included. |
| `DnSync.TakenNameIsNotGained` | connectors/ACCESS/AMIE-Processor/db/migrations/000001_initial_schema.up.sql:97-105 | A concrete listed name that stays with its holder although it is reported as added. |
| `DnSync.Store.DeleteDNs` | connectors/ACCESS/AMIE-Processor/handler/request_user_modify.go:196-226 | Removes exactly the listed names the user holds and counts them. |
| `DnSync.Store.Add` | connectors/ACCESS/AMIE-Processor/store/user_dn_store.go:51-59 | Inserts under a fresh row id, or does nothing if the name is taken by anyone. |
| `PosixNames.Normalize` | pkg/posix/username.go:64-76 | The loop keeps the lower-cased letters a to z and digits, in order. |
| `PosixNames.NormalizeTwiceIsOnce` | pkg/posix/username.go:64-76 | Normalising again changes nothing. |
| `PosixNames.NormalizePieces` | pkg/posix/username.go:64-76 | Names can be normalised piece by piece. |
| `PosixNames.NormalizeOne` | pkg/posix/username.go:66-73 | A character becomes its lower case if that is a letter a to z or a digit, else nothing. |
| `PosixNames.BuildBase` | pkg/posix/username.go:38-62 | Builds the base from initial and last name, whichever exist, cut to leave room. |
| `PosixNames.BaseOutcomes` | pkg/posix/username.go:38-62 | Fails exactly for people without a usable name, and breaks on its slice bound exactly for prefixes over 28 characters. |
| `PosixNames.BuiltBaseFits` | pkg/posix/username.go:55-61 | A built base is the prefix, a dash, and the first letter of the first name with the last name (or the one name there is), has at most 29 characters, and is cut only when it must be. |
| `PosixNames.CandidateIs` | connectors/ACCESS/AMIE-Processor/handler/posix_alloc.go:54-58 | The first candidate is the base, the n-th after it the base followed by the decimal number n + 1. |
| `PosixNames.CandidatesDiffer` | connectors/ACCESS/AMIE-Processor/handler/posix_alloc.go:54-58 | All candidates of a base are pairwise distinct. |
| `PosixNames.CandidateFits` | pkg/posix/username.go:54-61 | Every candidate up to suffix 999 has at most 32 characters, for every prefix with which a base can be built. |
| `PosixNames.DecimalReadsBack` | connectors/ACCESS/AMIE-Processor/handler/posix_alloc.go:57-57 | Decimal notation reads back to the number. |
| `Provisioning.Service.CreateComputeClusterUser` | pkg/service/compute_cluster_user.go:33-84 | Each refusal exactly under its condition, otherwise exactly one new row; (cluster, user) and (cluster, name) stay unique. |
| `Provisioning.Service.TryCandidates` | connectors/ACCESS/AMIE-Processor/handler/posix_alloc.go:54-74 | Success takes the least free candidate, of which there is only one; exhaustion happens if and only if the user is already mapped or all 999 are taken; any other error is returned at once. |
| `Provisioning.Service.Allocate` | connectors/ACCESS/AMIE-Processor/handler/posix_alloc.go:31-82 | The same for a person and a prefix, with every outcome characterised and the login cap kept. |
| `ChangeRequests.LogAgreesOverRun` | pkg/service/compute_allocation_change_request.go:44-199 | Over every run of creations as PENDING, updates to statuses that are not log keywords, and deletions, folding the event log gives the stored status of every request. |
| `ChangeRequests.CreateAgreesIff` | pkg/service/compute_allocation_change_request.go:44-86 | A creation keeps log and table agreeing if and only if it is created PENDING. |
| `ChangeRequests.UpdateAgreesIff` | pkg/service/compute_allocation_change_request.go:132-181 | An update keeps them agreeing if and only if it does not move the request to CREATED, UPDATED or DELETED. |
| `ChangeRequests.DeleteAgrees` | pkg/service/compute_allocation_change_request.go:204-230 | A deletion keeps them agreeing. |
| `ChangeRequests.BornApprovedDisagrees` | pkg/service/compute_allocation_change_request.go:64-83 | A concrete request created APPROVED: the log says PENDING and there is no diff. |
| `ChangeRequests.MovedToKeywordDisagrees` | pkg/service/compute_allocation_change_request.go:155-176 | A pending request moved to DELETED stays stored while the log says it does not exist. |
| `ChangeRequests.DiffsMatchApprovals` | pkg/service/compute_allocation_change_request.go:161-197 | Over every run, whatever the statuses, a request has as many diffs as APPROVED events, less one for each call that, judged by the state it meets, moves it into APPROVED while the diff cannot be written. |
| `ChangeRequests.OneDiffPerApproval` | pkg/service/compute_allocation_change_request.go:161-197 | Repeating an update adds no diff. |
| `ChangeRequests.LostDiffStaysLost` | pkg/service/compute_allocation_change_request.go:182-197 | A diff that failed to be written is not written by repeating the call. |
| `ChangeRequests.Service.CreateChangeRequest` | pkg/service/compute_allocation_change_request.go:44-86 | Every check and default, then row and event, as the creation step says. |
| `ChangeRequests.Service.UpdateChangeRequest` | pkg/service/compute_allocation_change_request.go:132-199 | Every check, the fields left blank filled from the stored row, then row, event and diff, as the update step says; a diff is written exactly by a call that approves, for that request and with the call's units. |
| `ChangeRequests.Service.DeleteChangeRequest` | pkg/service/compute_allocation_change_request.go:204-230 | Appends the event and removes the row, as the deletion step says. |
| `ChangeRequests.CreateIs` | pkg/service/compute_allocation_change_request.go:44-86 | A request is stored field by field as given, PENDING and dated now unless it says otherwise; each refusal has its condition. |
| `ChangeRequests.UpdateStores` | pkg/service/compute_allocation_change_request.go:132-181 | A blank allocation, requester, status or time keeps the stored one and every other field is the call's; no other request changes, one event is appended, and each refusal has its condition. |
| `ChangeRequests.DeleteIs` | pkg/service/compute_allocation_change_request.go:204-230 | A deletion removes that request, appends one event and touches no diff. |
| `ChangeRequests.ApprovalWrites` | pkg/service/compute_allocation_change_request.go:161-197 | A call that moves a stored request into APPROVED, and no other, appends one diff: of that request, on its allocation, with the call's units and its requested status or ACTIVE. |
| `ChangeRequests.UnitsOverRun` | pkg/service/compute_allocation_change_request.go:182-197 | Over every run, the diffs of a request on an allocation add up to exactly the units of the calls that approved it there. |
| `ReadPolicy.AllocationReaders` | internal/server/route_policy.go:33-64 | An allocation can be read exactly by a caller with the read privilege, or with any role on its project, or with an ACTIVE membership; never without a caller. |
| `ReadPolicy.ProjectReaders` | internal/server/route_policy.go:70-89 | A project exactly by a caller with the read privilege, with any role on it, or with an ACTIVE membership on one of its allocations. |
| `ReadPolicy.AllocationPolicyIsListing` | internal/server/route_policy.go:33-64 | Without the privilege, an allocation can be read by id if and only if the participant listing shows it. |
| `ReadPolicy.ProjectPolicyIsListing` | internal/store/project_store.go:195-209 | Without the privilege, a project can be read by id if and only if the participant listing shows it; policy and listing are two queries, written out apart. |
| `ReadPolicy.AllocationImpliesProject` | internal/store/project_membership_store.go:87-101 | Whoever can read an allocation can read its project. |
| `ReadPolicy.PolicyIsListingAfterRun` | internal/store/compute_allocation_store.go:102-121 | Both agreements hold after every run of the directory steps. |
| `ReadPolicy.RunKeepsRefers` | internal/store/project_store.go:195-209 | Every run keeps roles and allocations on projects that exist, which the project listing relies on. |
| `DeviceFlow.PollForToken` | extensions/CILogon-SSH-PAM/src/pam_oauth2_device.cpp:192-256 | For every answer sequence: time slept is exactly the sum of the intervals, at most 300 seconds over at most 100 polls; a token is returned exactly when it is the first decisive answer in time, an error for any other decisive answer, and a time-out exactly when the next sleep would exceed the budget. |
| `DeviceFlow.TimeoutPollsAreUnique` | extensions/CILogon-SSH-PAM/src/pam_oauth2_device.cpp:210-218 | The number of polls before a time-out is determined by the answers. |
| `DeviceFlow.PendingForeverPolls` | extensions/CILogon-SSH-PAM/src/pam_oauth2_device.cpp:210-232 | Never answered, the loop polls 100 times and sleeps 300 seconds. |
| `DeviceFlow.SlowedForeverPolls` | extensions/CILogon-SSH-PAM/src/pam_oauth2_device.cpp:233-236 | Always slowed down, it polls 22 times and sleeps 297 seconds. |
| `DeviceFlow.WaitsAsAskedIff` | extensions/CILogon-SSH-PAM/src/pam_oauth2_device.cpp:233-236 | It waits as long as section 3.5 of RFC 8628 asks if and only if no slow_down came before. |

## Left out

- SQL text, drivers, row scanning, HTTP handlers, JSON decoding, token verification, logging, metrics and published events: plumbing around the modelled steps.
- Isolation of concurrent database transactions: each transaction is one step; only the identity cache is modelled with interleaving.
- Organizations, clusters, resources, rates, usages, overrides and event subscribers: plain create, read, update and delete.
- Updates that move a membership, an account or a project to another key, and deletions of memberships, accounts, projects and allocations: the runs of the user directory do not contain them; the read-policy rows for single states need only unique keys and the foreign keys.
- User statuses outside the five the service names: the update accepts any string.
- LedgerIsCompletedSumOnlyIf: with negative amounts lost units can cancel, so there the converse is stated per delivery by DeliveryIsLedgeredIff.
- AMIE poller and worker, their retry counts and packet queues: a run may deliver any packet any number of times instead.
- Moving certificate names and audit rows after a merge packet: they follow a merge that commits on its own, and their failure is a parameter of the delivery.
- Packets that fail half-way through stopping or resuming a project: the handlers are modelled as completing.
- 64-bit limits of service-unit amounts: amounts are unbounded integers.
- Case-insensitive email comparison (the column type is CITEXT): emails are compared exactly.
- Trace identifiers of audit rows: a tree is built from the rows of one trace, already in order.
- User names with a non-ASCII prefix: lengths are counted in characters.
- SLURM, COmanage and analytics connectors, SSH signing, the portal, the mock AMIE server, QR, LDAP and the PAM conversation: other components or foreign code.
