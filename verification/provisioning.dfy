/**
Cluster accounts: the checked insert of pkg/service/compute_cluster_user.go and the allocator
of connectors/ACCESS/AMIE-Processor/handler/posix_alloc.go that tries one candidate name after
another.
 */
module Provisioning {
  import opened KeyedTable
  import opened PosixNames
  import opened Directory

  datatype Person = Person(first: string, last: string)

  datatype Failure = BadInput | Missing | Taken | Nameless | Exhausted | Crashed
  datatype Result = Created(account: Row<Account>) | Failed(failure: Failure)

  /** The k-th candidate is free on the cluster and every earlier one is taken. */
  ghost predicate FirstFree(accounts: set<Row<Account>>, cluster: ClusterId, base: string, k: nat) {
    && !NameTaken(accounts, cluster, Candidate(base, k))
    && forall j: nat :: j < k ==> NameTaken(accounts, cluster, Candidate(base, j))
  }

  ghost predicate AllTaken(accounts: set<Row<Account>>, cluster: ClusterId, base: string) {
    forall j: nat :: j < MAX_COLLISION_SUFFIX ==> NameTaken(accounts, cluster, Candidate(base, j))
  }

  /** There is at most one first free candidate. */
  lemma FirstFreeIsUnique(accounts: set<Row<Account>>, cluster: ClusterId, base: string, j: nat, k: nat)
    requires FirstFree(accounts, cluster, base, j) && FirstFree(accounts, cluster, base, k)
    ensures j == k
  {
  }

  class Service {
    var clusters: set<ClusterId>
    var people: map<UserId, Person>
    var accounts: set<Row<Account>>

    constructor ()
      ensures accounts == {} && UniqueAccounts(accounts)
    {
      clusters, people, accounts := {}, map[], {};
    }

    /** Refused in this order: blank fields, unknown cluster or user, user already mapped, name already used. */
    method CreateComputeClusterUser(cluster: ClusterId, user: UserId, name: string, id: string) returns (r: Result)
      requires UniqueAccounts(accounts)
      modifies this`accounts
      ensures UniqueAccounts(accounts)
      ensures r == Failed(BadInput) <==>
        cluster == "" || user == "" || name == "" || cluster !in clusters || user !in people
      ensures r == Failed(Taken) <==>
        && r != Failed(BadInput)
        && (cluster in Keys(old(accounts), user) || NameTaken(old(accounts), cluster, name))
      ensures r.Failed? ==> accounts == old(accounts) && r.failure in {BadInput, Taken}
      ensures r.Created? ==> r.account == Row(cluster, user, Account(id, name)) && accounts == old(accounts) + {r.account}
    {
      if cluster == "" { return Failed(BadInput); }
      if user == "" { return Failed(BadInput); }
      if name == "" { return Failed(BadInput); }
      if cluster !in clusters { return Failed(BadInput); }
      if user !in people { return Failed(BadInput); }
      if cluster in Keys(accounts, user) { return Failed(Taken); }
      if NameTaken(accounts, cluster, name) { return Failed(Taken); }
      r := Created(Row(cluster, user, Account(id, name)));
      NewAccountKeepsUnique(accounts, r.account);
      accounts := accounts + {r.account};
    }

    /** The loop over candidates. */
    method TryCandidates(cluster: ClusterId, user: UserId, base: string, id: string) returns (r: Result)
      requires UniqueAccounts(accounts) && base != "" && user != "" && user in people
      modifies this`accounts
      ensures UniqueAccounts(accounts)
      ensures r == Failed(BadInput) <==> cluster == "" || cluster !in clusters
      ensures r == Failed(Exhausted) <==>
        && r != Failed(BadInput)
        && (cluster in Keys(old(accounts), user) || AllTaken(old(accounts), cluster, base))
      ensures r.Failed? ==> accounts == old(accounts) && r.failure in {BadInput, Exhausted}
      ensures forall k: nat :: r.Created? && FirstFree(old(accounts), cluster, base, k) ==>
        r.account.value.localUsername == Candidate(base, k)
      ensures r.Created? ==>
        && cluster !in Keys(old(accounts), user)
        && accounts == old(accounts) + {r.account}
        && exists k: nat :: k < MAX_COLLISION_SUFFIX && FirstFree(old(accounts), cluster, base, k)
             && r.account == Row(cluster, user, Account(id, Candidate(base, k)))
    {
      for n := 0 to MAX_COLLISION_SUFFIX
        invariant accounts == old(accounts)
        invariant n > 0 ==> cluster != "" && cluster in clusters
        invariant cluster in Keys(accounts, user)
          || forall j: nat :: j < n ==> NameTaken(accounts, cluster, Candidate(base, j))
      {
        var candidate := base;
        if n > 0 { candidate := base + Decimal(n + 1); }
        assert candidate == Candidate(base, n);
        r := CreateComputeClusterUser(cluster, user, candidate, id);
        if r.Created? {
          assert FirstFree(old(accounts), cluster, base, n);
          forall k: nat | FirstFree(old(accounts), cluster, base, k) ensures k == n {
            FirstFreeIsUnique(old(accounts), cluster, base, k, n);
          }
          return;
        }
        if r.failure == Taken { continue; }
        return;
      }
      return Failed(Exhausted);
    }

    /**
    The least free candidate of the person's base becomes their account, unless they have one
    on the cluster or all candidates are taken. No user has a blank id.
     */
    method Allocate(cluster: ClusterId, user: UserId, prefix: string, lower: char -> char, id: string) returns (r: Result)
      requires UniqueAccounts(accounts) && "" !in people
      modifies this`accounts
      ensures UniqueAccounts(accounts)
      ensures r.Failed? ==> accounts == old(accounts) && r != Failed(Taken)
      ensures r == Failed(Missing) <==> user !in people
      ensures user in people ==>
        var base := BaseOf(Normalized(people[user].first, lower), Normalized(people[user].last, lower), prefix);
        && (r == Failed(Nameless) <==> base.Unbuildable?)
        && (r == Failed(Crashed) <==> base.Panics?)
        && (r == Failed(BadInput) <==> base.Built? && (cluster == "" || cluster !in clusters))
        && (r == Failed(Exhausted) <==>
              && base.Built? && cluster != "" && cluster in clusters
              && (cluster in Keys(old(accounts), user) || AllTaken(old(accounts), cluster, base.name)))
        && (r.Created? ==>
              && base.Built?
              && accounts == old(accounts) + {r.account}
              && |r.account.value.localUsername| <= LOGIN_CAP
              && exists k: nat :: k < MAX_COLLISION_SUFFIX && FirstFree(old(accounts), cluster, base.name, k)
                   && r.account == Row(cluster, user, Account(id, Candidate(base.name, k))))
    {
      if user !in people { return Failed(Missing); }
      var base := BuildBase(people[user].first, people[user].last, prefix, lower);
      if base.Unbuildable? { return Failed(Nameless); }
      if base.Panics? { return Failed(Crashed); }
      assert base.name != "" by {
        BuiltBaseFits(Normalized(people[user].first, lower), Normalized(people[user].last, lower), prefix);
        assert |prefix + "-"| > 0;
      }
      r := TryCandidates(cluster, user, base.name, id);
      if r.Created? {
        ghost var k: nat :| k < MAX_COLLISION_SUFFIX && r.account == Row(cluster, user, Account(id, Candidate(base.name, k)));
        CandidateFits(Normalized(people[user].first, lower), Normalized(people[user].last, lower), prefix, k);
      }
    }
  }
}
