/**
Certificate names (DNs) of users, and how request_user_modify reconciles them with a packet's
list (connectors/ACCESS/AMIE-Processor/handler/request_user_modify.go). A name belongs to at
most one user: the table is unique on it, and inserting a name that is taken does nothing.
 */
module DnSync {
  type UserId = string
  type Dn = string

  datatype Holding = Holding(id: nat, user: UserId)
  type Table = map<Dn, Holding>

  function HeldBy(t: Table, user: UserId): set<Dn> {
    set dn | dn in t && t[dn].user == user
  }

  function HeldByOthers(t: Table, user: UserId): set<Dn> {
    set dn | dn in t && t[dn].user != user
  }

  function Names(list: seq<Dn>): set<Dn> {
    set i | 0 <= i < |list| :: list[i]
  }

  /** Both tables have the same rows of everyone but this user. */
  ghost predicate OthersAlike(before: Table, after: Table, user: UserId) {
    && (forall dn :: dn in HeldByOthers(before, user) ==> dn in after && after[dn] == before[dn])
    && (forall dn :: dn in HeldByOthers(after, user) ==> dn in before && before[dn] == after[dn])
  }

  /**
  What a replace packet leaves: the user holds exactly the listed names that no one else
  holds, names held before and still listed keep their rows, and no one else's row changes.
  An empty list is no list.
   */
  ghost predicate Synced(before: Table, after: Table, user: UserId, incoming: seq<Dn>) {
    if incoming == [] then after == before
    else
      && HeldBy(after, user) == Names(incoming) - HeldByOthers(before, user)
      && (forall dn :: dn in HeldBy(before, user) * Names(incoming) ==> dn in after && after[dn] == before[dn])
      && OthersAlike(before, after, user)
  }

  /** The user ends up with the listed names if and only if nobody else held one of them. */
  lemma SyncReachesListIff(before: Table, after: Table, user: UserId, incoming: seq<Dn>)
    requires Synced(before, after, user, incoming) && incoming != []
    ensures HeldBy(after, user) == Names(incoming) <==> Names(incoming) !! HeldByOthers(before, user)
  {
  }

  /** A listed name that somebody else holds stays theirs, though it is counted as added. */
  lemma TakenNameIsNotGained(after: Table)
    requires Synced(map["d" := Holding(0, "other")], after, "u", ["d"])
    ensures HeldBy(after, "u") == {} && after == map["d" := Holding(0, "other")]
    ensures |Names(["d"]) - HeldBy(map["d" := Holding(0, "other")], "u")| == 1
  {
    var before: Table := map["d" := Holding(0, "other")];
    assert ["d"][0] == "d";
    assert Names(["d"]) == {"d"} && HeldByOthers(before, "u") == {"d"} && HeldBy(before, "u") == {};
    assert forall dn :: dn in after <==> dn in HeldBy(after, "u") || dn in HeldByOthers(after, "u");
  }

  lemma BlockedNamesCount(names: set<Dn>, held: set<Dn>, others: set<Dn>)
    requires held !! others
    ensures |names - held| == |names - others - held| <==> names !! others
  {
    var gained, blocked := names - others - held, names * others;
    assert names - held == gained + blocked;
    if names !! others {
      assert blocked == {};
    } else {
      var dn :| dn in names && dn in others;
      assert dn in blocked;
    }
  }

  /** Reported additions are the listed names the user did not hold; they are the true ones under the same condition. */
  lemma AddedIsTrueIff(before: Table, after: Table, user: UserId, incoming: seq<Dn>)
    requires Synced(before, after, user, incoming) && incoming != []
    ensures |Names(incoming) - HeldBy(before, user)| == |HeldBy(after, user) - HeldBy(before, user)|
      <==> Names(incoming) !! HeldByOthers(before, user)
  {
    BlockedNamesCount(Names(incoming), HeldBy(before, user), HeldByOthers(before, user));
  }

  /** Reconciling twice with the same list is reconciling once. */
  lemma SyncTwiceIsOnce(before: Table, once: Table, twice: Table, user: UserId, incoming: seq<Dn>)
    requires Synced(before, once, user, incoming) && Synced(once, twice, user, incoming)
    ensures twice == once
  {
    if incoming != [] {
      assert HeldByOthers(once, user) == HeldByOthers(before, user) == HeldByOthers(twice, user);
      assert HeldBy(twice, user) == HeldBy(once, user);
      assert forall dn :: dn in once <==> dn in HeldBy(once, user) || dn in HeldByOthers(once, user);
      assert forall dn :: dn in twice <==> dn in HeldBy(twice, user) || dn in HeldByOthers(twice, user);
      assert forall dn :: dn in HeldBy(once, user) ==> dn in HeldBy(once, user) * Names(incoming);
    }
  }

  // ---------- The loops ----------

  ghost predicate Distinct(list: seq<Dn>) {
    forall i, j :: 0 <= i < j < |list| ==> list[i] != list[j]
  }

  /** Those of the first n listed names that are in the given set, or that are not. */
  ghost function Picked(list: seq<Dn>, n: nat, names: set<Dn>, inside: bool): set<Dn>
    requires n <= |list|
  {
    if n == 0 then {}
    else if (list[n - 1] in names) == inside then Picked(list, n - 1, names, inside) + {list[n - 1]}
    else Picked(list, n - 1, names, inside)
  }

  ghost function CountPicked(list: seq<Dn>, n: nat, names: set<Dn>, inside: bool): nat
    requires n <= |list|
  {
    if n == 0 then 0
    else CountPicked(list, n - 1, names, inside) + if (list[n - 1] in names) == inside then 1 else 0
  }

  lemma {:induction false} PickedMeans(list: seq<Dn>, n: nat, names: set<Dn>, inside: bool)
    requires n <= |list|
    ensures forall dn :: dn in Picked(list, n, names, inside) <==> dn in list[..n] && (dn in names) == inside
  {
    if n > 0 {
      PickedMeans(list, n - 1, names, inside);
      assert list[..n] == list[..n - 1] + [list[n - 1]];
    }
  }

  lemma {:induction false} PickedCount(list: seq<Dn>, n: nat, names: set<Dn>, inside: bool)
    requires n <= |list| && Distinct(list)
    ensures |Picked(list, n, names, inside)| == CountPicked(list, n, names, inside)
  {
    if n > 0 {
      PickedCount(list, n - 1, names, inside);
      PickedMeans(list, n - 1, names, inside);
      assert list[n - 1] !in list[..n - 1];
    }
  }

  /** `after` is `before` without those names. */
  ghost predicate Shrunk(before: Table, after: Table, gone: set<Dn>) {
    && (forall dn :: dn in after <==> dn in before && dn !in gone)
    && (forall dn :: dn in after ==> after[dn] == before[dn])
  }

  /** `after` keeps every row of `before` and gives the user those of the names that were free. */
  ghost predicate Grown(before: Table, after: Table, names: set<Dn>, user: UserId) {
    && (forall dn :: dn in after <==> dn in before || dn in names)
    && (forall dn :: dn in before ==> dn in after && after[dn] == before[dn])
    && (forall dn :: dn in after && dn !in before ==> after[dn].user == user)
  }

  lemma RemovedThenAdded(before: Table, mid: Table, after: Table, user: UserId, incoming: seq<Dn>)
    requires incoming != [] && Shrunk(before, mid, HeldBy(before, user) - Names(incoming))
    requires Grown(mid, after, Names(incoming) - HeldBy(before, user), user)
    ensures Synced(before, after, user, incoming)
  {
  }

  /** Some order of the set's members. */
  method Enumerate(names: set<Dn>) returns (list: seq<Dn>)
    ensures Distinct(list)
    ensures forall dn :: dn in list <==> dn in names
  {
    list := [];
    var left := names;
    while left != {}
      invariant Distinct(list)
      invariant forall dn :: dn in names <==> dn in list || dn in left
      invariant forall dn :: dn in list ==> dn !in left
      decreases left
    {
      var dn :| dn in left;
      assert forall i :: 0 <= i < |list| ==> list[i] in list;
      list, left := list + [dn], left - {dn};
    }
  }

  class Store {
    var rows: Table
    var nextId: nat
    ghost var nameOf: map<nat, Dn>   // the name each row id was drawn for

    /** Row ids are unique and drawn in order. */
    ghost predicate Valid()
      reads this
    {
      forall dn :: dn in rows ==> rows[dn].id < nextId && rows[dn].id in nameOf && nameOf[rows[dn].id] == dn
    }

    constructor ()
      ensures Valid() && rows == map[]
    {
      rows, nextId, nameOf := map[], 0, map[];
    }

    /** INSERT ... ON CONFLICT DO NOTHING. */
    method Add(user: UserId, dn: Dn)
      requires Valid()
      modifies this
      ensures Valid()
      ensures rows == if dn in old(rows) then old(rows) else old(rows)[dn := Holding(old(nextId), user)]
    {
      if dn !in rows {
        rows := rows[dn := Holding(nextId, user)];
        nameOf := nameOf[nextId := dn];
      }
      nextId := nextId + 1;
    }

    method DeleteByID(id: nat)
      requires Valid()
      modifies this`rows
      ensures Valid()
      ensures forall dn :: dn in old(rows) && old(rows)[dn].id == id ==> Shrunk(old(rows), rows, {dn})
      ensures (forall dn :: dn in old(rows) ==> old(rows)[dn].id != id) ==> rows == old(rows)
    {
      rows := map dn | dn in rows && rows[dn].id != id :: rows[dn];
    }

    /** The user's names. */
    method ListByUser(user: UserId) returns (list: seq<Dn>)
      ensures Distinct(list)
      ensures forall dn :: dn in list <==> dn in HeldBy(rows, user)
    {
      list := Enumerate(set dn | dn in rows && rows[dn].user == user);
    }

    /** Deletes those of the listed names that are in the given set, or that are not. */
    method Remove(list: seq<Dn>, names: set<Dn>, inside: bool) returns (removed: nat)
      requires Valid() && Distinct(list) && forall dn :: dn in list ==> dn in rows
      modifies this`rows
      ensures Valid()
      ensures Shrunk(old(rows), rows, Picked(list, |list|, names, inside))
      ensures removed == CountPicked(list, |list|, names, inside)
    {
      removed := 0;
      for i := 0 to |list|
        invariant Valid()
        invariant Shrunk(old(rows), rows, Picked(list, i, names, inside))
        invariant removed == CountPicked(list, i, names, inside)
      {
        if (list[i] in names) == inside {
          PickedMeans(list, i, names, inside);
          assert list[i] in list && list[i] !in list[..i];
          DeleteByID(rows[list[i]].id);
          removed := removed + 1;
        }
      }
    }

    /** Inserts for the user the listed names outside the given set, counting every attempt. */
    method AddMissing(user: UserId, list: seq<Dn>, have: set<Dn>) returns (added: nat)
      requires Valid()
      modifies this
      ensures Valid()
      ensures Grown(old(rows), rows, Picked(list, |list|, have, false), user)
      ensures added == CountPicked(list, |list|, have, false)
    {
      added := 0;
      for i := 0 to |list|
        invariant Valid()
        invariant Grown(old(rows), rows, Picked(list, i, have, false), user)
        invariant added == CountPicked(list, i, have, false)
      {
        if list[i] !in have {
          Add(user, list[i]);
          added := added + 1;
        }
      }
    }

    /** The replace packet. */
    method SyncDNs(user: UserId, incoming: seq<Dn>) returns (added: nat, removed: nat)
      requires Valid()
      modifies this
      ensures Valid()
      ensures Synced(old(rows), rows, user, incoming)
      ensures removed == if incoming == [] then 0 else |HeldBy(old(rows), user) - Names(incoming)|
      ensures added == if incoming == [] then 0 else |Names(incoming) - HeldBy(old(rows), user)|
    {
      added, removed := 0, 0;
      if incoming == [] { return; }
      var desired := Names(incoming);
      var existing := ListByUser(user);
      var have := set dn | dn in existing;
      removed := Remove(existing, desired, false);
      ghost var mid := rows;
      var wanted := Enumerate(desired);
      added := AddMissing(user, wanted, have);
      PickedMeans(existing, |existing|, desired, false);
      PickedCount(existing, |existing|, desired, false);
      PickedMeans(wanted, |wanted|, have, false);
      PickedCount(wanted, |wanted|, have, false);
      assert existing[..|existing|] == existing && wanted[..|wanted|] == wanted;
      assert Picked(existing, |existing|, desired, false) == HeldBy(old(rows), user) - desired;
      assert Picked(wanted, |wanted|, have, false) == desired - HeldBy(old(rows), user);
      RemovedThenAdded(old(rows), mid, rows, user, incoming);
    }

    /** The delete packet: the listed names go, if the user holds them; all else stays. */
    method DeleteDNs(user: UserId, dns: seq<Dn>) returns (removed: nat)
      requires Valid()
      modifies this`rows
      ensures Valid()
      ensures Shrunk(old(rows), rows, HeldBy(old(rows), user) * Names(dns))
      ensures removed == |HeldBy(old(rows), user) * Names(dns)|
    {
      removed := 0;
      if dns == [] {
        assert HeldBy(old(rows), user) * Names(dns) == {};
        return;
      }
      var target := Names(dns);
      var existing := ListByUser(user);
      removed := Remove(existing, target, true);
      PickedMeans(existing, |existing|, target, true);
      PickedCount(existing, |existing|, target, true);
      assert existing[..|existing|] == existing;
      assert Picked(existing, |existing|, target, true) == HeldBy(old(rows), user) * target;
    }
  }
}
