/**
Tables that hold one row per (key, user), and the reassignment a user merge applies to them:
drop the rows that would collide, then repoint the rest. The same two statements serve
allocation memberships, cluster accounts and project memberships.
 */
module KeyedTable {
  type UserId = string
  type Key = string

  /** `value` holds the columns a reassignment never touches. */
  datatype Row<V> = Row(key: Key, user: UserId, value: V)

  ghost predicate UniqueKeys<V(!new)>(rows: set<Row<V>>) {
    forall r, s :: r in rows && s in rows && r.key == s.key && r.user == s.user ==> r == s
  }

  function RowsOf<V(==)>(rows: set<Row<V>>, user: UserId): (own: set<Row<V>>) {
    set r | r in rows && r.user == user
  }

  function Keys<V(==)>(rows: set<Row<V>>, user: UserId): (keys: set<Key>) {
    set r | r in rows && r.user == user :: r.key
  }

  function Repoint<V(==)>(r: Row<V>, from: UserId, to: UserId): Row<V> {
    if r.user == from then r.(user := to) else r
  }

  /** The rows that survive the deletion. */
  function Kept<V(==)>(rows: set<Row<V>>, from: UserId, to: UserId): set<Row<V>> {
    set r | r in rows && !(r.user == from && r.key in Keys(rows, to))
  }

  function Reassigned<V(==)>(rows: set<Row<V>>, from: UserId, to: UserId): set<Row<V>> {
    set r | r in Kept(rows, from, to) :: Repoint(r, from, to)
  }

  /** DELETE the colliding rows, then UPDATE the user of the others. */
  method ReassignUser<V(==)>(rows: set<Row<V>>, from: UserId, to: UserId) returns (after: set<Row<V>>)
    ensures after == Reassigned(rows, from, to)
  {
    var taken := set s | s in rows && s.user == to :: s.key;
    assert taken == Keys(rows, to);
    var kept := set r | r in rows && !(r.user == from && r.key in taken);
    assert kept == Kept(rows, from, to);
    after := set r | r in kept :: Repoint(r, from, to);
  }

  // ---------- What a reassignment comes to ----------

  /**
  `after` is the keyed union of from's and to's rows of `before`, all of them now to's: where
  both had the key, to's row stays; where only from had it, from's row is handed over as it was.
   */
  ghost predicate KeyedUnion<V(!new)>(before: set<Row<V>>, after: set<Row<V>>, from: UserId, to: UserId) {
    && (forall r :: r in after ==> r.user != from)
    && Keys(after, to) == Keys(before, to) + Keys(before, from)
    && (forall r :: r in before && r.user == to ==> r in after)
    && (forall r :: r in before && r.user == from && r.key !in Keys(before, to) ==> r.(user := to) in after)
    && (forall r: Row<V> :: r.user != from && r.user != to ==> (r in before <==> r in after))
    && UniqueKeys(after)
  }

  /** The table shrank by exactly the number of keys both users held. */
  ghost predicate DropsOverlap<V(!new)>(before: set<Row<V>>, after: set<Row<V>>, from: UserId, to: UserId) {
    |after| == |before| - |Keys(before, from) * Keys(before, to)|
  }

  lemma WhereFrom<V>(rows: set<Row<V>>, from: UserId, to: UserId, r: Row<V>) returns (s: Row<V>)
    requires r in Reassigned(rows, from, to)
    ensures s in Kept(rows, from, to) && r == Repoint(s, from, to)
  {
    s :| s in Kept(rows, from, to) && r == Repoint(s, from, to);
  }

  /** Rows that differ before a reassignment differ after it, in their own (key, user). */
  lemma RepointSeparates<V(!new)>(rows: set<Row<V>>, from: UserId, to: UserId, r: Row<V>, s: Row<V>)
    requires UniqueKeys(rows) && r in Kept(rows, from, to) && s in Kept(rows, from, to)
    requires Repoint(r, from, to).key == Repoint(s, from, to).key && Repoint(r, from, to).user == Repoint(s, from, to).user
    ensures r == s
  {
  }

  lemma ReassignKeepsKeys<V(!new)>(rows: set<Row<V>>, from: UserId, to: UserId)
    requires UniqueKeys(rows)
    ensures UniqueKeys(Reassigned(rows, from, to))
  {
  }

  lemma ReassignIsKeyedUnion<V(!new)>(rows: set<Row<V>>, from: UserId, to: UserId)
    requires UniqueKeys(rows) && from != to
    ensures KeyedUnion(rows, Reassigned(rows, from, to), from, to)
  {
    var after := Reassigned(rows, from, to);
    ReassignKeepsKeys(rows, from, to);
    forall r | r in rows && (r.user != from || r.key !in Keys(rows, to)) ensures Repoint(r, from, to) in after {
      assert r in Kept(rows, from, to);
    }
    ReassignJoinsKeys(rows, from, to);
  }

  lemma ReassignJoinsKeys<V(!new)>(rows: set<Row<V>>, from: UserId, to: UserId)
    requires from != to
    ensures Keys(Reassigned(rows, from, to), to) == Keys(rows, to) + Keys(rows, from)
  {
    var after := Reassigned(rows, from, to);
    forall k | k in Keys(rows, to) + Keys(rows, from) ensures k in Keys(after, to) {
      if k in Keys(rows, to) {
        var r :| r in rows && r.user == to && r.key == k;
        assert Repoint(r, from, to) in after;
      } else {
        var r :| r in rows && r.user == from && r.key == k;
        assert r in Kept(rows, from, to) && Repoint(r, from, to) in after;
      }
    }
    forall k | k in Keys(after, to) ensures k in Keys(rows, to) + Keys(rows, from) {
      var r :| r in after && r.user == to && r.key == k;
      var r0 := WhereFrom(rows, from, to, r);
    }
  }

  /** The keyed union is a full description: only one table fits it. */
  lemma KeyedUnionDetermines<V(!new)>(before: set<Row<V>>, a: set<Row<V>>, b: set<Row<V>>, from: UserId, to: UserId)
    requires KeyedUnion(before, a, from, to) && KeyedUnion(before, b, from, to)
    ensures a == b
  {
    KeyedUnionWithin(before, a, b, from, to);
    KeyedUnionWithin(before, b, a, from, to);
  }

  lemma KeyedUnionWithin<V(!new)>(before: set<Row<V>>, a: set<Row<V>>, b: set<Row<V>>, from: UserId, to: UserId)
    requires KeyedUnion(before, a, from, to) && KeyedUnion(before, b, from, to)
    ensures a <= b
  {
    forall r | r in a ensures r in b {
      if r.user == to {
        assert r.key in Keys(a, to);
        if r.key in Keys(before, to) {
          var s :| s in before && s.user == to && s.key == r.key;
        } else {
          var s :| s in before && s.user == from && s.key == r.key;
          assert s.(user := to) in a;
        }
      }
    }
  }

  // ---------- Counting ----------

  lemma {:induction false} SameSize<A, B>(xs: set<A>, ys: set<B>, f: A -> B)
    requires forall x :: x in xs ==> f(x) in ys
    requires forall y :: y in ys ==> exists x :: x in xs && f(x) == y
    requires forall x, z :: x in xs && z in xs && f(x) == f(z) ==> x == z
    ensures |xs| == |ys|
    decreases xs
  {
    if xs == {} {
      assert ys == {};
    } else {
      var x :| x in xs;
      forall y | y in ys - {f(x)} ensures exists z :: z in xs - {x} && f(z) == y {
        var z :| z in xs && f(z) == y;
        assert z in xs - {x};
      }
      SameSize(xs - {x}, ys - {f(x)}, f);
    }
  }

  lemma RepointKeepsCount<V(!new)>(rows: set<Row<V>>, from: UserId, to: UserId)
    requires UniqueKeys(rows)
    ensures |Reassigned(rows, from, to)| == |Kept(rows, from, to)|
  {
    var kept := Kept(rows, from, to);
    var repoint := (r: Row<V>) => Repoint(r, from, to);
    forall r, s | r in kept && s in kept && repoint(r) == repoint(s) ensures r == s {
      RepointSeparates(rows, from, to, r, s);
    }
    SameSize(kept, Reassigned(rows, from, to), repoint);
  }

  lemma OneRowPerDroppedKey<V(!new)>(rows: set<Row<V>>, from: UserId, to: UserId)
    requires UniqueKeys(rows)
    ensures |rows - Kept(rows, from, to)| == |Keys(rows, from) * Keys(rows, to)|
  {
    var gone, both := rows - Kept(rows, from, to), Keys(rows, from) * Keys(rows, to);
    var key := (r: Row<V>) => r.key;
    forall k | k in both ensures exists r :: r in gone && key(r) == k {
      var r :| r in rows && r.user == from && r.key == k;
      assert r in gone && key(r) == k;
    }
    SameSize(gone, both, key);
  }

  lemma ReassignDropsOverlap<V(!new)>(rows: set<Row<V>>, from: UserId, to: UserId)
    requires UniqueKeys(rows)
    ensures DropsOverlap(rows, Reassigned(rows, from, to), from, to)
  {
    RepointKeepsCount(rows, from, to);
    OneRowPerDroppedKey(rows, from, to);
    var kept := Kept(rows, from, to);
    assert rows == kept + (rows - kept);
  }

  // ---------- What else survives ----------

  /** A second unique column per key, such as a cluster's local user names. */
  ghost predicate UniqueNames<V(!new)>(rows: set<Row<V>>, name: V -> string) {
    forall r, s :: r in rows && s in rows && r.key == s.key && name(r.value) == name(s.value) ==> r == s
  }

  lemma ReassignKeepsNames<V(!new)>(rows: set<Row<V>>, from: UserId, to: UserId, name: V -> string)
    requires UniqueNames(rows, name)
    ensures UniqueNames(Reassigned(rows, from, to), name)
  {
  }

  /** Reassigned to itself, a user loses every row: each collides with itself. */
  lemma ReassignToSelfErases<V(!new)>(rows: set<Row<V>>, user: UserId)
    ensures Reassigned(rows, user, user) == rows - RowsOf(rows, user)
  {
    var after := Reassigned(rows, user, user);
    forall r | r in after ensures r in rows - RowsOf(rows, user) {
      var r0 := WhereFrom(rows, user, user, r);
      assert r0.user == user ==> r0.key in Keys(rows, user);
    }
    forall r | r in rows - RowsOf(rows, user) ensures r in after {
      assert r in Kept(rows, user, user) && Repoint(r, user, user) == r;
    }
  }
}
