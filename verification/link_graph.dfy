/**
The shape a tree builder leaves behind, over row indices: row j hangs g[j].node
below g[j].parent. Walks from the root, and when they show every row exactly once.
 */
module LinkGraph {

  const ROOT: int := -1

  datatype Link = Link(parent: int, node: nat)

  type Graph = seq<Link>

  /** Parents are rows or ROOT, and a row standing in for another stands for itself. */
  ghost predicate Valid(g: Graph) {
    && (forall j :: 0 <= j < |g| ==> ROOT <= g[j].parent < |g|)
    && (forall i, j :: 0 <= i < |g| && 0 <= j < |g| && g[j].node == i ==> g[i].node == i)
  }

  /** The children of p contributed by the first n rows, in row order. */
  function Links(g: Graph, p: int, n: nat): (cs: seq<nat>)
    requires n <= |g|
  {
    if n == 0 then []
    else Links(g, p, n - 1) + (if g[n - 1].parent == p then [g[n - 1].node] else [])
  }

  function Children(g: Graph, p: int): (cs: seq<nat>)
  {
    Links(g, p, |g|)
  }

  // ---------- Conservation ----------

  /** All child links of ROOT and of nodes 0 to hi - 1, counted after n rows. */
  function LinkCount(g: Graph, n: nat, hi: int): nat
    requires n <= |g| && ROOT <= hi
    decreases hi + 1
  {
    if hi == ROOT then 0 else LinkCount(g, n, hi - 1) + |Links(g, hi - 1, n)|
  }

  lemma {:induction false} OneLinkPerRow(g: Graph, n: nat, hi: int)
    requires 0 < n <= |g| && ROOT <= hi && ROOT <= g[n - 1].parent
    ensures LinkCount(g, n, hi) == LinkCount(g, n - 1, hi) + (if g[n - 1].parent < hi then 1 else 0)
    decreases hi + 1
  {
    if hi != ROOT { OneLinkPerRow(g, n, hi - 1); }
  }

  lemma {:induction false} NoLinksWithoutRows(g: Graph, hi: int)
    requires ROOT <= hi
    ensures LinkCount(g, 0, hi) == 0
    decreases hi + 1
  {
    if hi != ROOT { NoLinksWithoutRows(g, hi - 1); }
  }

  /** There is always exactly one child link per row. */
  lemma {:induction false} LinksConserveRows(g: Graph, n: nat)
    requires Valid(g) && n <= |g|
    ensures LinkCount(g, n, |g|) == n
  {
    if n == 0 {
      NoLinksWithoutRows(g, |g|);
    } else {
      LinksConserveRows(g, n - 1);
      OneLinkPerRow(g, n, |g|);
    }
  }

  // ---------- Walking ----------

  /** Preorder walk below p, cut off at depth d. */
  function Walk(g: Graph, p: int, d: nat): (visited: seq<nat>)
    decreases d, 0
  {
    if d == 0 then [] else WalkAll(g, Children(g, p), d - 1)
  }

  function WalkAll(g: Graph, cs: seq<nat>, d: nat): (visited: seq<nat>)
    decreases d, |cs| + 1
  {
    if cs == [] then [] else [cs[0]] + Walk(g, cs[0], d) + WalkAll(g, cs[1..], d)
  }

  /** No row's node was replaced by another row's. */
  predicate OwnNodes(g: Graph) {
    forall j :: 0 <= j < |g| ==> g[j].node == j
  }

  /** Following parents from i reaches ROOT within k links. */
  predicate Grounded(g: Graph, i: int, k: nat)
    decreases k
  {
    i == ROOT || (0 <= i < |g| && k > 0 && Grounded(g, g[i].parent, k - 1))
  }

  ghost predicate ReachesRoot(g: Graph, i: nat) {
    exists k: nat :: Grounded(g, i, k)
  }

  ghost predicate Acyclic(g: Graph) {
    forall i :: 0 <= i < |g| ==> ReachesRoot(g, i)
  }

  /** How often the walk from the root, cut off at depth d, shows row i. */
  function Visits(g: Graph, i: nat, d: nat): nat {
    Count(Walk(g, ROOT, d), i)
  }

  ghost predicate EveryRowOnceFrom(g: Graph, enough: nat) {
    forall d: nat, i: nat :: d >= enough && i < |g| ==> Visits(g, i, d) == 1
  }

  /** From some depth on, the walk from the root shows every row exactly once. */
  ghost predicate ShowsEveryRowOnce(g: Graph) {
    exists enough: nat :: EveryRowOnceFrom(g, enough)
  }

  function Count(s: seq<nat>, i: nat): nat {
    if s == [] then 0 else (if s[0] == i then 1 else 0) + Count(s[1..], i)
  }

  lemma {:induction false} CountAppend(s: seq<nat>, t: seq<nat>, i: nat)
    ensures Count(s + t, i) == Count(s, i) + Count(t, i)
  {
    if s == [] {
      assert s + t == t;
    } else {
      assert (s + t)[1..] == s[1..] + t;
      CountAppend(s[1..], t, i);
    }
  }

  lemma {:induction false} CountZero(s: seq<nat>, i: nat)
    requires i !in s
    ensures Count(s, i) == 0
  {
    if s != [] { CountZero(s[1..], i); }
  }

  /** All rows that share a node are filed under the same parent. */
  ghost predicate OneParent(g: Graph) {
    forall i, j :: 0 <= i < |g| && 0 <= j < |g| && g[j].node == i ==> g[j].parent == g[i].parent
  }

  /** How many of the first n rows share node i. */
  function RowCount(g: Graph, i: nat, n: nat): nat
    requires n <= |g|
  {
    if n == 0 then 0 else RowCount(g, i, n - 1) + if g[n - 1].node == i then 1 else 0
  }

  lemma {:induction false} ChildCount(g: Graph, p: int, i: nat, n: nat)
    requires OneParent(g) && i < |g| && n <= |g|
    ensures Count(Links(g, p, n), i) == if g[i].parent == p then RowCount(g, i, n) else 0
  {
    if n > 0 {
      ChildCount(g, p, i, n - 1);
      CountAppend(Links(g, p, n - 1), if g[n - 1].parent == p then [g[n - 1].node] else [], i);
    }
  }

  lemma {:induction false} CountWalkAll(g: Graph, cs: seq<nat>, i: nat, d: nat)
    requires cs != []
    ensures Count(WalkAll(g, cs, d), i)
         == (if cs[0] == i then 1 else 0) + Count(Walk(g, cs[0], d), i) + Count(WalkAll(g, cs[1..], d), i)
  {
    CountAppend([cs[0]] + Walk(g, cs[0], d), WalkAll(g, cs[1..], d), i);
    CountAppend([cs[0]], Walk(g, cs[0], d), i);
  }

  /** n times a, by addition. */
  function Times(n: nat, a: nat): nat {
    if a == 0 then 0 else n + Times(n, a - 1)
  }

  lemma {:induction false} TimesAdds(n: nat, a: nat, b: nat)
    ensures Times(n, a + b) == Times(n, a) + Times(n, b)
  {
    if b > 0 { TimesAdds(n, a, b - 1); }
  }

  lemma {:induction false} TimesOfSum(n: nat, a: nat, b: nat, c: nat)
    requires a <= 1
    ensures Times(n, a + b + c) == (if a == 1 then n else 0) + Times(n, b) + Times(n, c)
  {
    TimesAdds(n, a, b);
    TimesAdds(n, a + b, c);
  }

  lemma {:induction false} TimesIsProduct(n: nat, a: nat)
    ensures Times(n, a) == n * a
  {
    if a > 0 { TimesIsProduct(n, a - 1); }
  }

  /** Each visit of i below p is as one of its equal copies below p itself, or below a visit of its parent. */
  lemma {:induction false} VisitsBelow(g: Graph, p: int, i: nat, d: nat)
    requires OneParent(g) && i < |g| && d > 0
    ensures
      var n, q := RowCount(g, i, |g|), g[i].parent;
      Count(Walk(g, p, d), i) == (if p == q then n else 0) + if q >= 0 then Times(n, Count(Walk(g, p, d - 1), q)) else 0
    decreases d, 0
  {
    VisitsThroughParent(g, Children(g, p), i, d - 1);
    ChildCount(g, p, i, |g|);
  }

  /** Each visit of i among and below cs is as one of cs, or as one of its equal copies below a visit of its parent. */
  lemma {:induction false} VisitsThroughParent(g: Graph, cs: seq<nat>, i: nat, d: nat)
    requires OneParent(g) && i < |g|
    ensures
      var q := g[i].parent;
      Count(WalkAll(g, cs, d), i)
      == Count(cs, i) + if d > 0 && q >= 0 then Times(RowCount(g, i, |g|), Count(WalkAll(g, cs, d - 1), q)) else 0
    decreases d, |cs| + 1
  {
    if cs != [] {
      var n, q := RowCount(g, i, |g|), g[i].parent;
      CountWalkAll(g, cs, i, d);
      VisitsThroughParent(g, cs[1..], i, d);
      if d > 0 {
        VisitsBelow(g, cs[0], i, d);
        if q >= 0 {
          CountWalkAll(g, cs, q, d - 1);
          TimesOfSum(n, if cs[0] == q then 1 else 0, Count(Walk(g, cs[0], d - 1), q), Count(WalkAll(g, cs[1..], d - 1), q));
        }
      }
    }
  }

  /** The product of the row counts on i's way to the root; 0 if that takes more than k links. */
  function Multiplicity(g: Graph, i: int, k: nat): nat
    decreases k
  {
    if i == ROOT then 1
    else if !(0 <= i < |g|) || k == 0 then 0
    else RowCount(g, i, |g|) * Multiplicity(g, g[i].parent, k - 1)
  }

  /** How often a row is shown when rows share nodes. */
  lemma {:induction false} VisitsAreProducts(g: Graph, i: nat, d: nat)
    requires Valid(g) && OneParent(g) && i < |g|
    ensures Visits(g, i, d) == Multiplicity(g, i, d)
    decreases d
  {
    if d > 0 {
      VisitsThroughParent(g, Children(g, ROOT), i, d - 1);
      ChildCount(g, ROOT, i, |g|);
      if g[i].parent >= 0 {
        VisitsAreProducts(g, g[i].parent, d - 1);
        TimesIsProduct(RowCount(g, i, |g|), Visits(g, g[i].parent, d - 1));
      }
    }
  }

  lemma {:induction false} NoRowsUnlessOwn(g: Graph, i: nat, n: nat)
    requires Valid(g) && i < |g| && n <= |g|
    ensures RowCount(g, i, n) > 0 ==> g[i].node == i
    ensures g[i].node == i && i < n ==> RowCount(g, i, n) > 0
  {
    if n > 0 { NoRowsUnlessOwn(g, i, n - 1); }
  }

  /** Ranks that fall along parents: a row is shown exactly if it kept its node, provided parents did. */
  lemma {:induction false} PositiveIffOwn(g: Graph, rank: seq<nat>, i: nat, k: nat)
    requires Valid(g) && |rank| == |g| && i < |g| && rank[i] < k
    requires forall j :: 0 <= j < |g| && g[j].parent != ROOT ==> rank[g[j].parent] < rank[j]
    requires forall p, j :: 0 <= p < |g| && 0 <= j < |g| && g[j].parent == p ==> g[p].node == p
    ensures Multiplicity(g, i, k) > 0 <==> g[i].node == i
    decreases k
  {
    NoRowsUnlessOwn(g, i, |g|);
    if g[i].parent != ROOT { PositiveIffOwn(g, rank, g[i].parent, k - 1); }
  }

  lemma {:induction false} OwnRowCount(g: Graph, i: nat, n: nat)
    requires OwnNodes(g) && n <= |g|
    ensures RowCount(g, i, n) == if i < n then 1 else 0
  {
    if n > 0 { OwnRowCount(g, i, n - 1); }
  }

  lemma {:induction false} OwnMultiplicity(g: Graph, i: int, k: nat)
    requires OwnNodes(g)
    ensures Multiplicity(g, i, k) == if Grounded(g, i, k) then 1 else 0
    decreases k
  {
    if 0 <= i < |g| && k > 0 {
      OwnRowCount(g, i, |g|);
      OwnMultiplicity(g, g[i].parent, k - 1);
    }
  }

  /** A row with its own node is shown once if its ancestors reach the root in time, and never otherwise. */
  lemma {:induction false} ShownIffGrounded(g: Graph, i: nat, d: nat)
    requires Valid(g) && OwnNodes(g) && i < |g|
    ensures Visits(g, i, d) == if Grounded(g, i, d) then 1 else 0
  {
    VisitsAreProducts(g, i, d);
    OwnMultiplicity(g, i, d);
  }

  lemma {:induction false} GroundedMonotone(g: Graph, i: int, k: nat, m: nat)
    requires k <= m && Grounded(g, i, k)
    ensures Grounded(g, i, m)
    decreases k
  {
    if i != ROOT { GroundedMonotone(g, g[i].parent, k - 1, m - 1); }
  }

  /** One depth at which every row that reaches the root has reached it. */
  lemma {:induction false} CommonDepth(g: Graph, n: nat) returns (enough: nat)
    requires n <= |g|
    ensures forall i :: 0 <= i < n && ReachesRoot(g, i) ==> Grounded(g, i, enough)
  {
    enough := 0;
    if n > 0 {
      var before := CommonDepth(g, n - 1);
      enough := before;
      if ReachesRoot(g, n - 1) {
        var k: nat :| Grounded(g, n - 1, k);
        enough := before + k;
        GroundedMonotone(g, n - 1, k, enough);
      }
      forall i | 0 <= i < n - 1 && ReachesRoot(g, i) ensures Grounded(g, i, enough) {
        GroundedMonotone(g, i, before, enough);
      }
    }
  }

  lemma {:induction false} NeverAChild(g: Graph, p: int, i: nat, n: nat)
    requires Valid(g) && i < |g| && g[i].node != i && n <= |g|
    ensures i !in Links(g, p, n)
  {
    if n > 0 { NeverAChild(g, p, i, n - 1); }
  }

  /** A row whose node was replaced is never shown. */
  lemma {:induction false} ReplacedRowsAreLost(g: Graph, cs: seq<nat>, i: nat, d: nat)
    requires Valid(g) && i < |g| && g[i].node != i
    requires i !in cs
    ensures i !in WalkAll(g, cs, d)
    decreases d, |cs|
  {
    if cs != [] {
      if d > 0 {
        NeverAChild(g, cs[0], i, |g|);
        ReplacedRowsAreLost(g, Children(g, cs[0]), i, d - 1);
      }
      ReplacedRowsAreLost(g, cs[1..], i, d);
    }
  }

  lemma {:induction false} OwnAndAcyclicShowAll(g: Graph)
    requires Valid(g) && OwnNodes(g) && Acyclic(g)
    ensures ShowsEveryRowOnce(g)
  {
    var enough := CommonDepth(g, |g|);
    forall d: nat, i: nat | d >= enough && i < |g| ensures Visits(g, i, d) == 1 {
      assert ReachesRoot(g, i);
      GroundedMonotone(g, i, enough, d);
      ShownIffGrounded(g, i, d);
    }
    assert EveryRowOnceFrom(g, enough);
  }

  lemma {:induction false} ShownAllMeansOwn(g: Graph, i: nat)
    requires Valid(g) && ShowsEveryRowOnce(g) && i < |g|
    ensures g[i].node == i
  {
    var enough: nat :| EveryRowOnceFrom(g, enough);
    assert Visits(g, i, enough + 1) == 1;
    if g[i].node != i {
      NeverAChild(g, ROOT, i, |g|);
      ReplacedRowsAreLost(g, Children(g, ROOT), i, enough);
      CountZero(Walk(g, ROOT, enough + 1), i);
    }
  }

  lemma {:induction false} ShownAllMeansAcyclic(g: Graph)
    requires Valid(g) && OwnNodes(g) && ShowsEveryRowOnce(g)
    ensures Acyclic(g)
  {
    var enough: nat :| EveryRowOnceFrom(g, enough);
    forall i | 0 <= i < |g| ensures ReachesRoot(g, i) {
      assert Visits(g, i, enough) == 1;
      ShownIffGrounded(g, i, enough);
      assert Grounded(g, i, enough);
    }
  }

  /** Every row shown exactly once, if and only if every row kept its node and no parent chain loops. */
  lemma {:induction false} ShowsEveryRowOnceIff(g: Graph)
    requires Valid(g)
    ensures ShowsEveryRowOnce(g) <==> OwnNodes(g) && Acyclic(g)
  {
    if ShowsEveryRowOnce(g) {
      forall i | 0 <= i < |g| ensures g[i].node == i { ShownAllMeansOwn(g, i); }
      ShownAllMeansAcyclic(g);
    }
    if OwnNodes(g) && Acyclic(g) { OwnAndAcyclicShowAll(g); }
  }

  /** Ranks that fall along parent links rule out loops. */
  lemma {:induction false} RankGrounds(g: Graph, rank: seq<nat>, i: int, k: nat)
    requires Valid(g) && |rank| == |g| && ROOT <= i < |g|
    requires forall j :: 0 <= j < |g| && g[j].parent != ROOT ==> rank[g[j].parent] < rank[j]
    requires i != ROOT ==> rank[i] < k
    ensures Grounded(g, i, k)
    decreases k
  {
    if i != ROOT { RankGrounds(g, rank, g[i].parent, k - 1); }
  }

  lemma {:induction false} RankedIsAcyclic(g: Graph, rank: seq<nat>)
    requires Valid(g) && |rank| == |g|
    requires forall j :: 0 <= j < |g| && g[j].parent != ROOT ==> rank[g[j].parent] < rank[j]
    ensures Acyclic(g)
  {
    forall i | 0 <= i < |g| ensures ReachesRoot(g, i) { RankGrounds(g, rank, i, rank[i] + 1); }
  }

  /** With own nodes, the children of p are the rows filed under p, in row order. */
  lemma {:induction false} ChildrenInRowOrder(g: Graph, p: int, n: nat)
    requires OwnNodes(g) && n <= |g|
    ensures forall c: nat :: c in Links(g, p, n) <==> c < n && g[c].parent == p
    ensures forall a, b :: 0 <= a < b < |Links(g, p, n)| ==> Links(g, p, n)[a] < Links(g, p, n)[b]
  {
    if n > 0 {
      ChildrenInRowOrder(g, p, n - 1);
      var before := Links(g, p, n - 1);
      forall a | 0 <= a < |before| ensures before[a] < n - 1 { assert before[a] in before; }
    }
  }
}
