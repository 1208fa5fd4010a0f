/**
When a walk over a link graph comes to an end. Nodes may stand for several rows and links may
loop; the walk from the root is bounded exactly if no chain of child links from the root is
longer than there are rows.
 */
module WalkEnds {
  import opened LinkGraph

  /** Children are rows. */
  ghost predicate Closed(g: Graph) {
    forall j :: 0 <= j < |g| ==> g[j].node < |g|
  }

  /** k child links can be followed down from p. */
  predicate HasChain(g: Graph, p: int, k: nat)
    decreases k
  {
    k == 0 || exists c :: c in Children(g, p) && HasChain(g, c, k - 1)
  }

  lemma {:induction false} ChildLink(g: Graph, p: int, n: nat, c: nat)
    requires n <= |g| && c in Links(g, p, n)
    ensures exists j :: 0 <= j < n && g[j] == Link(p, c)
  {
    if g[n - 1] != Link(p, c) { ChildLink(g, p, n - 1, c); }
  }

  // ---------- Without a chain the walk stops growing ----------

  lemma {:induction false} NoChainEnds(g: Graph, p: int, n: nat, d: nat)
    requires !HasChain(g, p, n) && n <= d
    ensures Walk(g, p, d) == Walk(g, p, n)
    decreases n, 0
  {
    NoChainEndsAll(g, Children(g, p), n - 1, d - 1);
  }

  lemma {:induction false} NoChainEndsAll(g: Graph, cs: seq<nat>, n: nat, d: nat)
    requires n <= d && forall c :: c in cs ==> !HasChain(g, c, n)
    ensures WalkAll(g, cs, d) == WalkAll(g, cs, n)
    decreases n, |cs| + 1
  {
    if cs != [] {
      NoChainEnds(g, cs[0], n, d);
      NoChainEndsAll(g, cs[1..], n, d);
    }
  }

  // ---------- A chain is shown ----------

  lemma {:induction false} ShowsBelow(g: Graph, cs: seq<nat>, c: nat, d: nat)
    requires c in cs
    ensures |WalkAll(g, cs, d)| >= 1 + |Walk(g, c, d)|
  {
    if cs[0] != c { ShowsBelow(g, cs[1..], c, d); }
  }

  lemma {:induction false} ChainShows(g: Graph, p: int, k: nat, d: nat)
    requires HasChain(g, p, k) && k <= d
    ensures |Walk(g, p, d)| >= k
    decreases k
  {
    if k > 0 {
      var c :| c in Children(g, p) && HasChain(g, c, k - 1);
      ChainShows(g, c, k - 1, d - 1);
      ShowsBelow(g, Children(g, p), c, d - 1);
    }
  }

  lemma {:induction false} DeeperShowsMore(g: Graph, p: int, d: nat)
    ensures |Walk(g, p, d)| <= |Walk(g, p, d + 1)|
    decreases d, 0
  {
    if d > 0 { DeeperShowsMoreAll(g, Children(g, p), d - 1); }
  }

  lemma {:induction false} DeeperShowsMoreAll(g: Graph, cs: seq<nat>, d: nat)
    ensures |WalkAll(g, cs, d)| <= |WalkAll(g, cs, d + 1)|
    decreases d, |cs| + 1
  {
    if cs != [] {
      DeeperShowsMore(g, cs[0], d);
      DeeperShowsMoreAll(g, cs[1..], d);
    }
  }

  // ---------- A chain longer than the rows goes on for ever ----------

  /** The nodes below which a chain of k links hangs. */
  function Deep(g: Graph, k: nat): set<nat> {
    set i | 0 <= i < |g| && HasChain(g, i, k)
  }

  lemma {:induction false} ChainShorter(g: Graph, p: int, k: nat)
    requires HasChain(g, p, k + 1)
    ensures HasChain(g, p, k)
    decreases k
  {
    if k > 0 {
      var c :| c in Children(g, p) && HasChain(g, c, k);
      ChainShorter(g, c, k - 1);
    }
  }

  lemma {:induction false} DeepShrinks(g: Graph, k: nat)
    ensures Deep(g, k + 1) <= Deep(g, k)
  {
    forall i | i in Deep(g, k + 1) ensures i in Deep(g, k) { ChainShorter(g, i, k); }
  }

  lemma {:induction false} ChainLengthens(g: Graph, i: nat, k: nat)
    requires Closed(g) && Deep(g, k) == Deep(g, k + 1) && HasChain(g, i, k + 1)
    ensures HasChain(g, i, k + 2)
  {
    var c :| c in Children(g, i) && HasChain(g, c, k);
    ChildLink(g, i, |g|, c);
    assert c in Deep(g, k);
  }

  /** Once the set stays the same for one step it stays the same. */
  lemma {:induction false} DeepSettled(g: Graph, k: nat)
    requires Closed(g) && Deep(g, k) == Deep(g, k + 1)
    ensures Deep(g, k + 1) == Deep(g, k + 2)
  {
    DeepShrinks(g, k + 1);
    var now := Deep(g, k + 1);
    forall i | i in now ensures HasChain(g, i, k + 2) { ChainLengthens(g, i, k); }
  }

  function FirstRows(n: nat): set<nat> {
    if n == 0 then {} else FirstRows(n - 1) + {n - 1}
  }

  lemma {:induction false} FirstRowsSize(n: nat)
    ensures |FirstRows(n)| <= n
    ensures forall i: nat :: i in FirstRows(n) <==> i < n
  {
    if n > 0 { FirstRowsSize(n - 1); }
  }

  lemma {:induction false} ProperlySmaller(a: set<nat>, b: set<nat>)
    requires a <= b && a != b
    ensures |a| < |b|
  {
    var x :| x in b && x !in a;
    assert a <= b - {x};
    SubsetSize(a, b - {x});
  }

  lemma {:induction false} SubsetSize(a: set<nat>, b: set<nat>)
    requires a <= b
    ensures |a| <= |b|
    decreases a
  {
    if a != {} {
      var x :| x in a;
      SubsetSize(a - {x}, b - {x});
    }
  }

  /** While it changes, the set loses a node each step. */
  lemma {:induction false} DeepLosesOne(g: Graph, k: nat)
    requires Closed(g)
    ensures Deep(g, k) == Deep(g, k + 1) || |Deep(g, k + 1)| + k + 1 <= |g|
  {
    if Deep(g, k) != Deep(g, k + 1) {
      DeepShrinks(g, k);
      ProperlySmaller(Deep(g, k + 1), Deep(g, k));
      if k == 0 {
        FirstRowsSize(|g|);
        SubsetSize(Deep(g, 0), FirstRows(|g|));
      } else {
        DeepLosesOne(g, k - 1);
        if Deep(g, k - 1) == Deep(g, k) { DeepSettled(g, k - 1); }
      }
    }
  }

  lemma {:induction false} DeepForEver(g: Graph, k: nat)
    requires Closed(g) && k >= |g|
    ensures Deep(g, k) == Deep(g, |g|) && Deep(g, k + 1) == Deep(g, k)
    decreases k
  {
    if k == |g| {
      DeepLosesOne(g, k);
    } else {
      DeepForEver(g, k - 1);
      DeepSettled(g, k - 1);
    }
  }

  lemma {:induction false} LongChainsNeverEnd(g: Graph, k: nat)
    requires Closed(g) && HasChain(g, ROOT, |g| + 1) && k > |g|
    ensures HasChain(g, ROOT, k)
  {
    var c :| c in Children(g, ROOT) && HasChain(g, c, |g|);
    ChildLink(g, ROOT, |g|, c);
    DeepForEver(g, k - 1);
    assert c in Deep(g, |g|);
  }

  // ---------- The walk ends ----------

  ghost predicate WalkWithin(g: Graph, bound: nat) {
    forall d: nat :: |Walk(g, ROOT, d)| <= bound
  }

  lemma {:induction false} ShallowerShowsLess(g: Graph, p: int, d: nat, e: nat)
    requires d <= e
    ensures |Walk(g, p, d)| <= |Walk(g, p, e)|
  {
    if d < e {
      ShallowerShowsLess(g, p, d, e - 1);
      DeeperShowsMore(g, p, e - 1);
    }
  }

  /** A walk is bounded if and only if no chain of child links from the root has more links than there are rows. */
  lemma {:induction false} WalkEndsIff(g: Graph)
    requires Closed(g)
    ensures (exists bound: nat :: WalkWithin(g, bound)) <==> !HasChain(g, ROOT, |g| + 1)
  {
    var n := |g| + 1;
    if HasChain(g, ROOT, n) {
      forall bound: nat ensures !WalkWithin(g, bound) {
        var k := bound + n;
        LongChainsNeverEnd(g, k);
        ChainShows(g, ROOT, k, k);
        assert |Walk(g, ROOT, k)| > bound;
      }
    } else {
      var bound := |Walk(g, ROOT, n)|;
      forall d: nat ensures |Walk(g, ROOT, d)| <= bound {
        if d >= n { NoChainEnds(g, ROOT, n, d); } else { ShallowerShowsLess(g, ROOT, d, n); }
      }
      assert WalkWithin(g, bound);
    }
  }

  // ---------- Ranks ----------

  /** The rank of a child exceeds that of the node it hangs below, and no rank exceeds top. */
  ghost predicate Rises(g: Graph, rank: seq<nat>, top: nat) {
    && |rank| == |g| && Closed(g)
    && (forall i :: 0 <= i < |g| ==> rank[i] <= top)
    && forall j :: 0 <= j < |g| && 0 <= g[j].parent < |g| ==> rank[g[j].parent] < rank[g[j].node]
  }

  lemma {:induction false} RankBoundsChains(g: Graph, rank: seq<nat>, top: nat, i: nat, k: nat)
    requires Rises(g, rank, top) && i < |g| && HasChain(g, i, k)
    ensures rank[i] + k <= top
    decreases k
  {
    if k > 0 {
      var c :| c in Children(g, i) && HasChain(g, c, k - 1);
      ChildLink(g, i, |g|, c);
      RankBoundsChains(g, rank, top, c, k - 1);
    }
  }

  /** With such a rank the walk is complete at depth top + 2, loops or not elsewhere. */
  lemma {:induction false} RankedWalkEnds(g: Graph, rank: seq<nat>, top: nat, d: nat)
    requires Rises(g, rank, top) && d >= top + 2
    ensures Walk(g, ROOT, d) == Walk(g, ROOT, top + 2)
  {
    if HasChain(g, ROOT, top + 2) {
      var c :| c in Children(g, ROOT) && HasChain(g, c, top + 1);
      ChildLink(g, ROOT, |g|, c);
      RankBoundsChains(g, rank, top, c, top + 1);
    }
    NoChainEnds(g, ROOT, top + 2, d);
  }

  // ---------- One parent per node ----------

  /** Following parents from i meets ROOT after k links and not before. */
  predicate Exactly(g: Graph, i: int, k: nat)
    decreases k
  {
    if i == ROOT then k == 0 else 0 <= i < |g| && k > 0 && Exactly(g, g[i].parent, k - 1)
  }

  lemma {:induction false} ExactlyAtMost(g: Graph, i: int, k: nat, m: nat)
    requires Exactly(g, i, k) && Grounded(g, i, m)
    ensures k <= m
    decreases k
  {
    if i != ROOT { ExactlyAtMost(g, g[i].parent, k - 1, m - 1); }
  }

  lemma {:induction false} ExactlyGrounds(g: Graph, i: int, k: nat)
    requires Exactly(g, i, k)
    ensures Grounded(g, i, k)
    decreases k
  {
    if i != ROOT { ExactlyGrounds(g, g[i].parent, k - 1); }
  }

  /** A chain leads down to a node as far below the root as the chain is long. */
  lemma {:induction false} ChainFoot(g: Graph, p: int, e: nat, k: nat) returns (foot: int)
    requires Closed(g) && OneParent(g) && Exactly(g, p, e) && HasChain(g, p, k)
    ensures Exactly(g, foot, e + k)
    decreases k
  {
    foot := p;
    if k > 0 {
      var c :| c in Children(g, p) && HasChain(g, c, k - 1);
      ChildLink(g, p, |g|, c);
      assert g[c].parent == p;
      foot := ChainFoot(g, c, e + 1, k - 1);
    }
  }

  /** If rows that share a node share its parent, the walk ends, even where parents form a loop. */
  lemma {:induction false} OneParentEnds(g: Graph)
    requires Closed(g) && OneParent(g)
    ensures !HasChain(g, ROOT, |g| + 1)
  {
    if HasChain(g, ROOT, |g| + 1) {
      var enough := CommonDepth(g, |g|);
      var k := |g| + 1 + enough;
      LongChainsNeverEnd(g, k);
      var foot := ChainFoot(g, ROOT, 0, k);
      ExactlyGrounds(g, foot, k);
      assert ReachesRoot(g, foot);
      ExactlyAtMost(g, foot, k, enough);
    }
  }
}
