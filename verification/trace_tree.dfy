/**
The audit trace tree of internal/store/audit_trace_store.go: rows linked by span id into
mutable nodes. The builder is proved to leave exactly the link graph of its rows, so what
module LinkGraph says about walks holds of the nodes it returns.
 */
module TraceTree {
  import opened LinkGraph
  import opened WalkEnds

  type SpanId = string

  /** An audit row; `event` stands for every field that is only displayed. */
  datatype Row = Row(span: SpanId, parent: SpanId, event: string)

  const TREE_ROW_LIMIT := 500

  // ---------- The link graph of a row list ----------

  /** The last row carrying the span id, which is the one the node map keeps; ROOT if none. */
  function LastWith(rows: seq<Row>, span: SpanId): (i: int)
    ensures ROOT <= i < |rows|
    ensures i >= 0 ==> rows[i].span == span
  {
    if rows == [] then ROOT
    else if rows[|rows| - 1].span == span then |rows| - 1
    else LastWith(rows[..|rows| - 1], span)
  }

  lemma {:induction false} NoneAfterLast(rows: seq<Row>, span: SpanId, j: nat)
    requires j < |rows| && rows[j].span == span
    ensures j <= LastWith(rows, span)
  {
    if rows[|rows| - 1].span != span { NoneAfterLast(rows[..|rows| - 1], span, j); }
  }

  /** The node row j is filed under: its parent's, or ROOT when the parent is absent. */
  function ParentOf(rows: seq<Row>, j: nat): (p: int)
    requires j < |rows|
    ensures ROOT <= p < |rows|
  {
    if rows[j].parent == "" then ROOT else LastWith(rows, rows[j].parent)
  }

  /** The node row j contributes as a child. */
  function NodeOf(rows: seq<Row>, j: nat): (i: nat)
    requires j < |rows|
    ensures j <= i < |rows| && rows[i].span == rows[j].span
  {
    NoneAfterLast(rows, rows[j].span, j);
    LastWith(rows, rows[j].span)
  }

  /**
  A row is filed at the top exactly if it names no parent, or one no row has; otherwise under the
  last row of the span it names. It counts for the last row of its own span.
   */
  lemma FiledUnder(rows: seq<Row>, j: nat)
    requires j < |rows|
    ensures ParentOf(rows, j) == ROOT <==> rows[j].parent == "" || forall i :: 0 <= i < |rows| ==> rows[i].span != rows[j].parent
    ensures var p := ParentOf(rows, j);
      p != ROOT ==> rows[p].span == rows[j].parent && forall i :: p < i < |rows| ==> rows[i].span != rows[j].parent
    ensures forall i :: NodeOf(rows, j) < i < |rows| ==> rows[i].span != rows[j].span
  {
    forall i | 0 <= i < |rows| && rows[i].span == rows[j].parent ensures i <= LastWith(rows, rows[j].parent) {
      NoneAfterLast(rows, rows[j].parent, i);
    }
    forall i | 0 <= i < |rows| && rows[i].span == rows[j].span ensures i <= LastWith(rows, rows[j].span) {
      NoneAfterLast(rows, rows[j].span, i);
    }
  }

  function GraphOf(rows: seq<Row>): (g: Graph)
    ensures |g| == |rows|
    ensures forall j :: 0 <= j < |rows| ==> g[j] == Link(ParentOf(rows, j), NodeOf(rows, j))
  {
    seq(|rows|, j requires 0 <= j < |rows| => Link(ParentOf(rows, j), NodeOf(rows, j)))
  }

  lemma GraphIsValid(rows: seq<Row>)
    ensures Valid(GraphOf(rows))
  {
  }

  predicate Distinct(rows: seq<Row>) {
    forall i, j :: 0 <= i < j < |rows| ==> rows[i].span != rows[j].span
  }

  lemma DistinctIffOwnNodes(rows: seq<Row>)
    ensures Distinct(rows) <==> OwnNodes(GraphOf(rows))
  {
    var g := GraphOf(rows);
    if Distinct(rows) {
      forall j | 0 <= j < |rows| ensures g[j].node == j {
        if j < NodeOf(rows, j) { assert false; }
      }
    }
    if OwnNodes(g) {
      forall i, j | 0 <= i < j < |rows| ensures rows[i].span != rows[j].span {
        if rows[i].span == rows[j].span {
          assert g[i].node == NodeOf(rows, i);
          NoneAfterLast(rows, rows[i].span, j);
        }
      }
    }
  }

  /**
  The tree shows every audit row exactly once if and only if the span ids are distinct and
  the parents acyclic; and the number of child links equals the number of rows always.
   */
  lemma TreeShowsRowsIff(rows: seq<Row>)
    ensures ShowsEveryRowOnce(GraphOf(rows)) <==> Distinct(rows) && Acyclic(GraphOf(rows))
    ensures LinkCount(GraphOf(rows), |rows|, |rows|) == |rows|
  {
    GraphIsValid(rows);
    DistinctIffOwnNodes(rows);
    ShowsEveryRowOnceIff(GraphOf(rows));
    LinksConserveRows(GraphOf(rows), |rows|);
  }

  /** The tree is finite if and only if no chain of child links from its root is longer than there are rows. */
  lemma TreeEndsIff(rows: seq<Row>)
    ensures (exists bound: nat :: WalkWithin(GraphOf(rows), bound)) <==> !HasChain(GraphOf(rows), ROOT, |rows| + 1)
  {
    WalkEndsIff(GraphOf(rows));
  }

  /** All rows of one span name the same parent, as stamped rows do. */
  predicate ParentsAgree(rows: seq<Row>) {
    forall i, j :: 0 <= i < |rows| && 0 <= j < |rows| && rows[i].span == rows[j].span ==> rows[i].parent == rows[j].parent
  }

  /**
  Then the tree is finite, even where parents form a loop, and shows each row as often as the
  product of the row counts of the spans on its way to the root: only the last row of a span is
  shown at all.
   */
  lemma AgreeingTree(rows: seq<Row>, i: nat, d: nat)
    requires ParentsAgree(rows) && i < |rows|
    ensures !HasChain(GraphOf(rows), ROOT, |rows| + 1)
    ensures Visits(GraphOf(rows), i, d) == Multiplicity(GraphOf(rows), i, d)
    ensures NodeOf(rows, i) != i ==> Visits(GraphOf(rows), i, d) == 0
  {
    var g := GraphOf(rows);
    GraphIsValid(rows);
    AgreeingParents(rows);
    OneParentEnds(g);
    VisitsAreProducts(g, i, d);
    NoRowsUnlessOwn(g, i, |g|);
  }

  lemma AgreeingParents(rows: seq<Row>)
    requires ParentsAgree(rows)
    ensures OneParent(GraphOf(rows))
  {
    var g := GraphOf(rows);
    forall i, j | 0 <= i < |g| && 0 <= j < |g| && g[j].node == i ensures g[j].parent == g[i].parent {
      assert NodeOf(rows, j) == i;
    }
  }

  // ---------- The builder ----------

  class TraceNode {
    ghost const index: int    // the row it was made for; ROOT for the root
    var row: Row
    var children: seq<TraceNode>

    constructor (row: Row, ghost index: int)
      ensures this.row == row && this.index == index && children == []
    {
      this.row, this.index, children := row, index, [];
    }
  }

  /** The nodes at the given indices. */
  ghost predicate Picks(ns: seq<TraceNode>, nodes: seq<TraceNode>, cs: seq<nat>) {
    |ns| == |cs| && forall k :: 0 <= k < |cs| ==> cs[k] < |nodes| && ns[k] == nodes[cs[k]]
  }

  ghost predicate Separate(root: TraceNode, nodes: seq<TraceNode>) {
    root.index == ROOT && forall i :: 0 <= i < |nodes| ==> nodes[i].index == i
  }

  /** Node x is where p's children hang, as far as the first n rows go. */
  ghost predicate Hangs(x: TraceNode, nodes: seq<TraceNode>, g: Graph, p: int, n: nat)
    requires n <= |g|
    reads x
  {
    Picks(x.children, nodes, Links(g, p, n))
  }

  /** The child lists are the links of the first n rows. */
  ghost predicate Linked(root: TraceNode, nodes: seq<TraceNode>, g: Graph, n: nat)
    requires n <= |g|
    reads root, nodes
  {
    && |nodes| == |g|
    && Hangs(root, nodes, g, ROOT, n)
    && forall i {:trigger Hangs(nodes[i], nodes, g, i, n)} :: 0 <= i < |nodes| ==> Hangs(nodes[i], nodes, g, i, n)
  }

  ghost predicate Carry(nodes: seq<TraceNode>, rows: seq<Row>)
    reads nodes
  {
    |nodes| == |rows| && forall i :: 0 <= i < |nodes| ==> nodes[i].row == rows[i]
  }

  /** The node map keeps, for every span id, the node of the last row carrying it. */
  ghost predicate Indexed(bySpan: map<SpanId, TraceNode>, nodes: seq<TraceNode>, rows: seq<Row>) {
    && |nodes| == |rows|
    && (forall s :: s in bySpan <==> LastWith(rows, s) != ROOT)
    && (forall s :: s in bySpan ==> bySpan[s] == nodes[LastWith(rows, s)])
  }

  method MakeNodes(rows: seq<Row>) returns (bySpan: map<SpanId, TraceNode>, ghost nodes: seq<TraceNode>)
    ensures Indexed(bySpan, nodes, rows)
    ensures forall i :: 0 <= i < |nodes| ==> fresh(nodes[i]) && nodes[i].index == i && nodes[i].children == []
    ensures Carry(nodes, rows)
  {
    bySpan, nodes := map[], [];
    for n := 0 to |rows|
      invariant Indexed(bySpan, nodes, rows[..n])
      invariant forall i :: 0 <= i < n ==> fresh(nodes[i]) && nodes[i].index == i && nodes[i].children == []
      invariant Carry(nodes, rows[..n])
    {
      assert rows[..n + 1][..n] == rows[..n];
      var node := new TraceNode(rows[n], n);
      bySpan := bySpan[rows[n].span := node];
      nodes := nodes + [node];
    }
    assert rows[..|rows|] == rows;
  }

  lemma PicksOneMore(ns: seq<TraceNode>, ns': seq<TraceNode>, nodes: seq<TraceNode>, g: Graph, p: int, n: nat)
    requires n < |g| && g[n].node < |nodes| && Picks(ns, nodes, Links(g, p, n))
    requires ns' == if g[n].parent == p then ns + [nodes[g[n].node]] else ns
    ensures Picks(ns', nodes, Links(g, p, n + 1))
  {}

  /** The node map leads from row n to the node and the parent its link names. */
  ghost predicate Attachable(bySpan: map<SpanId, TraceNode>, rows: seq<Row>, n: nat, g: Graph, nodes: seq<TraceNode>)
    requires n < |rows| == |g|
  {
    && g[n].node < |nodes| && ROOT <= g[n].parent < |nodes|
    && rows[n].span in bySpan && bySpan[rows[n].span] == nodes[g[n].node]
    && (rows[n].parent != "" && rows[n].parent in bySpan <==> g[n].parent != ROOT)
    && (g[n].parent != ROOT ==> bySpan[rows[n].parent] == nodes[g[n].parent])
  }

  lemma IndexedIsAttachable(bySpan: map<SpanId, TraceNode>, rows: seq<Row>, n: nat, nodes: seq<TraceNode>)
    requires n < |rows| && Indexed(bySpan, nodes, rows)
    ensures Attachable(bySpan, rows, n, GraphOf(rows), nodes)
  {
    assert GraphOf(rows)[n] == Link(ParentOf(rows, n), NodeOf(rows, n));
    assert LastWith(rows, rows[n].span) == NodeOf(rows, n);
  }

  /** One turn of the second loop: hang row n's node below its parent's, or below the root. */
  method Attach(root: TraceNode, bySpan: map<SpanId, TraceNode>, rows: seq<Row>, n: nat,
                ghost g: Graph, ghost nodes: seq<TraceNode>)
    requires n < |rows| == |g| && Attachable(bySpan, rows, n, g, nodes)
    requires Separate(root, nodes) && Linked(root, nodes, g, n)
    modifies root`children, nodes`children
    ensures Linked(root, nodes, g, n + 1)
  {
    var node := bySpan[rows[n].span];
    if rows[n].parent != "" && rows[n].parent in bySpan {
      Append(root, bySpan[rows[n].parent], node, g, n, nodes);
    } else {
      Append(root, root, node, g, n, nodes);
    }
  }

  method Append(root: TraceNode, parent: TraceNode, node: TraceNode, ghost g: Graph, ghost n: nat, ghost nodes: seq<TraceNode>)
    requires n < |g| && Separate(root, nodes) && Linked(root, nodes, g, n)
    requires g[n].node < |nodes| && ROOT <= g[n].parent < |nodes|
    requires node == nodes[g[n].node]
    requires parent == if g[n].parent == ROOT then root else nodes[g[n].parent]
    modifies parent`children
    ensures Linked(root, nodes, g, n + 1)
  {
    parent.children := parent.children + [node];
    forall i | 0 <= i < |nodes| ensures Hangs(nodes[i], nodes, g, i, n + 1) {
      assert nodes[i] == parent <==> g[n].parent == i;
      assert old(Hangs(nodes[i], nodes, g, i, n));
      PicksOneMore(old(nodes[i].children), nodes[i].children, nodes, g, i, n);
    }
    PicksOneMore(old(root.children), root.children, nodes, g, ROOT, n);
  }

  lemma NothingLinkedYet(root: TraceNode, nodes: seq<TraceNode>, g: Graph)
    requires |nodes| == |g| && root.children == []
    requires forall i :: 0 <= i < |nodes| ==> nodes[i].children == []
    ensures Linked(root, nodes, g, 0)
  {}

  /** The second loop over the rows. */
  method LinkRows(root: TraceNode, bySpan: map<SpanId, TraceNode>, rows: seq<Row>,
                  ghost g: Graph, ghost nodes: seq<TraceNode>)
    requires |g| == |rows|
    requires forall n :: 0 <= n < |rows| ==> Attachable(bySpan, rows, n, g, nodes)
    requires Separate(root, nodes) && Linked(root, nodes, g, 0)
    modifies root`children, nodes`children
    ensures Linked(root, nodes, g, |rows|)
  {
    for n := 0 to |rows|
      invariant Linked(root, nodes, g, n)
    {
      Attach(root, bySpan, rows, n, g, nodes);
    }
  }

  method BuildTree(rows: seq<Row>) returns (root: TraceNode, ghost nodes: seq<TraceNode>)
    ensures fresh(root) && forall i :: 0 <= i < |nodes| ==> fresh(nodes[i])
    ensures Separate(root, nodes)
    ensures Carry(nodes, rows) && Linked(root, nodes, GraphOf(rows), |rows|)
  {
    var bySpan;
    bySpan, nodes := MakeNodes(rows);
    root := new TraceNode(Row("", "", ""), ROOT);
    ghost var g := GraphOf(rows);
    NothingLinkedYet(root, nodes, g);
    forall n | 0 <= n < |rows| ensures Attachable(bySpan, rows, n, g, nodes) {
      IndexedIsAttachable(bySpan, rows, n, nodes);
    }
    LinkRows(root, bySpan, rows, g, nodes);
  }

  /** The rows met by a preorder walk over the heap nodes, cut off at depth d. */
  ghost function Visit(n: TraceNode, d: nat): seq<Row>
    reads *
    decreases d, 0
  {
    if d == 0 then [] else VisitAll(n.children, d - 1)
  }

  ghost function VisitAll(ns: seq<TraceNode>, d: nat): seq<Row>
    reads *
    decreases d, |ns| + 1
  {
    if ns == [] then [] else [ns[0].row] + Visit(ns[0], d) + VisitAll(ns[1..], d)
  }

  ghost predicate RowsAt(visited: seq<Row>, rows: seq<Row>, at: seq<nat>) {
    |visited| == |at| && forall k :: 0 <= k < |at| ==> at[k] < |rows| && visited[k] == rows[at[k]]
  }

  /** Walking the returned nodes is walking the link graph. */
  lemma {:induction false} HeapWalkIsGraphWalk(
    root: TraceNode, nodes: seq<TraceNode>, rows: seq<Row>, g: Graph, ns: seq<TraceNode>, cs: seq<nat>, d: nat)
    requires Carry(nodes, rows) && |g| == |rows| && Linked(root, nodes, g, |g|) && Picks(ns, nodes, cs)
    ensures RowsAt(VisitAll(ns, d), rows, WalkAll(g, cs, d))
    decreases d, |cs|
  {
    if cs != [] {
      HeapWalkIsGraphWalk(root, nodes, rows, g, ns[1..], cs[1..], d);
      assert Hangs(nodes[cs[0]], nodes, g, cs[0], |g|);
      if d > 0 { HeapWalkIsGraphWalk(root, nodes, rows, g, ns[0].children, Children(g, cs[0]), d - 1); }
    }
  }

  /**
  The stored rows of one trace, oldest first, as a tree: at most TREE_ROW_LIMIT of them,
  with a flag saying whether any were cut.
   */
  method GetTraceTree(stored: seq<Row>) returns (root: TraceNode?, truncated: bool)
    ensures root == null <==> stored == []
    ensures truncated <==> |stored| > TREE_ROW_LIMIT
    ensures root != null ==>
      var shown := if truncated then stored[..TREE_ROW_LIMIT] else stored;
      forall d: nat :: RowsAt(Visit(root, d), shown, Walk(GraphOf(shown), ROOT, d))
  {
    var rows := if |stored| > TREE_ROW_LIMIT + 1 then stored[..TREE_ROW_LIMIT + 1] else stored;
    if |rows| == 0 { return null, false; }
    truncated := |rows| > TREE_ROW_LIMIT;
    if truncated { rows := rows[..TREE_ROW_LIMIT]; }
    assert rows == if truncated then stored[..TREE_ROW_LIMIT] else stored;
    var tree, nodes := BuildTree(rows);
    ghost var g := GraphOf(rows);
    forall d: nat ensures RowsAt(Visit(tree, d), rows, Walk(g, ROOT, d)) {
      if d > 0 { HeapWalkIsGraphWalk(tree, nodes, rows, g, tree.children, Children(g, ROOT), d - 1); }
    }
    root := tree;
  }

  // ---------- Rows of one span that name different parents ----------

  /** Two rows of one span with different parents can make a node its own descendant below the root. */
  const LOOPING: seq<Row> := [Row("a", "", "first"), Row("b", "a", "child"), Row("a", "b", "again")]

  lemma LoopingLinks()
    ensures Children(GraphOf(LOOPING), ROOT) == [2]
    ensures Children(GraphOf(LOOPING), 2) == [1] && Children(GraphOf(LOOPING), 1) == [2]
  {
    var g := GraphOf(LOOPING);
    assert LastWith(LOOPING, "a") == 2 && LastWith(LOOPING, "b") == 1;
    assert g == [Link(ROOT, 2), Link(2, 1), Link(1, 2)];
    forall p ensures Children(g, p) ==
        (if p == ROOT then [2] else []) + (if p == 2 then [1] else []) + (if p == 1 then [2] else []) {
      assert Links(g, p, 0) == [];
      assert Links(g, p, 1) == (if p == ROOT then [2] else []);
      assert Links(g, p, 2) == Links(g, p, 1) + (if p == 2 then [1] else []);
    }
  }

  lemma {:induction false} LoopGrows(p: nat, d: nat)
    requires p == 1 || p == 2
    ensures |WalkAll(GraphOf(LOOPING), [p], d)| >= d + 1
    decreases d
  {
    LoopingLinks();
    if d > 0 {
      assert Walk(GraphOf(LOOPING), p, d) == WalkAll(GraphOf(LOOPING), [3 - p], d - 1);
      LoopGrows(3 - p, d - 1);
    }
  }

  /** Walking such a tree never ends: it is at least as long as any cut-off. */
  lemma RepeatedSpanCanLoop(d: nat)
    ensures |Walk(GraphOf(LOOPING), ROOT, d)| >= d
  {
    LoopingLinks();
    if d > 0 { LoopGrows(2, d - 1); }
  }
}
