/**
Span parents of internal/tracing: contexts derived by nested Start calls, the parent each
audit row is stamped with, and what that means for the trace tree built from those rows.
 */
module Spans {
  import opened LinkGraph
  import opened TraceTree
  import opened WalkEnds

  /** What a context carries; "" stands for an absent (invalid) span id. */
  datatype Context = Context(span: SpanId, lastBusiness: SpanId, parent: SpanId)

  predicate IsBus(name: string) {
    "bus." <= name
  }

  /** Opens a span with the given fresh id under ctx. */
  function Start(ctx: Context, name: string, id: SpanId): Context {
    if IsBus(name) then ctx.(span := id)
    else if ctx.lastBusiness != "" then Context(id, id, ctx.lastBusiness)
    else if ctx.span != "" then Context(id, id, ctx.span)
    else Context(id, id, ctx.parent)
  }

  /** Fills in the ids a row does not have yet. */
  function PopulateAuditIDs(ctx: Context, row: Row): Row {
    row.(span := if row.span == "" then ctx.span else row.span,
         parent := if row.parent == "" then ctx.parent else row.parent)
  }

  /** An id a row has already is never replaced; a missing one comes from the context. */
  lemma {:induction false} PresetIdsStay(ctx: Context, row: Row)
    ensures var stamped := PopulateAuditIDs(ctx, row);
      && (row.span != "" ==> stamped.span == row.span) && (row.span == "" ==> stamped.span == ctx.span)
      && (row.parent != "" ==> stamped.parent == row.parent) && (row.parent == "" ==> stamped.parent == ctx.parent)
      && stamped.event == row.event
  {
  }

  /** Bus spans are those named bus and a dot, and then anything. */
  lemma {:induction false} BusNames(name: string)
    ensures IsBus(name) <==> |name| >= 4 && name[..4] == ['b', 'u', 's', '.']
  {
    if |name| >= 4 && name[..4] == ['b', 'u', 's', '.'] { assert "bus." == name[..4]; }
  }

  /**
  One Start call of a run. `from` is the position of the context it was given: 0 is the
  context the run began with, k + 1 the context call k returned.
   */
  datatype Call = Call(from: nat, name: string, id: SpanId)

  /** Every call is given a context that exists by then. */
  predicate WellNested(calls: seq<Call>) {
    forall k :: 0 <= k < |calls| ==> calls[k].from <= k
  }

  /** Context k of a run that began with a context carrying the (possibly remote) span. */
  function ContextAt(remote: SpanId, calls: seq<Call>, k: nat): Context
    requires WellNested(calls) && k <= |calls|
  {
    if k == 0 then Context(remote, "", "")
    else Start(ContextAt(remote, calls, calls[k - 1].from), calls[k - 1].name, calls[k - 1].id)
  }

  /** The span of context k: the remote one, or that of the call which returned it. */
  function SpanAt(remote: SpanId, calls: seq<Call>, k: nat): SpanId
    requires k <= |calls|
  {
    if k == 0 then remote else calls[k - 1].id
  }

  /** Started spans have valid ids. */
  ghost predicate ValidIds(calls: seq<Call>) {
    forall k :: 0 <= k < |calls| ==> calls[k].id != ""
  }

  /** No span id is drawn twice. */
  ghost predicate FreshIds(remote: SpanId, calls: seq<Call>) {
    forall j: nat, k: nat :: j < k <= |calls| ==> SpanAt(remote, calls, j) != SpanAt(remote, calls, k)
  }

  /** Position of the nearest business span at or above context k, climbing past bus.* spans; 0 if none. */
  function NearestBusiness(calls: seq<Call>, k: nat): (b: nat)
    requires WellNested(calls) && k <= |calls|
    ensures b <= k
  {
    if k == 0 then 0
    else if !IsBus(calls[k - 1].name) then k
    else NearestBusiness(calls, calls[k - 1].from)
  }

  lemma {:induction false} NearestIsItsOwn(calls: seq<Call>, k: nat)
    requires WellNested(calls) && k <= |calls|
    ensures NearestBusiness(calls, NearestBusiness(calls, k)) == NearestBusiness(calls, k)
    decreases k
  {
    if k > 0 && IsBus(calls[k - 1].name) { NearestIsItsOwn(calls, calls[k - 1].from); }
  }

  /** The position whose span business span `own` records as parent; -1 if it records none. */
  function ParentPosition(remote: SpanId, calls: seq<Call>, own: nat): (p: int)
    requires WellNested(calls) && own <= |calls|
    ensures p < own
  {
    if own == 0 then -1
    else
      var from := calls[own - 1].from;
      var above := NearestBusiness(calls, from);
      if above > 0 then above else if SpanAt(remote, calls, from) != "" then from else -1
  }

  // ---------- The run of contexts ----------

  /** The context is what the run's nesting says it is. */
  ghost predicate Stamps(c: Context, remote: SpanId, calls: seq<Call>, k: nat)
    requires WellNested(calls) && k <= |calls|
  {
    var b := NearestBusiness(calls, k);
    var p := ParentPosition(remote, calls, b);
    && c.span == SpanAt(remote, calls, k)
    && c.lastBusiness == (if b == 0 then "" else calls[b - 1].id)
    && c.parent == (if p < 0 then "" else SpanAt(remote, calls, p))
  }

  lemma {:induction false} BusStartStamps(c: Context, remote: SpanId, calls: seq<Call>, k: nat)
    requires WellNested(calls) && k < |calls| && Stamps(c, remote, calls, calls[k].from) && IsBus(calls[k].name)
    ensures Stamps(Start(c, calls[k].name, calls[k].id), remote, calls, k + 1)
  {
  }

  lemma {:induction false} BusinessStartStamps(c: Context, remote: SpanId, calls: seq<Call>, k: nat)
    requires WellNested(calls) && ValidIds(calls) && k < |calls| && Stamps(c, remote, calls, calls[k].from)
    requires !IsBus(calls[k].name)
    ensures Stamps(Start(c, calls[k].name, calls[k].id), remote, calls, k + 1)
  {
    var from := calls[k].from;
    var above := NearestBusiness(calls, from);
    assert NearestBusiness(calls, k + 1) == k + 1;
    if above == 0 { assert c.span == "" ==> from == 0 && c.parent == ""; }
  }

  lemma {:induction false} StartStamps(c: Context, remote: SpanId, calls: seq<Call>, k: nat)
    requires WellNested(calls) && ValidIds(calls) && k < |calls| && Stamps(c, remote, calls, calls[k].from)
    ensures Stamps(Start(c, calls[k].name, calls[k].id), remote, calls, k + 1)
  {
    if IsBus(calls[k].name) {
      BusStartStamps(c, remote, calls, k);
    } else {
      BusinessStartStamps(c, remote, calls, k);
    }
  }

  lemma {:induction false} ContextStamps(remote: SpanId, calls: seq<Call>, k: nat)
    requires WellNested(calls) && ValidIds(calls) && k <= |calls|
    ensures Stamps(ContextAt(remote, calls, k), remote, calls, k)
    decreases k
  {
    if k > 0 {
      ContextStamps(remote, calls, calls[k - 1].from);
      StartStamps(ContextAt(remote, calls, calls[k - 1].from), remote, calls, k - 1);
    }
  }

  // ---------- What the stamps mean ----------

  /**
  A business span records the nearest enclosing business span, however many bus.* spans lie
  between; with none, the span immediately enclosing it; with none of those either, nothing.
   */
  lemma {:induction false} BusinessParent(remote: SpanId, calls: seq<Call>, k: nat)
    requires WellNested(calls) && ValidIds(calls) && k < |calls| && !IsBus(calls[k].name)
    ensures var above := NearestBusiness(calls, calls[k].from);
      ContextAt(remote, calls, k + 1).parent ==
        if above > 0 then calls[above - 1].id else SpanAt(remote, calls, calls[k].from)
  {
    ContextStamps(remote, calls, k + 1);
  }

  /** A row written under a bus.* span names the parent of the business span around it, not that span itself. */
  lemma {:induction false} BusParent(remote: SpanId, calls: seq<Call>, k: nat)
    requires WellNested(calls) && ValidIds(calls) && k < |calls| && IsBus(calls[k].name)
    ensures var around := NearestBusiness(calls, k + 1);
      ContextAt(remote, calls, k + 1).parent == (if around == 0 then "" else ContextAt(remote, calls, around).parent)
  {
    var around := NearestBusiness(calls, k + 1);
    ContextStamps(remote, calls, k + 1);
    ContextStamps(remote, calls, around);
    NearestIsItsOwn(calls, k + 1);
  }

  /** The recorded parent is the span of an earlier context. */
  lemma {:induction false} ParentStartedEarlier(remote: SpanId, calls: seq<Call>, k: nat)
    requires WellNested(calls) && ValidIds(calls) && k <= |calls|
    ensures ContextAt(remote, calls, k).parent != "" ==>
      exists p: nat :: p < k && ContextAt(remote, calls, k).parent == SpanAt(remote, calls, p)
  {
    ContextStamps(remote, calls, k);
    var p := ParentPosition(remote, calls, NearestBusiness(calls, k));
    if p >= 0 { assert p < k; }
  }

  // ---------- The tree of stamped rows ----------

  /** Each row was stamped, ids blank, under the context at[i] of the run. */
  ghost predicate Stamped(remote: SpanId, calls: seq<Call>, rows: seq<Row>, at: seq<nat>)
    requires WellNested(calls)
  {
    && |at| == |rows|
    && forall i :: 0 <= i < |rows| ==>
         && at[i] <= |calls|
         && rows[i] == PopulateAuditIDs(ContextAt(remote, calls, at[i]), Row("", "", rows[i].event))
  }

  lemma {:induction false} StampedRow(remote: SpanId, calls: seq<Call>, rows: seq<Row>, at: seq<nat>, i: nat)
    requires WellNested(calls) && ValidIds(calls) && Stamped(remote, calls, rows, at) && i < |rows|
    ensures rows[i].span == SpanAt(remote, calls, at[i])
    ensures rows[i].parent != "" ==> exists p: nat :: p < at[i] && rows[i].parent == SpanAt(remote, calls, p)
  {
    ContextStamps(remote, calls, at[i]);
    ParentStartedEarlier(remote, calls, at[i]);
  }

  lemma {:induction false} ParentRowIsEarlier(remote: SpanId, calls: seq<Call>, rows: seq<Row>, at: seq<nat>, j: nat)
    requires WellNested(calls) && ValidIds(calls) && FreshIds(remote, calls) && Stamped(remote, calls, rows, at) && j < |rows|
    ensures var p := ParentOf(rows, j); p != ROOT ==> at[p] < at[j]
  {
    var p := ParentOf(rows, j);
    if p != ROOT {
      StampedRow(remote, calls, rows, at, p);
      StampedRow(remote, calls, rows, at, j);
      var above: nat :| above < at[j] && rows[j].parent == SpanAt(remote, calls, above);
      if at[p] > above { assert SpanAt(remote, calls, above) != SpanAt(remote, calls, at[p]); }
    }
  }

  ghost predicate FromDistinctSpans(at: seq<nat>) {
    forall i, j :: 0 <= i < j < |at| ==> at[i] != at[j]
  }

  /**
  Stamped rows never form a parent loop, whatever their number, order and spans; so their
  tree shows every row exactly once if and only if no two rows were written under one span.
   */
  lemma {:induction false} StampedTree(remote: SpanId, calls: seq<Call>, rows: seq<Row>, at: seq<nat>)
    requires WellNested(calls) && ValidIds(calls) && FreshIds(remote, calls) && Stamped(remote, calls, rows, at)
    ensures Acyclic(GraphOf(rows))
    ensures ShowsEveryRowOnce(GraphOf(rows)) <==> FromDistinctSpans(at)
  {
    var g := GraphOf(rows);
    GraphIsValid(rows);
    forall j | 0 <= j < |g| && g[j].parent != ROOT ensures at[g[j].parent] < at[j] {
      ParentRowIsEarlier(remote, calls, rows, at, j);
    }
    RankedIsAcyclic(g, at);
    TreeShowsRowsIff(rows);
    forall i, j | 0 <= i < j < |rows| ensures rows[i].span != rows[j].span <==> at[i] != at[j] {
      StampedRow(remote, calls, rows, at, i);
      StampedRow(remote, calls, rows, at, j);
      if at[i] < at[j] { assert SpanAt(remote, calls, at[i]) != SpanAt(remote, calls, at[j]); }
      if at[j] < at[i] { assert SpanAt(remote, calls, at[j]) != SpanAt(remote, calls, at[i]); }
    }
  }

  // ---------- Several rows under one span ----------

  /** How many of the first n rows were written under context k. */
  function SpanRows(at: seq<nat>, k: nat, n: nat): nat
    requires n <= |at|
  {
    if n == 0 then 0 else SpanRows(at, k, n - 1) + if at[n - 1] == k then 1 else 0
  }

  /** Rows with one span id were written under one context. */
  lemma {:induction false} SameSpanSameContext(remote: SpanId, calls: seq<Call>, rows: seq<Row>, at: seq<nat>, i: nat, j: nat)
    requires WellNested(calls) && ValidIds(calls) && FreshIds(remote, calls) && Stamped(remote, calls, rows, at)
    requires i < |rows| && j < |rows| && rows[i].span == rows[j].span
    ensures at[i] == at[j]
  {
    StampedRow(remote, calls, rows, at, i);
    StampedRow(remote, calls, rows, at, j);
    SpansDiffer(remote, calls, at[i], at[j]);
  }

  lemma {:induction false} SpansDiffer(remote: SpanId, calls: seq<Call>, j: nat, k: nat)
    requires FreshIds(remote, calls) && j <= |calls| && k <= |calls|
    ensures SpanAt(remote, calls, j) == SpanAt(remote, calls, k) ==> j == k
  {
  }

  /** Rows share a node exactly if they were written under one span; it is the last of them. */
  lemma {:induction false} NodeIsLastOfSpan(remote: SpanId, calls: seq<Call>, rows: seq<Row>, at: seq<nat>, j: nat)
    requires WellNested(calls) && ValidIds(calls) && FreshIds(remote, calls) && Stamped(remote, calls, rows, at) && j < |rows|
    ensures at[NodeOf(rows, j)] == at[j]
    ensures forall i :: NodeOf(rows, j) < i < |rows| ==> at[i] != at[j]
  {
    var n := NodeOf(rows, j);
    SameSpanSameContext(remote, calls, rows, at, n, j);
    StampedRow(remote, calls, rows, at, j);
    forall i | n < i < |rows| ensures at[i] != at[j] {
      StampedRow(remote, calls, rows, at, i);
      if at[i] == at[j] { NoneAfterLast(rows, rows[j].span, i); }
    }
  }

  lemma {:induction false} StampedParentsAgree(remote: SpanId, calls: seq<Call>, rows: seq<Row>, at: seq<nat>)
    requires WellNested(calls) && ValidIds(calls) && FreshIds(remote, calls) && Stamped(remote, calls, rows, at)
    ensures ParentsAgree(rows)
  {
    forall i, j | 0 <= i < |rows| && 0 <= j < |rows| && rows[i].span == rows[j].span ensures rows[i].parent == rows[j].parent {
      SameSpanSameContext(remote, calls, rows, at, i, j);
    }
  }

  lemma {:induction false} StampedRises(remote: SpanId, calls: seq<Call>, rows: seq<Row>, at: seq<nat>)
    requires WellNested(calls) && ValidIds(calls) && FreshIds(remote, calls) && Stamped(remote, calls, rows, at)
    ensures Rises(GraphOf(rows), at, |calls|)
  {
    var g := GraphOf(rows);
    forall j | 0 <= j < |g| && 0 <= g[j].parent < |g| ensures at[g[j].parent] < at[g[j].node] {
      ParentRowIsEarlier(remote, calls, rows, at, j);
      NodeIsLastOfSpan(remote, calls, rows, at, j);
    }
  }

  /** The tree of stamped rows always ends, however many rows share a span: deeper than the calls there is nothing. */
  lemma {:induction false} StampedTreeEnds(remote: SpanId, calls: seq<Call>, rows: seq<Row>, at: seq<nat>, d: nat)
    requires WellNested(calls) && ValidIds(calls) && FreshIds(remote, calls) && Stamped(remote, calls, rows, at)
    requires d >= |calls| + 2
    ensures Walk(GraphOf(rows), ROOT, d) == Walk(GraphOf(rows), ROOT, |calls| + 2)
  {
    StampedRises(remote, calls, rows, at);
    RankedWalkEnds(GraphOf(rows), at, |calls|, d);
  }

  lemma {:induction false} CountsAgree(g: Graph, at: seq<nat>, i: nat, n: nat)
    requires |at| == |g| && i < |g| && n <= |g|
    requires forall j :: 0 <= j < |g| ==> (g[j].node == i <==> at[j] == at[i])
    ensures RowCount(g, i, n) == SpanRows(at, at[i], n)
  {
    if n > 0 { CountsAgree(g, at, i, n - 1); }
  }

  lemma {:induction false} RowCountIsSpanRows(remote: SpanId, calls: seq<Call>, rows: seq<Row>, at: seq<nat>, i: nat)
    requires WellNested(calls) && ValidIds(calls) && FreshIds(remote, calls) && Stamped(remote, calls, rows, at)
    requires i < |rows| && NodeOf(rows, i) == i
    ensures RowCount(GraphOf(rows), i, |rows|) == SpanRows(at, at[i], |rows|)
  {
    var g := GraphOf(rows);
    NodeIsLastOfSpan(remote, calls, rows, at, i);
    forall j | 0 <= j < |g| ensures g[j].node == i <==> at[j] == at[i] {
      assert g[j].node == NodeOf(rows, j);
      NodeIsLastOfSpan(remote, calls, rows, at, j);
    }
    CountsAgree(g, at, i, |rows|);
  }

  /**
  What the complete tree shows: of each span only the last row, and that as often as the product
  of the numbers of rows written under the spans on its way to the root.
   */
  lemma {:induction false} StampedVisits(remote: SpanId, calls: seq<Call>, rows: seq<Row>, at: seq<nat>, i: nat, d: nat)
    requires WellNested(calls) && ValidIds(calls) && FreshIds(remote, calls) && Stamped(remote, calls, rows, at)
    requires i < |rows| && d >= |calls| + 2
    ensures Visits(GraphOf(rows), i, d) == Multiplicity(GraphOf(rows), i, |calls| + 2)
    ensures Visits(GraphOf(rows), i, d) > 0 <==> forall j :: i < j < |rows| ==> at[j] != at[i]
    ensures NodeOf(rows, i) == i ==> RowCount(GraphOf(rows), i, |rows|) == SpanRows(at, at[i], |rows|)
  {
    var g := GraphOf(rows);
    GraphIsValid(rows);
    StampedTreeEnds(remote, calls, rows, at, d);
    StampedParentsAgree(remote, calls, rows, at);
    AgreeingTree(rows, i, |calls| + 2);
    LastIsShown(remote, calls, rows, at, i);
    NodeIsLastOfSpan(remote, calls, rows, at, i);
    if NodeOf(rows, i) == i { RowCountIsSpanRows(remote, calls, rows, at, i); }
  }

  lemma {:induction false} LastIsShown(remote: SpanId, calls: seq<Call>, rows: seq<Row>, at: seq<nat>, i: nat)
    requires WellNested(calls) && ValidIds(calls) && FreshIds(remote, calls) && Stamped(remote, calls, rows, at) && i < |rows|
    ensures Multiplicity(GraphOf(rows), i, |calls| + 2) > 0 <==> NodeOf(rows, i) == i
  {
    var g := GraphOf(rows);
    GraphIsValid(rows);
    forall j | 0 <= j < |g| && g[j].parent != ROOT ensures at[g[j].parent] < at[j] {
      ParentRowIsEarlier(remote, calls, rows, at, j);
    }
    forall p, j | 0 <= p < |g| && 0 <= j < |g| && g[j].parent == p ensures g[p].node == p {
      assert ParentOf(rows, j) == p && NodeOf(rows, p) == LastWith(rows, rows[j].parent);
    }
    PositiveIffOwn(g, at, i, |calls| + 2);
  }
}
