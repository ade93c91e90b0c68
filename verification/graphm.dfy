/**
 * The matrix graph GraphM (Assignment3/graphm.cpp): node labels, a
 * MAXNODES x MAXNODES cost matrix and a path table with one row of
 * {dist, path, visited} entries per source.
 *
 * Member functions become functions from one Graph value to the next;
 * findShortestPath is a method because its per-source pass is a loop.
 * Node numbers are 0-based inside the graph and 1-based at display.
 */
module GraphM {
  import opened Options
  import opened Walks
  import opened Dijkstra

  /** Capacity of the fixed arrays. The header that declares it is not part
      of this model; 100 is assumed. */
  const MAXNODES: nat := 100

  /** A graph: size nodes in use, their labels (NodeData), the cost matrix
      (None = NOPATH) and the path table travel[source][node]. */
  datatype Graph = Graph(size: nat, labels: seq<string>, cost: Matrix, travel: seq<Row>)

  predicate Valid(g: Graph)
  {
    && g.size <= MAXNODES && |g.labels| == g.size
    && |g.cost| == MAXNODES && (forall i :: 0 <= i < MAXNODES ==> |g.cost[i]| == MAXNODES)
    && |g.travel| == MAXNODES && (forall i :: 0 <= i < MAXNODES ==> |g.travel[i]| == MAXNODES)
  }

  /** Every source row in use is as the constructor left it. */
  predicate AllFresh(g: Graph)
    requires Valid(g)
  {
    forall s :: 0 <= s < g.size ==> Fresh(g.travel[s], g.size)
  }

  /** The constructor: no nodes, no edges, no distances. The path fields are
      value-initialised to 0 (the declaration of the table's entry type is
      not part of this model). */
  function New(): (g: Graph)
    ensures Valid(g) && g.size == 0 && g.labels == []
    ensures forall i, j :: 0 <= i < MAXNODES && 0 <= j < MAXNODES ==>
      g.cost[i][j].None? && g.travel[i][j].dist.None? && !g.travel[i][j].visited && g.travel[i][j].path == 0
  {
    Graph(0, [], seq(MAXNODES, _ => seq(MAXNODES, _ => None)), seq(MAXNODES, _ => seq(MAXNODES, _ => Entry(None, 0, false))))
  }

  /** The cost matrix with entry [from][to] replaced. */
  function SetCost(c: Matrix, from: nat, to: nat, x: Option<nat>): Matrix
    requires from < |c| && to < |c[from]|
  {
    c[from := c[from][to := x]]
  }

  /** insertEdge: cost[from][to] becomes weight, overwriting any earlier
      edge; nothing else in the graph changes. */
  function InsertEdge(g: Graph, from: nat, to: nat, weight: nat): (r: Graph)
    requires Valid(g) && from < MAXNODES && to < MAXNODES
    ensures Valid(r) && r.size == g.size && r.labels == g.labels && r.travel == g.travel
    ensures r.cost[from][to] == Some(weight)
    ensures forall i, j :: 0 <= i < MAXNODES && 0 <= j < MAXNODES && (i != from || j != to) ==> r.cost[i][j] == g.cost[i][j]
  {
    g.(cost := SetCost(g.cost, from, to, Some(weight)))
  }

  /** removeEdge: cost[from][to] becomes NOPATH; nothing else changes. */
  function RemoveEdge(g: Graph, from: nat, to: nat): (r: Graph)
    requires Valid(g) && from < MAXNODES && to < MAXNODES
    ensures Valid(r) && r.size == g.size && r.labels == g.labels && r.travel == g.travel
    ensures r.cost[from][to].None?
    ensures forall i, j :: 0 <= i < MAXNODES && 0 <= j < MAXNODES && (i != from || j != to) ==> r.cost[i][j] == g.cost[i][j]
  {
    g.(cost := SetCost(g.cost, from, to, None))
  }

  /** Removing an edge undoes inserting it where there was none before, and a
      later insert on the same pair overrides an earlier one. */
  lemma InsertRemoveInverse(g: Graph, from: nat, to: nat, w: nat, w2: nat)
    requires Valid(g) && from < MAXNODES && to < MAXNODES
    ensures g.cost[from][to].None? ==> RemoveEdge(InsertEdge(g, from, to, w), from, to) == g
    ensures InsertEdge(InsertEdge(g, from, to, w), from, to, w2) == InsertEdge(g, from, to, w2)
  {
    var c: Matrix := g.cost;
    assert c[from := c[from][to := Some(w)]][from][to := Some(w2)] == c[from][to := Some(w2)];
    if c[from][to].None? {
      assert c[from][to := Some(w)][to := None] == c[from];
      assert c[from := c[from]] == c;
    }
  }

  /** Inserting an edge that is new or no heavier than the old one makes no
      walk heavier; removing an edge makes no walk lighter. */
  lemma EdgeUpdatesCheaper(g: Graph, from: nat, to: nat, w: nat)
    requires Valid(g) && from < MAXNODES && to < MAXNODES
    ensures (g.cost[from][to].None? || w <= g.cost[from][to].value) ==> Cheaper(InsertEdge(g, from, to, w).cost, g.cost, g.size)
    ensures Cheaper(g.cost, RemoveEdge(g, from, to).cost, g.size)
  {
  }

  // ---------------------------------------------------------------------
  // buildGraph, after parsing
  // ---------------------------------------------------------------------

  /** One edge line of the input file: 1-based endpoints and a weight. */
  datatype EdgeLine = EdgeLine(from: int, to: int, weight: int)

  /** The line 0 0 0 that ends the edge list. */
  predicate IsTerminator(e: EdgeLine)
  {
    e.from == 0 && e.to == 0 && e.weight == 0
  }

  /** Index of the first terminator, or the number of lines if there is none. */
  function EdgeCount(lines: seq<EdgeLine>): (k: nat)
    ensures k <= |lines|
    ensures forall j :: 0 <= j < k ==> !IsTerminator(lines[j])
    ensures k < |lines| ==> IsTerminator(lines[k])
  {
    if |lines| == 0 || IsTerminator(lines[0]) then 0 else 1 + EdgeCount(lines[1..])
  }

  /** The edge lines before the terminator address nodes within the arrays
      and carry non-negative weights. */
  predicate EdgesInRange(lines: seq<EdgeLine>)
  {
    forall j :: 0 <= j < EdgeCount(lines) ==>
      1 <= lines[j].from <= MAXNODES && 1 <= lines[j].to <= MAXNODES && lines[j].weight >= 0
  }

  /** The weight the last line for the 0-based pair (f, t) gives it, or dflt
      when no line names that pair. */
  function LastWeight(lines: seq<EdgeLine>, f: nat, t: nat, dflt: Option<nat>): Option<nat>
  {
    if |lines| == 0 then dflt
    else
      var e := lines[|lines| - 1];
      if e.from - 1 == f && e.to - 1 == t && e.weight >= 0 then Some(e.weight as nat)
      else LastWeight(lines[..|lines| - 1], f, t, dflt)
  }

  /** buildGraph once the file is parsed: the node count, the labels, then
      one insertEdge per edge line up to the terminator. Later lines for the
      same pair win. The path table is untouched. */
  method BuildGraph(g: Graph, n: nat, labels: seq<string>, lines: seq<EdgeLine>) returns (r: Graph)
    requires Valid(g) && n <= MAXNODES && |labels| == n && EdgesInRange(lines)
    ensures Valid(r) && r.size == n && r.labels == labels && r.travel == g.travel
    ensures forall f, t :: 0 <= f < MAXNODES && 0 <= t < MAXNODES ==>
      r.cost[f][t] == LastWeight(lines[..EdgeCount(lines)], f, t, g.cost[f][t])
  {
    r := g.(size := n, labels := labels);
    var k := 0;
    while k < |lines| && !IsTerminator(lines[k])
      invariant k <= EdgeCount(lines)
      invariant Valid(r) && r.size == n && r.labels == labels && r.travel == g.travel
      invariant forall f, t :: 0 <= f < MAXNODES && 0 <= t < MAXNODES ==>
        r.cost[f][t] == LastWeight(lines[..k], f, t, g.cost[f][t])
    {
      var e := lines[k];
      assert lines[..k + 1][..k] == lines[..k];
      r := InsertEdge(r, e.from - 1, e.to - 1, e.weight);
      k := k + 1;
    }
  }

  // ---------------------------------------------------------------------
  // findShortestPath
  // ---------------------------------------------------------------------

  /** findShortestPath as written: one pass per source over the existing
      table, which is never reset, with each source's pass stopped once the
      selection scan finds nothing (where the C++ would go on with an
      uninitialised `from`). From fresh rows every row comes out correct and
      settled; rows that are already settled come out unchanged, because the
      scan finds nothing at their first step. */
  method FindShortestPath(g: Graph) returns (r: Graph)
    requires Valid(g)
    ensures Valid(r) && r.size == g.size && r.labels == g.labels && r.cost == g.cost
    ensures forall s :: g.size <= s < MAXNODES ==> r.travel[s] == g.travel[s]
    ensures forall s :: 0 <= s < g.size ==> Progress(g.size, s, g.travel[s], r.travel[s])
    ensures forall s :: 0 <= s < g.size && Fresh(g.travel[s], g.size) ==>
      RowCorrect(g.cost, g.size, s, r.travel[s]) && Settled(r.travel[s], g.size, s)
    ensures forall s :: 0 <= s < g.size && Settled(g.travel[s], g.size, s) && g.travel[s][s].dist == Some(0) ==>
      r.travel[s] == g.travel[s]
  {
    var travel := g.travel;
    var s := 0;
    while s < g.size
      invariant s <= g.size && |travel| == MAXNODES
      invariant forall i :: 0 <= i < MAXNODES ==> |travel[i]| == MAXNODES
      invariant forall i :: s <= i < MAXNODES ==> travel[i] == g.travel[i]
      invariant forall i :: 0 <= i < s ==> Progress(g.size, i, g.travel[i], travel[i])
      invariant forall i :: 0 <= i < s && Fresh(g.travel[i], g.size) ==>
        RowCorrect(g.cost, g.size, i, travel[i]) && Settled(travel[i], g.size, i)
      invariant forall i :: 0 <= i < s && Settled(g.travel[i], g.size, i) && g.travel[i][i].dist == Some(0) ==>
        travel[i] == g.travel[i]
    {
      var row := RunSource(g.cost, g.size, s, travel[s]);
      if Settled(g.travel[s], g.size, s) && g.travel[s][s].dist == Some(0) {
        assert g.travel[s][s := g.travel[s][s].(dist := Some(0))] == g.travel[s];
      }
      travel := travel[s := row];
      s := s + 1;
    }
    r := g.(travel := travel);
  }

  /** Clear the first n entries of a row: no distance, not visited. */
  function ResetRow(row: Row, n: nat): (r: Row)
    requires n <= |row|
    ensures |r| == |row| && Fresh(r, n)
    ensures forall t :: 0 <= t < |row| ==> r[t].path == row[t].path
    ensures forall t :: n <= t < |row| ==> r[t] == row[t]
  {
    seq(|row|, t requires 0 <= t < |row| => if t < n then row[t].(dist := None, visited := false) else row[t])
  }

  /** findShortestPath with each source row cleared before its pass: a full
      recompute, so every row in use is correct for the current costs
      whatever the table held before. */
  method FindShortestPathReset(g: Graph) returns (r: Graph)
    requires Valid(g)
    ensures Valid(r) && r.size == g.size && r.labels == g.labels && r.cost == g.cost
    ensures forall s :: g.size <= s < MAXNODES ==> r.travel[s] == g.travel[s]
    ensures forall s :: 0 <= s < g.size ==> RowCorrect(g.cost, g.size, s, r.travel[s]) && Settled(r.travel[s], g.size, s)
  {
    var travel := g.travel;
    var s := 0;
    while s < g.size
      invariant s <= g.size && |travel| == MAXNODES
      invariant forall i :: 0 <= i < MAXNODES ==> |travel[i]| == MAXNODES
      invariant forall i :: s <= i < MAXNODES ==> travel[i] == g.travel[i]
      invariant forall i :: 0 <= i < s ==> RowCorrect(g.cost, g.size, i, travel[i]) && Settled(travel[i], g.size, i)
    {
      var row := RunSource(g.cost, g.size, s, ResetRow(travel[s], g.size));
      travel := travel[s := row];
      s := s + 1;
    }
    r := g.(travel := travel);
  }

  /** Shortest distances only improve when edges are added or made cheaper:
      compare correct rows for the old and the new costs. */
  lemma CheaperNeverIncreases(c: Matrix, c2: Matrix, n: nat, s: nat, row: Row, row2: Row)
    requires Cheaper(c2, c, n) && RowCorrect(c, n, s, row) && RowCorrect(c2, n, s, row2)
    ensures forall v :: 0 <= v < n ==> NoWorse(row2[v].dist, row[v].dist)
  {
    forall v | 0 <= v < n && row[v].dist.Some?
      ensures row2[v].dist.Some? && row2[v].dist.value <= row[v].dist.value
    {
      var p := Unwind(row, s, v, n).value;
      WalkInCheaper(c2, c, n, s, p);
      assert Reachable(c2, n, s, v);
    }
  }

  /** Correct rows agree on every distance, whatever order the pass took. */
  lemma DistancesUnique(c: Matrix, n: nat, s: nat, row: Row, row2: Row)
    requires RowCorrect(c, n, s, row) && RowCorrect(c, n, s, row2)
    ensures forall v :: 0 <= v < n ==> row[v].dist == row2[v].dist
  {
    CheaperNeverIncreases(c, c, n, s, row, row2);
    CheaperNeverIncreases(c, c, n, s, row2, row);
  }

  /** Calling findShortestPath twice on a freshly built graph gives the same
      table both times, with the passes stopped where the scan finds nothing:
      the C++ second call would go on with an uninitialised `from` on every
      row. */
  method RecomputeTwice(g: Graph) returns (first: Graph, second: Graph)
    requires Valid(g) && AllFresh(g)
    ensures Valid(first) && first.cost == g.cost
    ensures forall s :: 0 <= s < g.size ==> RowCorrect(g.cost, g.size, s, first.travel[s])
    ensures second == first
  {
    first := FindShortestPath(g);
    second := FindShortestPath(first);
    assert second.travel == first.travel;
  }

  /** After an edge is inserted, a second findShortestPath returns the table
      of the first pass unchanged, with the passes stopped where the scan
      finds nothing (the C++ would go on with an uninitialised `from`). */
  method RecomputeAfterInsert(g: Graph, from: nat, to: nat, w: nat) returns (first: Graph, second: Graph)
    requires Valid(g) && AllFresh(g) && from < MAXNODES && to < MAXNODES
    ensures Valid(first) && first.cost == g.cost
    ensures forall s :: 0 <= s < g.size ==> RowCorrect(g.cost, g.size, s, first.travel[s])
    ensures second.cost == InsertEdge(g, from, to, w).cost
    ensures second.travel == first.travel
  {
    first := FindShortestPath(g);
    second := FindShortestPath(InsertEdge(first, from, to, w));
    assert second.travel == first.travel;
  }

  /** A graph without edges only has the one-node walk. */
  lemma NoEdgeWalks(c: Matrix, n: nat, s: nat, p: seq<nat>)
    requires forall u, v :: 0 <= u < n && 0 <= v < n ==> !Edge(c, u, v)
    requires IsWalk(c, n, s, p)
    ensures |p| == 1 && Last(p) == s
  {
    if |p| >= 2 {
      FirstEdge(c, n, s, p);
    }
  }

  /** The stale second pass on a concrete graph: two nodes, no edges, then the
      edge 1 -> 2 of weight 5 inserted. A row correct before the insert (node
      2 unreachable) is wrong after it, and by RecomputeAfterInsert it is what
      the second findShortestPath returns once stopped where the scan finds
      nothing. */
  lemma StaleRowAfterInsert(g: Graph, row: Row)
    requires Valid(g) && g.size == 2 && forall i, j :: 0 <= i < 2 && 0 <= j < 2 ==> g.cost[i][j].None?
    requires RowCorrect(g.cost, 2, 0, row)
    ensures row[1].dist.None?
    ensures !RowCorrect(InsertEdge(g, 0, 1, 5).cost, 2, 0, row)
  {
    forall p | IsWalk(g.cost, 2, 0, p)
      ensures Last(p) == 0
    {
      NoEdgeWalks(g.cost, 2, 0, p);
    }
    var c2 := InsertEdge(g, 0, 1, 5).cost;
    assert IsWalk(c2, 2, 0, [0, 1]) && Last([0, 1]) == 1;
  }

  /** The stale second pass without an unreachable node: two nodes joined by
      1 -> 2 and 2 -> 1 of weight 5, so the first pass never runs out of
      nodes to select; then insertEdge(1, 2, 1). A row correct before the
      insert keeps node 2 at distance 5, which is wrong for the new costs,
      and by RecomputeAfterInsert it is what the second findShortestPath
      returns. */
  lemma StaleDistanceAfterInsert(g: Graph, row: Row)
    requires Valid(g) && g.size == 2 && g.cost[0][1] == Some(5) && g.cost[1][0] == Some(5)
    requires RowCorrect(g.cost, 2, 0, row)
    ensures row[1].dist == Some(5)
    ensures !RowCorrect(InsertEdge(g, 0, 1, 1).cost, 2, 0, row)
  {
    assert IsWalk(g.cost, 2, 0, [0, 1]) && Last([0, 1]) == 1;
    assert [0, 1][..1] == [0];
    assert IsPotential(g.cost, 2, 0, [0, 5]);
    DistancePinned(g.cost, 2, 0, row, [0, 5], [0, 1], 1, 5);
    var c2 := InsertEdge(g, 0, 1, 1).cost;
    assert IsWalk(c2, 2, 0, [0, 1]) && Weight(c2, [0, 1]) == 1;
  }

  // ---------------------------------------------------------------------
  // display and displayAll
  // ---------------------------------------------------------------------

  /** What display(from, to) reports. Unresolved: the predecessor chain does
      not reach the source within size steps (the C++ loop then never ends).
      OutOfBounds: an index below 1 that the C++ uses to read outside its
      arrays. Route numbers are 1-based. */
  datatype Report =
    | NotInGraph(node: int)
    | NoPath
    | Path(dist: nat, route: seq<nat>, names: seq<string>)
    | Unresolved
    | OutOfBounds

  function OneBased(p: seq<nat>): (r: seq<nat>)
    ensures |r| == |p| && forall k :: 0 <= k < |p| ==> r[k] == p[k] + 1
  {
    seq(|p|, k requires 0 <= k < |p| => p[k] + 1)
  }

  /** The labels along a route; nodes beyond the labels get an empty name. */
  function Names(labels: seq<string>, p: seq<nat>): (r: seq<string>)
    ensures |r| == |p| && forall k :: 0 <= k < |p| && p[k] < |labels| ==> r[k] == labels[p[k]]
  {
    seq(|p|, k requires 0 <= k < |p| => if p[k] < |labels| then labels[p[k]] else "")
  }

  predicate InGraph(g: Graph, k: int)
  {
    1 <= k <= g.size
  }

  /** display with both bounds checked and the route unwound from the
      destination itself, so from == to gives the one-node route. An index
      above the size is reported as display does it (the larger of the
      two); an index below 1 is reported as the smaller. */
  function Display(g: Graph, from: int, to: int): (r: Report)
    requires Valid(g)
    ensures r.NotInGraph? <==> !InGraph(g, from) || !InGraph(g, to)
    ensures r.NotInGraph? ==> !InGraph(g, r.node) && (r.node == from || r.node == to)
    ensures from > g.size || to > g.size ==> r.NotInGraph? && r.node == (if from > to then from else to)
    ensures r.NoPath? <==> InGraph(g, from) && InGraph(g, to) && g.travel[from - 1][to - 1].dist.None?
    ensures !r.OutOfBounds?
  {
    if from > g.size || to > g.size then NotInGraph(if from > to then from else to)
    else if from < 1 || to < 1 then NotInGraph(if from < to then from else to)
    else
      var s, t := from - 1, to - 1;
      var e := g.travel[s][t];
      if e.dist.None? then NoPath
      else RouteReport(g.labels, e.dist.value, Unwind(g.travel[s], s, t, g.size))
  }

  /** The report for a pair in range with a finite distance, given what the
      unwinding found (None: it did not get back to the source). */
  function RouteReport(labels: seq<string>, dist: nat, route: Option<seq<nat>>): Report
  {
    match route
    case None => Unresolved
    case Some(p) => Path(dist, OneBased(p), Names(labels, p))
  }

  /** For a correct row, display reports no path exactly for unreachable
      nodes and otherwise a shortest walk from `from` to `to`, along real
      edges, without repeated nodes, with the matching labels. */
  lemma DisplayShowsShortest(g: Graph, from: int, to: int)
    requires Valid(g) && InGraph(g, from) && InGraph(g, to)
    requires RowCorrect(g.cost, g.size, from - 1, g.travel[from - 1])
    ensures var r := Display(g, from, to);
      && (r.NoPath? <==> !Reachable(g.cost, g.size, from - 1, to - 1))
      && (r.Path? || r.NoPath?)
    ensures var r := Display(g, from, to);
      r.Path? ==> exists p ::
        && r.route == OneBased(p) && r.names == Names(g.labels, p)
        && IsWalk(g.cost, g.size, from - 1, p) && Last(p) == to - 1
        && Weight(g.cost, p) == r.dist && NoShorterWalk(g.cost, g.size, from - 1, to - 1, r.dist)
        && (forall a, b :: 0 <= a < b < |p| ==> p[a] != p[b])
        && (forall k :: 0 <= k < |p| ==> r.names[k] == g.labels[p[k]])
  {
    var s, t := from - 1, to - 1;
    var row := g.travel[s];
    var r := Display(g, from, to);
    if row[t].dist.None? {
      assert !Reachable(g.cost, g.size, s, t);
      assert r == NoPath;
    } else {
      assert NoShorterWalk(g.cost, g.size, s, t, row[t].dist.value) && Routed(g.cost, g.size, s, row, t);
      var p := Unwind(row, s, t, g.size).value;
      DisplayIsRoute(g, from, to);
      assert r == Path(row[t].dist.value, OneBased(p), Names(g.labels, p));
      assert IsWalk(g.cost, g.size, s, p) && Last(p) == t;
      assert Reachable(g.cost, g.size, s, t);
    }
  }

  /** A found route is what display reports. */
  lemma DisplayIsRoute(g: Graph, from: int, to: int)
    requires Valid(g) && InGraph(g, from) && InGraph(g, to)
    requires g.travel[from - 1][to - 1].dist.Some? && Unwind(g.travel[from - 1], from - 1, to - 1, g.size).Some?
    ensures var p := Unwind(g.travel[from - 1], from - 1, to - 1, g.size).value;
      Display(g, from, to) == Path(g.travel[from - 1][to - 1].dist.value, OneBased(p), Names(g.labels, p))
  {
  }

  /** display as written: only the upper bounds are checked (the larger index
      is reported), and the route is unwound from path[from-1][to-1], which
      for from == to is whatever the path field of the source holds. */
  function DisplayAsWritten(g: Graph, from: int, to: int): (r: Report)
    requires Valid(g)
    ensures (from > g.size || to > g.size) <==> r.NotInGraph?
    ensures r.NotInGraph? ==> r.node == (if from > to then from else to)
    ensures r.OutOfBounds? <==> from <= g.size && to <= g.size && (from < 1 || to < 1)
    ensures 1 <= from <= g.size && 1 <= to <= g.size ==> (r.NoPath? <==> g.travel[from - 1][to - 1].dist.None?)
    ensures r.Path? ==> 1 <= from && 1 <= to && g.travel[from - 1][to - 1].dist == Some(r.dist)
  {
    if from > g.size || to > g.size then NotInGraph(if from > to then from else to)
    else if from < 1 || to < 1 then OutOfBounds
    else
      var s, t := from - 1, to - 1;
      var e := g.travel[s][t];
      if e.dist.None? then NoPath
      else RouteReport(g.labels, e.dist.value, UnwindFromPred(g.travel[s], s, t, g.size))
  }

  /** The unwinding of display as written: start from t's predecessor and
      put t after the route found for it. */
  function UnwindFromPred(row: Row, s: nat, t: nat, fuel: nat): (r: Option<seq<nat>>)
    requires t < |row|
    ensures r.Some? ==> |r.value| >= 2 && r.value[0] == s && Last(r.value) == t
    ensures r.Some? ==> r.value[|r.value| - 2] == row[t].path
    ensures r.Some? <==> Unwind(row, s, row[t].path, fuel).Some?
  {
    match Unwind(row, s, row[t].path, fuel)
    case None => None
    case Some(q) => Some(q + [t])
  }

  /** For a destination other than the source, unwinding from the
      predecessor finds the same route as unwinding from the destination. */
  lemma UnwindFromPredAgrees(row: Row, s: nat, t: nat, fuel: nat)
    requires t != s && t < |row| && Unwind(row, s, t, fuel).Some?
    ensures UnwindFromPred(row, s, t, fuel) == Unwind(row, s, t, fuel)
  {
    UnwindMoreFuel(row, s, t, fuel);
  }

  /** Extra fuel does not change a route that was already found. */
  lemma {:induction false} UnwindMoreFuel(row: Row, s: nat, v: nat, fuel: nat)
    requires Unwind(row, s, v, fuel).Some?
    ensures Unwind(row, s, v, fuel + 1) == Unwind(row, s, v, fuel)
    decreases fuel
  {
    if v != s {
      UnwindMoreFuel(row, s, row[v].path, fuel - 1);
    }
  }

  /** For two different nodes in range and a correct row, display as written
      and the corrected display agree. */
  lemma DisplayAsWrittenAgrees(g: Graph, from: int, to: int)
    requires Valid(g) && InGraph(g, from) && InGraph(g, to) && from != to
    requires RowCorrect(g.cost, g.size, from - 1, g.travel[from - 1])
    ensures DisplayAsWritten(g, from, to) == Display(g, from, to)
  {
    var s, t := from - 1, to - 1;
    if g.travel[s][t].dist.Some? {
      RowRoutes(g.cost, g.size, s, g.travel[s], t);
    }
    DisplayAgreesWhenResolved(g, from, to);
  }

  lemma DisplayAgreesWhenResolved(g: Graph, from: int, to: int)
    requires Valid(g) && InGraph(g, from) && InGraph(g, to) && from != to
    requires g.travel[from - 1][to - 1].dist.Some? ==> Unwind(g.travel[from - 1], from - 1, to - 1, g.size).Some?
    ensures DisplayAsWritten(g, from, to) == Display(g, from, to)
  {
    var s, t := from - 1, to - 1;
    if g.travel[s][t].dist.Some? {
      UnwindFromPredAgrees(g.travel[s], s, t, g.size);
    }
  }

  /** The missing lower-bound check: index 0 passes the guard. */
  lemma DisplayLowerBound(g: Graph)
    requires Valid(g) && g.size >= 1
    ensures DisplayAsWritten(g, 0, 1) == OutOfBounds
    ensures Display(g, 0, 1) == NotInGraph(0)
  {
  }

  /** From node 1 an unwinding that meets a path field of 0 never gets back
      to a source other than node 1. */
  lemma {:induction false} UnwindStuck(row: Row, s: nat, fuel: nat)
    requires 0 < s && 0 < |row| && row[0].path == 0
    ensures Unwind(row, s, 0, fuel).None?
    decreases fuel
  {
    if fuel > 0 {
      UnwindStuck(row, s, fuel - 1);
    }
  }

  /** display(k, k) as written for k >= 2 on a table computed from a fresh
      graph in which node 1 is unreachable from node k: the pass never
      rewrites path[k-1][k-1] or path[k-1][0], both still 0, so the
      as-written unwinding cycles on node 1, while the corrected display
      gives the one-node route. */
  lemma DisplaySameNode(g0: Graph, g: Graph, k: int)
    requires Valid(g0) && Valid(g) && g.size == g0.size && g.labels == g0.labels && 2 <= k <= g.size
    requires g0.travel[k - 1][k - 1].path == 0 && g0.travel[k - 1][0].path == 0
    requires Progress(g.size, k - 1, g0.travel[k - 1], g.travel[k - 1])
    requires g.travel[k - 1][0].dist.None?
    ensures DisplayAsWritten(g, k, k) == Unresolved
    ensures Display(g, k, k) == Path(0, [k], [g.labels[k - 1]])
  {
    var row := g.travel[k - 1];
    UnwindStuck(row, k - 1, g.size);
    assert Unwind(row, k - 1, k - 1, g.size) == Some([k - 1]);
    assert OneBased([k - 1]) == [k];
  }

  /** display(2, 2) as written on two nodes joined both ways (1 -> 2 and
      2 -> 1), after a pass that leaves path[1][1] at 0: the unwinding
      starts at node 1, whose predecessor is node 2, and so reports the
      route 2 -> 1 -> 2 at distance 0. The corrected display gives the
      one-node route [2]. */
  lemma DisplaySameNodeDetour(g0: Graph, g: Graph)
    requires Valid(g0) && Valid(g) && g.size == g0.size == 2 && g.labels == g0.labels
    requires Edge(g.cost, 0, 1) && Edge(g.cost, 1, 0)
    requires g0.travel[1][1].path == 0
    requires Progress(2, 1, g0.travel[1], g.travel[1]) && RowCorrect(g.cost, 2, 1, g.travel[1])
    ensures DisplayAsWritten(g, 2, 2) == Path(0, [2, 1, 2], [g.labels[1], g.labels[0], g.labels[1]])
    ensures Display(g, 2, 2) == Path(0, [2], [g.labels[1]])
  {
    var row := g.travel[1];
    BackEdgeRoute(g.cost, row);
    assert row[1].path == 0;
    assert [1, 0] + [1] == [1, 0, 1];
    assert UnwindFromPred(row, 1, 1, 2) == Some([1, 0, 1]);
    assert OneBased([1, 0, 1]) == [2, 1, 2];
    assert OneBased([1]) == [2];
  }

  /** With the edge 2 -> 1, a correct row for node 2 has node 2 as the
      predecessor of node 1. */
  lemma BackEdgeRoute(c: Matrix, row: Row)
    requires Edge(c, 1, 0) && RowCorrect(c, 2, 1, row)
    ensures row[0].path == 1 && Unwind(row, 1, 0, 2) == Some([1, 0])
  {
    assert IsWalk(c, 2, 1, [1, 0]) && Last([1, 0]) == 0;
    assert Routed(c, 2, 1, row, 0);
    var p := Unwind(row, 1, 0, 2).value;
    assert p[1] != 1 && p[1] < 2;
    assert p == [1, 0];
  }

  /** displayAll: a report for every ordered pair of different nodes (the
      diagonal is skipped), produced by the as-written unwinding. */
  function DisplayAll(g: Graph): (r: seq<seq<Option<Report>>>)
    requires Valid(g)
    ensures |r| == g.size && forall i :: 0 <= i < g.size ==> |r[i]| == g.size
    ensures forall i, j :: 0 <= i < g.size && 0 <= j < g.size ==> (r[i][j].None? <==> i == j)
    ensures forall i, j :: 0 <= i < g.size && 0 <= j < g.size && r[i][j].Some? ==>
      !r[i][j].value.NotInGraph? && !r[i][j].value.OutOfBounds?
    ensures forall i, j :: 0 <= i < g.size && 0 <= j < g.size && i != j ==>
      (r[i][j] == Some(NoPath) <==> g.travel[i][j].dist.None?)
  {
    seq(g.size, i requires 0 <= i < g.size => DisplaySource(g, i))
  }

  /** The reports of displayAll for source i. */
  function DisplaySource(g: Graph, i: nat): (r: seq<Option<Report>>)
    requires Valid(g) && i < g.size
    ensures |r| == g.size
    ensures forall j :: 0 <= j < g.size ==> (r[j].None? <==> i == j)
    ensures forall j :: 0 <= j < g.size && r[j].Some? ==> !r[j].value.NotInGraph? && !r[j].value.OutOfBounds?
    ensures forall j :: 0 <= j < g.size && j != i ==> (r[j] == Some(NoPath) <==> g.travel[i][j].dist.None?)
  {
    seq(g.size, j requires 0 <= j < g.size => if i == j then None else Some(DisplayAsWritten(g, i + 1, j + 1)))
  }

  /** With correct rows every report of displayAll is the shortest-path
      report of the corrected display. */
  lemma DisplayAllShowsShortest(g: Graph)
    requires Valid(g) && forall s :: 0 <= s < g.size ==> RowCorrect(g.cost, g.size, s, g.travel[s])
    ensures forall i, j :: 0 <= i < g.size && 0 <= j < g.size && i != j ==>
      DisplayAll(g)[i][j] == Some(Display(g, i + 1, j + 1))
  {
    forall i, j | 0 <= i < g.size && 0 <= j < g.size && i != j
      ensures DisplayAll(g)[i][j] == Some(Display(g, i + 1, j + 1))
    {
      if g.travel[i][j].dist.Some? {
        RowRoutes(g.cost, g.size, i, g.travel[i], j);
      }
      DisplayAllPair(g, i, j);
    }
  }

  lemma DisplayAllPair(g: Graph, i: nat, j: nat)
    requires Valid(g) && i < g.size && j < g.size && i != j
    requires g.travel[i][j].dist.Some? ==> Unwind(g.travel[i], i, j, g.size).Some?
    ensures DisplayAll(g)[i][j] == Some(Display(g, i + 1, j + 1))
  {
    DisplayAllEntry(g, i, j);
    DisplayAgreesWhenResolved(g, i + 1, j + 1);
  }

  lemma DisplayAllEntry(g: Graph, i: nat, j: nat)
    requires Valid(g) && i < g.size && j < g.size && i != j
    ensures DisplayAll(g)[i][j] == Some(DisplayAsWritten(g, i + 1, j + 1))
  {
    assert DisplayAll(g)[i] == DisplaySource(g, i);
  }

  // ---------------------------------------------------------------------
  // A worked example
  // ---------------------------------------------------------------------

  /** Three nodes with edges 1 -> 2 (5), 2 -> 3 (2) and 1 -> 3 (10), 0-based
      here; `direct` says whether the edge 2 -> 3 is still present. */
  function Triangle(direct: bool): (c: Matrix)
    ensures Covers(c, 3)
  {
    [[None, Some(5), Some(10)],
     [None, None, if direct then Some(2) else None],
     [None, None, None]]
  }

  /** A walk to v and a potential that reaches the walk's weight at v pin
      down the distance a correct row holds for v. */
  lemma DistanceCertified(c: Matrix, n: nat, s: nat, row: Row, h: seq<nat>, p: seq<nat>)
    requires RowCorrect(c, n, s, row) && IsWalk(c, n, s, p)
    requires IsPotential(c, n, s, h)
    ensures row[Last(p)].dist.Some? && h[Last(p)] <= row[Last(p)].dist.value <= Weight(c, p)
  {
    var v := Last(p);
    assert Reachable(c, n, s, v);
    PotentialBound(c, n, s, h, Unwind(row, s, v, n).value);
  }

  /** A walk of weight d to v matched by a potential of d at v fixes v's
      distance in a correct row at d. */
  lemma DistancePinned(c: Matrix, n: nat, s: nat, row: Row, h: seq<nat>, p: seq<nat>, v: nat, d: nat)
    requires RowCorrect(c, n, s, row) && IsWalk(c, n, s, p) && IsPotential(c, n, s, h)
    requires Last(p) == v && Weight(c, p) == d && h[v] == d
    ensures v < |row| && row[v].dist == Some(d)
  {
    DistanceCertified(c, n, s, row, h, p);
  }

  /** [0, 5, 7] (with the edge 2 -> 3) or [0, 5, 10] (without it) is a
      potential no edge of the triangle overshoots. */
  lemma TrianglePotential(direct: bool)
    ensures IsPotential(Triangle(direct), 3, 0, [0, 5, if direct then 7 else 10])
  {
  }

  lemma TriangleTwoSteps()
    ensures IsWalk(Triangle(true), 3, 0, [0, 1, 2]) && Last([0, 1, 2]) == 2
    ensures Weight(Triangle(true), [0, 1, 2]) == 7
  {
    var c := Triangle(true);
    assert c[0][1] == Some(5) && c[1][2] == Some(2);
    assert [0, 1, 2][..2] == [0, 1] && [0, 1][..1] == [0];
  }

  lemma TriangleOneStep(direct: bool)
    ensures IsWalk(Triangle(direct), 3, 0, [0, 2]) && Last([0, 2]) == 2
    ensures Weight(Triangle(direct), [0, 2]) == 10
  {
    assert [0, 2][..1] == [0];
  }

  /** The only walks from node 1 to node 3 that repeat no node are the
      direct edge and, when the edge 2 -> 3 is present, the detour
      through node 2. */
  lemma TriangleSimpleWalks(direct: bool, p: seq<nat>)
    requires IsWalk(Triangle(direct), 3, 0, p) && Last(p) == 2
    requires forall a, b :: 0 <= a < b < |p| ==> p[a] != p[b]
    ensures p == [0, 2] || (direct && p == [0, 1, 2])
  {
    var c := Triangle(direct);
    assert |p| >= 2 by {
      assert p[0] == 0;
    }
    assert p[1] != 0 by {
      assert Edge(c, p[0], p[1]);
    }
    if |p| == 2 {
      assert p == [0, p[1]];
    } else {
      assert p[1] != 2 && p[1] < 3;
      assert p[2] != p[0] && p[2] != p[1] && p[2] < 3;
      assert p[2] == Last(p);
      assert |p| == 3;
      assert p == [0, 1, 2];
      assert Edge(c, 1, 2);
    }
  }

  /** A correct row for node 1 puts node 3 at distance 7, through node 2:
      the route display unwinds is 1 -> 2 -> 3. */
  lemma TriangleShortest(row: Row)
    requires RowCorrect(Triangle(true), 3, 0, row)
    ensures row[2].dist == Some(7)
    ensures Unwind(row, 0, 2, 3) == Some([0, 1, 2])
  {
    TriangleTwoSteps();
    TrianglePotential(true);
    DistancePinned(Triangle(true), 3, 0, row, [0, 5, 7], [0, 1, 2], 2, 7);
    assert Routed(Triangle(true), 3, 0, row, 2);
    var p := Unwind(row, 0, 2, 3).value;
    TriangleSimpleWalks(true, p);
    TriangleOneStep(true);
  }

  /** With the edge 2 -> 3 removed, a correct row for node 1 puts node 3 at
      distance 10 along the direct edge 1 -> 3. */
  lemma TriangleAfterRemove(row: Row)
    requires RowCorrect(Triangle(false), 3, 0, row)
    ensures row[2].dist == Some(10)
    ensures Unwind(row, 0, 2, 3) == Some([0, 2])
  {
    TriangleOneStep(false);
    TrianglePotential(false);
    DistancePinned(Triangle(false), 3, 0, row, [0, 5, 10], [0, 2], 2, 10);
    assert Routed(Triangle(false), 3, 0, row, 2);
    TriangleSimpleWalks(false, Unwind(row, 0, 2, 3).value);
  }

  /** Above the size, both displays name the larger index. */
  lemma DisplayUpperBoundAgrees(g: Graph, from: int, to: int)
    requires Valid(g) && (from > g.size || to > g.size)
    ensures Display(g, from, to) == DisplayAsWritten(g, from, to) == NotInGraph(if from > to then from else to)
  {
  }
}
