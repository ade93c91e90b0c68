/**
 * One source's row of the shortest-path pass in GraphM::findShortestPath
 * (Assignment3/graphm.cpp:79-108): repeatedly select the cheapest unvisited
 * node by a linear scan, mark it visited, and relax the edges leaving it.
 *
 * A row entry is a travel-table record {dist, path, visited}; dist None is
 * the sentinel NOPATH. The proofs keep a ghost `rank` (the step at which a
 * node was visited) to show that predecessor chains lead back to the source.
 */
module Dijkstra {
  import opened Options
  import opened Walks

  datatype Entry = Entry(dist: Option<nat>, path: nat, visited: bool)

  type Row = seq<Entry>

  /** d < dist, reading None (NOPATH) as larger than every distance. */
  predicate Below(d: nat, dist: Option<nat>)
  {
    dist.None? || d < dist.value
  }

  /** Distance a is no worse than distance b. */
  predicate NoWorse(a: Option<nat>, b: Option<nat>)
  {
    b.None? || (a.Some? && a.value <= b.value)
  }

  /** The row as the constructor leaves it: nothing visited, no distances. */
  predicate Fresh(row: Row, n: nat)
  {
    n <= |row| && forall v :: 0 <= v < n ==> row[v].dist.None? && !row[v].visited
  }

  /** The row as a completed pass leaves it: the source is visited and no
      unvisited node has a finite distance, so a further pass selects nothing. */
  predicate Settled(row: Row, n: nat, s: nat)
  {
    n <= |row| && s < n && row[s].visited && forall v :: 0 <= v < n && !row[v].visited ==> row[v].dist.None?
  }

  /** A node the selection scan may pick. */
  predicate Candidate(row: Row, v: nat)
    requires v < |row|
  {
    !row[v].visited && row[v].dist.Some?
  }

  /** m is what the scan picks: a candidate of least distance, and the
      lowest-indexed one among equals. */
  predicate IsCheapest(row: Row, n: nat, m: nat)
  {
    && n <= |row| && m < n && Candidate(row, m)
    && (forall v :: 0 <= v < n && Candidate(row, v) ==> row[m].dist.value <= row[v].dist.value)
    && (forall v :: 0 <= v < m && Candidate(row, v) ==> row[m].dist.value < row[v].dist.value)
  }

  /** The selection scan. The C++ comparison is a strict dist < cheapest
      starting from cheapest = NOPATH, so an entry at NOPATH is never taken
      and a later equal distance never displaces an earlier one. None is the
      case where the C++ leaves `from` uninitialised; the pass stops there. */
  method Cheapest(row: Row, n: nat) returns (m: Option<nat>)
    requires n <= |row|
    ensures m.None? <==> forall v :: 0 <= v < n ==> !Candidate(row, v)
    ensures m.Some? ==> IsCheapest(row, n, m.value)
  {
    m := None;
    var cheapest: Option<nat> := None;
    var j := 0;
    while j < n
      invariant 0 <= j <= n
      invariant m.None? <==> cheapest.None?
      invariant m.None? ==> forall v :: 0 <= v < j ==> !Candidate(row, v)
      invariant m.Some? ==> m.value < j && Candidate(row, m.value) && cheapest == row[m.value].dist
      invariant m.Some? ==> forall v :: 0 <= v < j && Candidate(row, v) ==> row[m.value].dist.value <= row[v].dist.value
      invariant m.Some? ==> forall v :: 0 <= v < m.value && Candidate(row, v) ==> row[m.value].dist.value < row[v].dist.value
    {
      if !row[j].visited && row[j].dist.Some? && Below(row[j].dist.value, cheapest) {
        cheapest := row[j].dist;
        m := Some(j);
      }
      j := j + 1;
    }
  }

  /** Relaxing the edge m -> t improves t: t is another, unvisited node, the
      edge exists, and the distance through m is strictly smaller. */
  predicate Improves(c: Matrix, row: Row, m: nat, t: nat)
    requires m < |row| && t < |row|
  {
    && t != m && !row[t].visited && Edge(c, m, t) && row[m].dist.Some?
    && Below(row[m].dist.value + W(c, m, t), row[t].dist)
  }

  function Through(c: Matrix, row: Row, m: nat, t: nat): Entry
    requires m < |row| && t < |row| && row[m].dist.Some?
  {
    Entry(Some(row[m].dist.value + W(c, m, t)), m, row[t].visited)
  }

  /** row2 is row after relaxing every edge leaving m. */
  predicate RelaxedFrom(c: Matrix, n: nat, row: Row, row2: Row, m: nat)
  {
    && |row2| == |row| && m < n <= |row|
    && forall t :: 0 <= t < |row| ==> row2[t] == (if t < n && Improves(c, row, m, t) then Through(c, row, m, t) else row[t])
  }

  /** The relaxation loop over every `to` for the selected node `from`. */
  method Relax(c: Matrix, n: nat, row: Row, from: nat) returns (row2: Row)
    requires Covers(c, n) && from < n <= |row| && row[from].dist.Some?
    ensures RelaxedFrom(c, n, row, row2, from)
    ensures forall t :: 0 <= t < n ==> NoWorse(row2[t].dist, row[t].dist) && row2[t].visited == row[t].visited
  {
    row2 := row;
    var to := 0;
    while to < n
      invariant 0 <= to <= n && |row2| == |row|
      invariant forall t :: 0 <= t < |row| ==> row2[t] == (if t < to && Improves(c, row, from, t) then Through(c, row, from, t) else row[t])
    {
      if from != to && c[from][to].Some? && !row2[to].visited {
        var newCost := row2[from].dist.value + c[from][to].value;
        if Below(newCost, row2[to].dist) {
          row2 := row2[to := Entry(Some(newCost), from, row2[to].visited)];
        }
      }
      to := to + 1;
    }
  }

  // ---------------------------------------------------------------------
  // The loop invariant of one source's pass
  // ---------------------------------------------------------------------

  function VisitedSet(row: Row, n: nat): set<nat>
    requires n <= |row|
  {
    set v: nat | v < n && row[v].visited
  }

  ghost predicate Shape(c: Matrix, n: nat, s: nat, row: Row, rank: seq<nat>, i: nat)
  {
    Covers(c, n) && s < n && n <= |row| && |rank| == |row| && i <= n
  }

  /** The source sits at distance 0; before the first step nothing else
      has a distance; after it the source was the first node visited. */
  ghost predicate Started(n: nat, s: nat, row: Row, rank: seq<nat>, i: nat)
    requires s < n <= |row| && |rank| == |row|
  {
    && row[s].dist == Some(0)
    && (i == 0 ==> forall v :: 0 <= v < n ==> !row[v].visited && (v != s ==> row[v].dist.None?))
    && (i > 0 ==> row[s].visited && rank[s] == 0)
  }

  /** Visited nodes carry their final, minimal distance. */
  ghost predicate Finalised(c: Matrix, n: nat, s: nat, row: Row, rank: seq<nat>, i: nat)
    requires n <= |row| && |rank| == |row|
  {
    forall v :: 0 <= v < n && row[v].visited ==>
      row[v].dist.Some? && rank[v] < i && NoShorterWalk(c, n, s, v, row[v].dist.value)
  }

  /** Every edge from a visited node into an unvisited one has been relaxed. */
  ghost predicate Frontier(c: Matrix, n: nat, row: Row)
    requires n <= |row|
  {
    forall u, v :: 0 <= u < n && 0 <= v < n && row[u].visited && !row[v].visited && Edge(c, u, v) ==>
      row[u].dist.Some? && row[v].dist.Some? && row[v].dist.value <= row[u].dist.value + W(c, u, v)
  }

  /** No visited node is farther than any candidate. */
  ghost predicate Layered(n: nat, row: Row)
    requires n <= |row|
  {
    forall u, v :: 0 <= u < n && 0 <= v < n && row[u].visited && Candidate(row, v) ==>
      row[u].dist.Some? && row[u].dist.value <= row[v].dist.value
  }

  /** v's predecessor is a visited node whose edge into v accounts exactly
      for v's distance, and it was visited before v. */
  ghost predicate PredOk(c: Matrix, n: nat, row: Row, rank: seq<nat>, v: nat)
    requires v < |row| && |rank| == |row|
  {
    var u := row[v].path;
    && u < n && u < |row| && row[u].visited && row[u].dist.Some? && row[v].dist.Some? && Edge(c, u, v)
    && row[v].dist.value == row[u].dist.value + W(c, u, v)
    && (row[v].visited ==> rank[u] < rank[v])
  }

  ghost predicate Linked(c: Matrix, n: nat, s: nat, row: Row, rank: seq<nat>)
    requires n <= |row| && |rank| == |row|
  {
    forall v {:trigger PredOk(c, n, row, rank, v)} :: 0 <= v < n && v != s && row[v].dist.Some? ==> PredOk(c, n, row, rank, v)
  }

  ghost predicate Inv(c: Matrix, n: nat, s: nat, row: Row, rank: seq<nat>, i: nat)
  {
    && Shape(c, n, s, row, rank, i)
    && Started(n, s, row, rank, i)
    && Finalised(c, n, s, row, rank, i)
    && Frontier(c, n, row)
    && Layered(n, row)
    && Linked(c, n, s, row, rank)
    && |VisitedSet(row, n)| == i
  }

  function Mark(row: Row, m: nat): Row
    requires m < |row|
  {
    row[m := row[m].(visited := true)]
  }

  /** One step of the pass from a state satisfying the invariant. */
  ghost predicate StepFrom(c: Matrix, n: nat, s: nat, row: Row, rank: seq<nat>, i: nat, m: nat, row2: Row)
  {
    && Inv(c, n, s, row, rank, i) && i < n && IsCheapest(row, n, m)
    && RelaxedFrom(c, n, Mark(row, m), row2, m)
  }

  // ---------------------------------------------------------------------
  // Reference definitions: what a completed row promises
  // ---------------------------------------------------------------------

  /** Follow predecessors from v back to s, taking at most `fuel` steps; the
      route comes out in source-to-destination order. */
  function Unwind(row: Row, s: nat, v: nat, fuel: nat): (r: Option<seq<nat>>)
    ensures r.Some? ==> |r.value| >= 1 && r.value[0] == s && Last(r.value) == v && |r.value| <= fuel + 1
    ensures r.Some? ==> forall k :: 1 <= k < |r.value| ==> r.value[k] < |row| && row[r.value[k]].path == r.value[k - 1]
    decreases fuel
  {
    if v == s then Some([s])
    else if fuel == 0 || v >= |row| then None
    else match Unwind(row, s, row[v].path, fuel - 1)
      case None => None
      case Some(q) => Some(q + [v])
  }

  /** The predecessor chain of v spells out a walk from s whose weight is
      v's distance and which visits no node twice. */
  ghost predicate Routed(c: Matrix, n: nat, s: nat, row: Row, v: nat)
    requires v < |row| && row[v].dist.Some?
  {
    var p := Unwind(row, s, v, n);
    && p.Some? && IsWalk(c, n, s, p.value) && Last(p.value) == v
    && Weight(c, p.value) == row[v].dist.value
    && forall a, b :: 0 <= a < b < |p.value| ==> p.value[a] != p.value[b]
  }

  /** In a correct row every finite distance has a route. */
  lemma RowRoutes(c: Matrix, n: nat, s: nat, row: Row, v: nat)
    requires RowCorrect(c, n, s, row) && v < n && row[v].dist.Some?
    ensures Unwind(row, s, v, n).Some?
  {
    assert Routed(c, n, s, row, v);
  }

  /** A correct row for source s: distance 0 at s; NOPATH exactly for the
      nodes no walk reaches; otherwise the minimal walk weight, realised by
      the predecessor chain. */
  ghost predicate RowCorrect(c: Matrix, n: nat, s: nat, row: Row)
  {
    && n <= |row| && s < n && row[s].dist == Some(0)
    && forall v :: 0 <= v < n ==>
         && (row[v].dist.None? ==> !Reachable(c, n, s, v))
         && (row[v].dist.Some? ==> NoShorterWalk(c, n, s, v, row[v].dist.value) && Routed(c, n, s, row, v))
  }

  // ---------------------------------------------------------------------
  // The pass for one source
  // ---------------------------------------------------------------------

  /** What any pass, fresh or not, does to a row: only the first n entries
      change, the source keeps distance 0, no distance gets worse, nothing
      becomes unvisited, and a predecessor is only rewritten for a node
      other than the source that ends with a finite distance. */
  predicate Progress(n: nat, s: nat, row0: Row, row: Row)
  {
    && |row| == |row0| && s < n <= |row|
    && (forall t :: n <= t < |row| ==> row[t] == row0[t])
    && row[s].dist == Some(0)
    && (forall v :: 0 <= v < n ==> NoWorse(row[v].dist, row0[v].dist))
    && (forall v :: 0 <= v < n && row0[v].visited ==> row[v].visited)
    && (forall v :: 0 <= v < n && row[v].path != row0[v].path ==> v != s && row[v].dist.Some?)
  }

  /** One iteration of the outer loop of findShortestPath for source s:
      set dist[s] to 0, then select-and-relax at most n times. The row is not
      reset first, as in the C++. The pass stops once the scan selects
      nothing, where the C++ goes on with an uninitialised `from`. From a
      fresh row the result is correct; from a settled row (a completed
      earlier pass) the scan selects nothing at once and nothing changes. */
  method RunSource(c: Matrix, n: nat, s: nat, row0: Row) returns (row: Row)
    requires Covers(c, n) && s < n && n <= |row0|
    ensures Progress(n, s, row0, row)
    ensures Fresh(row0, n) ==> RowCorrect(c, n, s, row) && Settled(row, n, s)
    ensures Settled(row0, n, s) ==> row == row0[s := row0[s].(dist := Some(0))]
  {
    row := row0[s := row0[s].(dist := Some(0))];
    ghost var rank: seq<nat> := seq(|row|, _ => 0);
    assert Fresh(row0, n) ==> VisitedSet(row, n) == {};
    var i := 0;
    var done := false;
    while i < n && !done
      invariant i <= n && |rank| == |row|
      invariant Progress(n, s, row0, row)
      invariant done ==> forall v :: 0 <= v < n ==> !Candidate(row, v)
      invariant Fresh(row0, n) ==> Inv(c, n, s, row, rank, i)
      invariant Settled(row0, n, s) ==> row == row0[s := row0[s].(dist := Some(0))]
      decreases n - i, if done then 0 else 1
    {
      var m := Cheapest(row, n);
      if m.None? {
        done := true;
      } else {
        var from := m.value;
        var relaxed := Relax(c, n, Mark(row, from), from);
        ProgressStep(c, n, s, row0, row, from, relaxed);
        if Fresh(row0, n) {
          Step(c, n, s, row, rank, i, from, relaxed);
        }
        rank := rank[from := i];
        row := relaxed;
        i := i + 1;
      }
    }
    if Fresh(row0, n) {
      if !done {
        AllVisited(row, n);
      }
      Finish(c, n, s, row, rank, i);
    }
  }

  // ---------------------------------------------------------------------
  // Proof of the pass
  // ---------------------------------------------------------------------

  /** Every walk to a node not yet visited is at least as heavy as the
      candidate the scan picks: the heart of Dijkstra's argument. */
  lemma {:induction false} UnvisitedWalkBound(c: Matrix, n: nat, s: nat, row: Row, rank: seq<nat>, i: nat, m: nat, p: seq<nat>)
    requires Shape(c, n, s, row, rank, i) && row[s].dist == Some(0)
    requires Finalised(c, n, s, row, rank, i) && Frontier(c, n, row) && IsCheapest(row, n, m)
    requires IsWalk(c, n, s, p) && !row[Last(p)].visited
    ensures Weight(c, p) >= row[m].dist.value
    decreases |p|
  {
    if |p| == 1 {
      assert Candidate(row, s);
    } else {
      var q := p[..|p| - 1];
      WalkPrefix(c, n, s, p);
      var y, x := Last(q), Last(p);
      if row[y].visited {
        assert Weight(c, q) >= row[y].dist.value;
        assert Candidate(row, x);
      } else {
        UnvisitedWalkBound(c, n, s, row, rank, i, m, q);
      }
    }
  }

  lemma StepShape(c: Matrix, n: nat, s: nat, row: Row, rank: seq<nat>, i: nat, m: nat, row2: Row)
    requires StepFrom(c, n, s, row, rank, i, m, row2)
    ensures Shape(c, n, s, row2, rank[m := i], i + 1)
    ensures Started(n, s, row2, rank[m := i], i + 1)
    ensures |VisitedSet(row2, n)| == i + 1
  {
    var marked := Mark(row, m);
    assert row2[s] == marked[s];
    if i == 0 {
      assert Candidate(row, s);
    }
    assert VisitedSet(row2, n) == VisitedSet(row, n) + {m} by {
      forall t | 0 <= t < n
        ensures row2[t].visited == (row[t].visited || t == m)
      {
        assert row2[t].visited == marked[t].visited;
      }
    }
  }

  lemma StepFinalised(c: Matrix, n: nat, s: nat, row: Row, rank: seq<nat>, i: nat, m: nat, row2: Row)
    requires StepFrom(c, n, s, row, rank, i, m, row2)
    ensures Finalised(c, n, s, row2, rank[m := i], i + 1)
  {
    var marked := Mark(row, m);
    forall v | 0 <= v < n && row2[v].visited
      ensures row2[v].dist.Some? && rank[m := i][v] < i + 1 && NoShorterWalk(c, n, s, v, row2[v].dist.value)
    {
      assert row2[v] == marked[v];
      if v == m {
        forall p | IsWalk(c, n, s, p) && Last(p) == v
          ensures Weight(c, p) >= row2[v].dist.value
        {
          UnvisitedWalkBound(c, n, s, row, rank, i, m, p);
        }
      }
    }
  }

  lemma StepFrontier(c: Matrix, n: nat, s: nat, row: Row, rank: seq<nat>, i: nat, m: nat, row2: Row)
    requires StepFrom(c, n, s, row, rank, i, m, row2)
    ensures Frontier(c, n, row2)
  {
    var marked := Mark(row, m);
    forall u, v | 0 <= u < n && 0 <= v < n && row2[u].visited && !row2[v].visited && Edge(c, u, v)
      ensures row2[u].dist.Some? && row2[v].dist.Some? && row2[v].dist.value <= row2[u].dist.value + W(c, u, v)
    {
      assert row2[u] == marked[u];
      assert v != m && marked[v] == row[v];
      if u != m {
        assert row[u].visited && !row[v].visited;
      }
    }
  }

  lemma StepLayered(c: Matrix, n: nat, s: nat, row: Row, rank: seq<nat>, i: nat, m: nat, row2: Row)
    requires StepFrom(c, n, s, row, rank, i, m, row2)
    ensures Layered(n, row2)
  {
    var marked := Mark(row, m);
    forall u, v | 0 <= u < n && 0 <= v < n && row2[u].visited && Candidate(row2, v)
      ensures row2[u].dist.Some? && row2[u].dist.value <= row2[v].dist.value
    {
      assert row2[u] == marked[u];
      assert v != m && marked[v] == row[v];
      if !Improves(c, marked, m, v) {
        assert Candidate(row, v);
      }
      if u != m {
        assert row[u].visited;
        assert row[u].dist.value <= row[m].dist.value by {
          assert Candidate(row, m);
        }
      }
    }
  }

  lemma StepLinked(c: Matrix, n: nat, s: nat, row: Row, rank: seq<nat>, i: nat, m: nat, row2: Row)
    requires StepFrom(c, n, s, row, rank, i, m, row2)
    ensures Linked(c, n, s, row2, rank[m := i])
  {
    var marked := Mark(row, m);
    var rank2 := rank[m := i];
    forall v | 0 <= v < n && v != s && row2[v].dist.Some?
      ensures PredOk(c, n, row2, rank2, v)
    {
      if v < n && Improves(c, marked, m, v) {
        assert row2[v] == Through(c, marked, m, v);
        assert row2[m] == marked[m];
      } else {
        assert row2[v] == marked[v];
        assert PredOk(c, n, row, rank, v);
        var u := row[v].path;
        assert row2[u] == marked[u];
        assert u != m;
      }
    }
  }

  /** A select-and-relax step keeps the facts every pass maintains. */
  lemma ProgressStep(c: Matrix, n: nat, s: nat, row0: Row, row: Row, m: nat, row2: Row)
    requires Progress(n, s, row0, row) && m < n && Candidate(row, m)
    requires RelaxedFrom(c, n, Mark(row, m), row2, m)
    ensures Progress(n, s, row0, row2)
  {
    var marked := Mark(row, m);
    forall v | 0 <= v < n
      ensures NoWorse(row2[v].dist, row0[v].dist) && (row[v].visited ==> row2[v].visited)
      ensures row2[v].path != row0[v].path ==> v != s && row2[v].dist.Some?
    {
      assert marked[v].dist == row[v].dist && marked[v].path == row[v].path;
    }
  }

  /** Selecting the cheapest candidate and relaxing its edges preserves the
      invariant and counts one more visited node. */
  lemma Step(c: Matrix, n: nat, s: nat, row: Row, rank: seq<nat>, i: nat, m: nat, row2: Row)
    requires Inv(c, n, s, row, rank, i) && i < n && IsCheapest(row, n, m)
    requires RelaxedFrom(c, n, Mark(row, m), row2, m)
    ensures Inv(c, n, s, row2, rank[m := i], i + 1)
  {
    StepShape(c, n, s, row, rank, i, m, row2);
    StepFinalised(c, n, s, row, rank, i, m, row2);
    StepFrontier(c, n, s, row, rank, i, m, row2);
    StepLayered(c, n, s, row, rank, i, m, row2);
    StepLinked(c, n, s, row, rank, i, m, row2);
  }

  lemma {:induction false} SubsetCard<T>(a: set<T>, b: set<T>)
    requires a <= b
    ensures |a| <= |b|
    decreases |b|
  {
    if a != {} {
      var x :| x in a;
      SubsetCard(a - {x}, b - {x});
    }
  }

  function Range(n: nat): (r: set<nat>)
    ensures forall v: nat :: v in r <==> v < n
    ensures |r| == n
  {
    if n == 0 then {} else Range(n - 1) + {n - 1}
  }

  /** Once n nodes have been counted as visited, every node is visited. */
  lemma AllVisited(row: Row, n: nat)
    requires n <= |row| && |VisitedSet(row, n)| == n
    ensures forall v :: 0 <= v < n ==> row[v].visited
  {
    forall v | 0 <= v < n
      ensures row[v].visited
    {
      if !row[v].visited {
        SubsetCard(VisitedSet(row, n), Range(n) - {v});
      }
    }
  }

  /** With no candidate left, every node a walk reaches has been visited. */
  lemma {:induction false} WalkEndsVisited(c: Matrix, n: nat, s: nat, row: Row, rank: seq<nat>, i: nat, p: seq<nat>)
    requires Shape(c, n, s, row, rank, i) && row[s].dist == Some(0) && Frontier(c, n, row)
    requires forall v :: 0 <= v < n ==> !Candidate(row, v)
    requires IsWalk(c, n, s, p)
    ensures row[Last(p)].visited
    decreases |p|
  {
    if |p| == 1 {
      assert !Candidate(row, s);
    } else {
      var q := p[..|p| - 1];
      WalkPrefix(c, n, s, p);
      WalkEndsVisited(c, n, s, row, rank, i, q);
      assert !Candidate(row, Last(p));
    }
  }

  /** The predecessor chain of a visited node is a walk realising its
      distance, with visiting steps strictly increasing along it. */
  lemma {:induction false} UnwindRoute(c: Matrix, n: nat, s: nat, row: Row, rank: seq<nat>, i: nat, v: nat, fuel: nat)
    requires Shape(c, n, s, row, rank, i) && row[s].dist == Some(0) && Linked(c, n, s, row, rank)
    requires v < n && row[v].visited && row[v].dist.Some? && rank[v] <= fuel
    ensures Unwind(row, s, v, fuel).Some?
    ensures var p := Unwind(row, s, v, fuel).value;
      && IsWalk(c, n, s, p) && Last(p) == v && Weight(c, p) == row[v].dist.value
      && RankIncreasing(rank, p)
    decreases fuel
  {
    if v == s {
      assert Unwind(row, s, v, fuel) == Some([s]);
    } else {
      assert PredOk(c, n, row, rank, v);
      var u := row[v].path;
      assert u < n && row[u].visited && row[u].dist.Some? && rank[u] < rank[v];
      UnwindRoute(c, n, s, row, rank, i, u, fuel - 1);
      var q := Unwind(row, s, u, fuel - 1).value;
      UnwindStep(row, s, v, fuel);
      RouteExtend(c, n, s, rank, q, u, v, row[u].dist.value, row[v].dist.value);
    }
  }

  /** Appending an edge that accounts exactly for the next distance, to a
      node visited later, extends a route of the same kind. */
  lemma RouteExtend(c: Matrix, n: nat, s: nat, rank: seq<nat>, q: seq<nat>, u: nat, v: nat, du: nat, dv: nat)
    requires IsWalk(c, n, s, q) && Last(q) == u && Weight(c, q) == du && RankIncreasing(rank, q)
    requires v < n && Edge(c, u, v) && dv == du + W(c, u, v)
    requires u < |rank| && v < |rank| && rank[u] < rank[v]
    ensures IsWalk(c, n, s, q + [v]) && Last(q + [v]) == v && Weight(c, q + [v]) == dv
    ensures RankIncreasing(rank, q + [v])
  {
    WalkExtend(c, n, s, q, v);
    RanksExtend(rank, q, v);
  }

  /** One step of the unwinding: the route to v is the route to its
      predecessor followed by v. */
  lemma UnwindStep(row: Row, s: nat, v: nat, fuel: nat)
    requires v != s && fuel > 0 && v < |row| && Unwind(row, s, row[v].path, fuel - 1).Some?
    ensures Unwind(row, s, v, fuel) == Some(Unwind(row, s, row[v].path, fuel - 1).value + [v])
  {
  }

  /** The nodes of p were visited in strictly increasing order. */
  ghost predicate RankIncreasing(rank: seq<nat>, p: seq<nat>)
  {
    forall a, b :: 0 <= a < b < |p| ==> p[a] < |rank| && p[b] < |rank| && rank[p[a]] < rank[p[b]]
  }

  lemma RanksExtend(rank: seq<nat>, q: seq<nat>, v: nat)
    requires |q| >= 1 && v < |rank| && Last(q) < |rank|
    requires RankIncreasing(rank, q) && rank[Last(q)] < rank[v]
    ensures RankIncreasing(rank, q + [v])
  {
    var p := q + [v];
    forall a, b | 0 <= a < b < |p|
      ensures p[a] < |rank| && p[b] < |rank| && rank[p[a]] < rank[p[b]]
    {
      if b == |q| && a < |q| - 1 {
        assert rank[q[a]] < rank[q[|q| - 1]];
      }
    }
  }

  /** A pass that has run out of candidates (or steps) leaves a correct,
      settled row. */
  lemma Finish(c: Matrix, n: nat, s: nat, row: Row, rank: seq<nat>, i: nat)
    requires Inv(c, n, s, row, rank, i)
    requires forall v :: 0 <= v < n ==> !Candidate(row, v)
    ensures RowCorrect(c, n, s, row) && Settled(row, n, s)
  {
    assert !Candidate(row, s);
    assert Settled(row, n, s) by {
      forall v | 0 <= v < n && !row[v].visited
        ensures row[v].dist.None?
      {
        assert !Candidate(row, v);
      }
    }
    forall v | 0 <= v < n
      ensures row[v].dist.None? ==> !Reachable(c, n, s, v)
      ensures row[v].dist.Some? ==> NoShorterWalk(c, n, s, v, row[v].dist.value) && Routed(c, n, s, row, v)
    {
      FinishNode(c, n, s, row, rank, i, v);
    }
  }

  lemma FinishNode(c: Matrix, n: nat, s: nat, row: Row, rank: seq<nat>, i: nat, v: nat)
    requires Inv(c, n, s, row, rank, i) && v < n
    requires forall v :: 0 <= v < n ==> !Candidate(row, v)
    ensures row[v].dist.None? ==> !Reachable(c, n, s, v)
    ensures row[v].dist.Some? ==> NoShorterWalk(c, n, s, v, row[v].dist.value) && Routed(c, n, s, row, v)
  {
    forall p | IsWalk(c, n, s, p) && Last(p) == v
      ensures row[v].visited
    {
      WalkEndsVisited(c, n, s, row, rank, i, p);
    }
    if row[v].dist.Some? {
      assert !Candidate(row, v);
      UnwindRoute(c, n, s, row, rank, i, v, n);
    }
  }
}
