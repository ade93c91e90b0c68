/**
 * Walks through a cost matrix (Assignment3/graphm.cpp).
 *
 * cost[from][to] is the weight of the directed edge from `from` to `to`,
 * None where the matrix holds NOPATH. The shortest-path pass ignores
 * self-loops, so an edge here always joins two different nodes. These are
 * the reference definitions the shortest-path tables are judged against.
 */
module Walks {
  import opened Options

  type Matrix = seq<seq<Option<nat>>>

  /** The matrix has at least n rows and every one of the first n rows
      has at least n entries. */
  predicate Covers(c: Matrix, n: nat)
  {
    |c| >= n && forall i :: 0 <= i < n ==> |c[i]| >= n
  }

  /** An edge the pass can follow: a real weight between two different nodes. */
  predicate Edge(c: Matrix, u: nat, v: nat)
  {
    u < |c| && v < |c[u]| && u != v && c[u][v].Some?
  }

  function W(c: Matrix, u: nat, v: nat): nat
  {
    if Edge(c, u, v) then c[u][v].value else 0
  }

  function Last(p: seq<nat>): nat
    requires |p| >= 1
  {
    p[|p| - 1]
  }

  /** p is a walk from s through nodes below n along edges of c. */
  predicate IsWalk(c: Matrix, n: nat, s: nat, p: seq<nat>)
  {
    && |p| >= 1 && p[0] == s
    && (forall i :: 0 <= i < |p| ==> p[i] < n)
    && (forall i :: 0 <= i < |p| - 1 ==> Edge(c, p[i], p[i + 1]))
  }

  /** The total edge weight along p. */
  function Weight(c: Matrix, p: seq<nat>): nat
    decreases |p|
  {
    if |p| <= 1 then 0 else Weight(c, p[..|p| - 1]) + W(c, p[|p| - 2], p[|p| - 1])
  }

  ghost predicate Reachable(c: Matrix, n: nat, s: nat, v: nat)
  {
    exists p :: IsWalk(c, n, s, p) && Last(p) == v
  }

  /** d is a lower bound on the weight of every walk from s to v. */
  ghost predicate NoShorterWalk(c: Matrix, n: nat, s: nat, v: nat, d: nat)
  {
    forall p :: IsWalk(c, n, s, p) && Last(p) == v ==> Weight(c, p) >= d
  }

  /** Every edge of c is an edge of c2 and weighs no more there. */
  predicate Cheaper(c2: Matrix, c: Matrix, n: nat)
  {
    forall u, v :: 0 <= u < n && 0 <= v < n && Edge(c, u, v) ==> Edge(c2, u, v) && W(c2, u, v) <= W(c, u, v)
  }

  lemma FirstEdge(c: Matrix, n: nat, s: nat, p: seq<nat>)
    requires IsWalk(c, n, s, p) && |p| >= 2
    ensures p[1] < n && Edge(c, s, p[1])
  {
    assert Edge(c, p[0], p[1]);
  }

  lemma WalkPrefix(c: Matrix, n: nat, s: nat, p: seq<nat>)
    requires IsWalk(c, n, s, p) && |p| >= 2
    ensures IsWalk(c, n, s, p[..|p| - 1])
    ensures Edge(c, Last(p[..|p| - 1]), Last(p))
    ensures Weight(c, p) == Weight(c, p[..|p| - 1]) + W(c, Last(p[..|p| - 1]), Last(p))
  {
    var q := p[..|p| - 1];
    assert forall i :: 0 <= i < |q| ==> q[i] == p[i];
    assert Edge(c, p[|p| - 2], p[|p| - 1]);
  }

  lemma WalkExtend(c: Matrix, n: nat, s: nat, q: seq<nat>, v: nat)
    requires IsWalk(c, n, s, q) && v < n && Edge(c, Last(q), v)
    ensures IsWalk(c, n, s, q + [v]) && Last(q + [v]) == v
    ensures Weight(c, q + [v]) == Weight(c, q) + W(c, Last(q), v)
  {
    var p := q + [v];
    assert p[..|p| - 1] == q;
    forall i | 0 <= i < |p| - 1
      ensures Edge(c, p[i], p[i + 1])
    {
      if i < |q| - 1 {
        assert p[i] == q[i] && p[i + 1] == q[i + 1];
      }
    }
  }

  /** A potential for s: h[s] = 0 and no edge overshoots it
      (h[v] <= h[u] + w). */
  predicate IsPotential(c: Matrix, n: nat, s: nat, h: seq<nat>)
  {
    && n <= |h| && s < n && h[s] == 0
    && forall u, v :: 0 <= u < n && 0 <= v < n && Edge(c, u, v) ==> h[v] <= h[u] + W(c, u, v)
  }

  /** A potential bounds every walk from s from below: the certificate that
      a distance is minimal. */
  lemma {:induction false} PotentialBound(c: Matrix, n: nat, s: nat, h: seq<nat>, p: seq<nat>)
    requires IsPotential(c, n, s, h)
    requires IsWalk(c, n, s, p)
    ensures Weight(c, p) >= h[Last(p)]
    decreases |p|
  {
    if |p| >= 2 {
      WalkPrefix(c, n, s, p);
      PotentialBound(c, n, s, h, p[..|p| - 1]);
    }
  }

  /** A walk stays a walk, and gets no heavier, when edges are added or
      made cheaper. */
  lemma {:induction false} WalkInCheaper(c2: Matrix, c: Matrix, n: nat, s: nat, p: seq<nat>)
    requires Cheaper(c2, c, n) && IsWalk(c, n, s, p)
    ensures IsWalk(c2, n, s, p) && Weight(c2, p) <= Weight(c, p)
    decreases |p|
  {
    if |p| >= 2 {
      var q := p[..|p| - 1];
      var u, v := Last(q), Last(p);
      assert q + [v] == p;
      WalkPrefix(c, n, s, p);
      WalkInCheaper(c2, c, n, s, q);
      assert u < n && v < n;
      assert Edge(c2, u, v) && W(c2, u, v) <= W(c, u, v);
      WalkExtend(c2, n, s, q, v);
    }
  }
}
