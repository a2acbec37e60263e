/**
 * Degree and reachability over an undirected graph, given as the set of
 * ordered pairs (i, j) whose adjacency-matrix cell is set.
 */
module Paths {

  type Edge = (int, int)

  /** The number of set cells (v, 0) .. (v, n - 1) in row v. */
  function RowCount(E: set<Edge>, v: int, n: nat): (c: nat)
    ensures c <= n
  {
    if n == 0 then 0 else RowCount(E, v, n - 1) + (if (v, n - 1) in E then 1 else 0)
  }

  /** A vertex's degree as the graph's counters keep it: one per set cell in its
      row, and one more for a self-loop (both endpoints of (v, v) are counted). */
  function Degree(E: set<Edge>, v: int, n: nat): nat
  {
    RowCount(E, v, n) + (if (v, v) in E then 1 else 0)
  }

  /** A row with no set cell counts zero. */
  lemma {:induction false} RowCountEmpty(E: set<Edge>, v: int, n: nat)
    requires forall w :: (v, w) !in E
    ensures RowCount(E, v, n) == 0
  {
    if n > 0 {
      RowCountEmpty(E, v, n - 1);
    }
  }

  /** Adding the cells (a, b) and (b, a) adds one to row a (column b) and one to
      row b (column a), or a single cell when a == b. */
  lemma {:induction false} RowCountAfterInsert(E: set<Edge>, a: int, b: int, v: int, n: nat)
    requires (a, b) !in E && (b, a) !in E
    ensures RowCount(E + {(a, b), (b, a)}, v, n)
            == RowCount(E, v, n) + (if v == a && 0 <= b < n then 1 else 0)
               + (if v == b && a != b && 0 <= a < n then 1 else 0)
  {
    if n > 0 {
      RowCountAfterInsert(E, a, b, v, n - 1);
    }
  }

  /** Adding a new undirected edge between two of the first n vertices raises the
      degree of each endpoint by one (a self-loop by two) and leaves every other
      degree alone. */
  lemma DegreeAfterInsert(E: set<Edge>, a: int, b: int, v: int, n: nat)
    requires (a, b) !in E && (b, a) !in E && 0 <= a < n && 0 <= b < n
    ensures Degree(E + {(a, b), (b, a)}, v, n)
            == Degree(E, v, n) + (if v == a then 1 else 0) + (if v == b then 1 else 0)
  {
    RowCountAfterInsert(E, a, b, v, n);
  }

  /** Every degree after adding a new undirected edge. */
  lemma DegreesAfterInsert(E: set<Edge>, a: int, b: int, n: nat)
    requires (a, b) !in E && (b, a) !in E && 0 <= a < n && 0 <= b < n
    ensures forall v ::
      Degree(E + {(a, b), (b, a)}, v, n) == Degree(E, v, n) + (if v == a then 1 else 0) + (if v == b then 1 else 0)
  {
    forall v {
      DegreeAfterInsert(E, a, b, v, n);
    }
  }

  /** Inserting a symmetric edge from `a` to another vertex raises a's degree by at most one. */
  lemma DegreeStep(E: set<Edge>, a: int, b: int, n: nat)
    requires 0 <= a < n && 0 <= b < n && a != b && ((a, b) in E <==> (b, a) in E)
    ensures Degree(E, a, n) <= Degree(E + {(a, b), (b, a)}, a, n) <= Degree(E, a, n) + 1
  {
    if (a, b) in E {
      assert E + {(a, b), (b, a)} == E;
    } else {
      DegreeAfterInsert(E, a, b, a, n);
    }
  }

  /** Every edge joins two of the vertices 0..n-1 and comes with its reverse. */
  ghost predicate EdgesWithin(E: set<Edge>, n: int)
  {
    && (forall i, j :: (i, j) in E ==> 0 <= i < n && 0 <= j < n)
    && (forall i, j :: (i, j) in E ==> (j, i) in E)
  }

  lemma InsertKeepsEdgesWithin(E: set<Edge>, a: int, b: int, n: int)
    requires EdgesWithin(E, n) && 0 <= a < n && 0 <= b < n
    ensures EdgesWithin(E + {(a, b), (b, a)}, n)
  {
  }

  ghost predicate IsPath(E: set<Edge>, p: seq<int>)
  {
    |p| > 0 && forall k :: 0 < k < |p| ==> (p[k - 1], p[k]) in E
  }

  /** There is a walk from u to v along edges of E. */
  ghost predicate Reachable(E: set<Edge>, u: int, v: int)
  {
    exists p :: IsPath(E, p) && p[0] == u && p[|p| - 1] == v
  }

  /** Every vertex 0..n-1 is reachable from `root`. */
  ghost predicate ConnectedFrom(E: set<Edge>, root: int, n: int)
  {
    forall v :: 0 <= v < n ==> Reachable(E, root, v)
  }

  lemma ReachableRefl(E: set<Edge>, u: int)
    ensures Reachable(E, u, u)
  {
    assert IsPath(E, [u]);
  }

  lemma ReachableStep(E: set<Edge>, u: int, v: int, w: int)
    requires Reachable(E, u, v) && (v, w) in E
    ensures Reachable(E, u, w)
  {
    var p :| IsPath(E, p) && p[0] == u && p[|p| - 1] == v;
    var q := p + [w];
    assert q[..|p|] == p;
    assert IsPath(E, q);
  }

  /** Adding edges never breaks a walk. */
  lemma ReachableMono(E: set<Edge>, E': set<Edge>, u: int, v: int)
    requires E <= E' && Reachable(E, u, v)
    ensures Reachable(E', u, v)
  {
    var p :| IsPath(E, p) && p[0] == u && p[|p| - 1] == v;
    assert IsPath(E', p);
  }

  /** A set that holds u and is closed under following edges holds everything reachable from u. */
  lemma ClosedSetHoldsReachable(E: set<Edge>, S: set<int>, u: int, v: int)
    requires u in S
    requires forall x, y :: x in S && (x, y) in E ==> y in S
    requires Reachable(E, u, v)
    ensures v in S
  {
    var p :| IsPath(E, p) && p[0] == u && p[|p| - 1] == v;
    PathStaysInClosedSet(E, S, p, |p| - 1);
  }

  lemma {:induction false} PathStaysInClosedSet(E: set<Edge>, S: set<int>, p: seq<int>, k: nat)
    requires IsPath(E, p) && p[0] in S && k < |p|
    requires forall x, y :: x in S && (x, y) in E ==> y in S
    ensures p[k] in S
  {
    if k > 0 {
      PathStaysInClosedSet(E, S, p, k - 1);
      assert (p[k - 1], p[k]) in E;
    }
  }
}
