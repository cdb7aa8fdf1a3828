/** Weighted graphs given as an adjacency matrix, the paths in them and the weight of a path.
    An entry of 0 says that there is no edge. */
module Graphs {

  type Matrix = seq<seq<int>>

  predicate IsSquare(g: Matrix) {
    forall i | 0 <= i < |g| :: |g[i]| == |g|
  }

  /** An undirected graph: symmetric, no self-edges, and every edge has a positive weight. */
  predicate IsUndirected(g: Matrix) {
    && IsSquare(g)
    && (forall i, j | 0 <= i < |g| && 0 <= j < |g| :: 0 <= g[i][j])
    && (forall i, j | 0 <= i < |g| && 0 <= j < |g| :: g[i][j] == g[j][i])
    && (forall i | 0 <= i < |g| :: g[i][i] == 0)
  }

  predicate WeightsAtMost(g: Matrix, maxWeight: int)
    requires IsSquare(g)
  {
    forall i, j | 0 <= i < |g| && 0 <= j < |g| :: g[i][j] <= maxWeight
  }

  predicate IsEdge(g: Matrix, a: int, b: int)
    requires IsSquare(g)
  {
    0 <= a < |g| && 0 <= b < |g| && g[a][b] != 0
  }

  predicate InRange(p: seq<int>, n: int) {
    forall i | 0 <= i < |p| :: 0 <= p[i] < n
  }

  predicate IsPath(g: Matrix, p: seq<int>)
    requires IsSquare(g)
  {
    && |p| > 0
    && InRange(p, |g|)
    && forall i | 0 < i < |p| :: IsEdge(g, p[i - 1], p[i])
  }

  predicate IsPathBetween(g: Matrix, p: seq<int>, a: int, b: int)
    requires IsSquare(g)
  {
    IsPath(g, p) && p[0] == a && p[|p| - 1] == b
  }

  ghost predicate Reachable(g: Matrix, a: int, b: int)
    requires IsSquare(g)
  {
    exists p :: IsPathBetween(g, p, a, b)
  }

  /** The sum of the weights of the edges along p. */
  function PathWeight(g: Matrix, p: seq<int>): int
    requires IsSquare(g) && IsPath(g, p)
  {
    if |p| == 1 then 0
    else PathWeight(g, p[..|p| - 1]) + EdgeWeight(g, p[|p| - 2], p[|p| - 1])
  }

  function EdgeWeight(g: Matrix, a: int, b: int): int
    requires IsSquare(g) && 0 <= a < |g| && 0 <= b < |g|
  {
    g[a][b]
  }

  predicate NoDuplicates<T(==)>(s: seq<T>) {
    forall i, j | 0 <= i < j < |s| :: s[i] != s[j]
  }

  /** An edge cannot lower the potential by more than its weight. */
  ghost predicate Feasible(g: Matrix, potential: seq<int>)
    requires IsSquare(g) && |potential| == |g|
  {
    forall a, b | IsEdge(g, a, b) :: potential[b] <= potential[a] + g[a][b]
  }

  /** A feasible potential bounds the weight of every path from below. */
  lemma {:induction false} FeasibleBoundsPaths(g: Matrix, potential: seq<int>, p: seq<int>)
    requires IsSquare(g) && |potential| == |g| && Feasible(g, potential)
    requires IsPath(g, p)
    ensures potential[p[|p| - 1]] <= potential[p[0]] + PathWeight(g, p)
  {
    if |p| > 1 {
      var q := p[..|p| - 1];
      FeasibleBoundsPaths(g, potential, q);
      assert IsEdge(g, p[|p| - 2], p[|p| - 1]);
    }
  }

  ghost predicate Closed(g: Matrix, nodes: set<int>)
    requires IsSquare(g)
  {
    forall a, b | a in nodes && IsEdge(g, a, b) :: b in nodes
  }

  /** No path leaves a set that is closed under edges. */
  lemma {:induction false} ClosedSetConfinesPath(g: Matrix, nodes: set<int>, p: seq<int>)
    requires IsSquare(g) && Closed(g, nodes)
    requires IsPath(g, p) && p[0] in nodes
    ensures p[|p| - 1] in nodes
  {
    if |p| > 1 {
      ClosedSetConfinesPath(g, nodes, p[..|p| - 1]);
      assert IsEdge(g, p[|p| - 2], p[|p| - 1]);
    }
  }

  lemma AppendToPath(g: Matrix, p: seq<int>, v: int)
    requires IsSquare(g) && IsPath(g, p) && IsEdge(g, p[|p| - 1], v)
    ensures IsPath(g, p + [v])
    ensures PathWeight(g, p + [v]) == PathWeight(g, p) + g[p[|p| - 1]][v]
  {
    var q := p + [v];
    forall i | 0 < i < |q| ensures IsEdge(g, q[i - 1], q[i]) {
      if i < |p| { assert IsEdge(g, p[i - 1], p[i]); }
    }
    assert q[..|q| - 1] == p;
  }

  lemma {:induction false} PathWeightIsBounded(g: Matrix, p: seq<int>, maxWeight: int)
    requires IsUndirected(g) && IsPath(g, p) && WeightsAtMost(g, maxWeight)
    ensures 0 <= PathWeight(g, p) <= (|p| - 1) * maxWeight
  {
    if |p| > 1 {
      var a, b := p[|p| - 2], p[|p| - 1];
      PathWeightIsBounded(g, p[..|p| - 1], maxWeight);
      assert 0 <= g[a][b] <= maxWeight;
      assert (|p| - 1) * maxWeight == (|p| - 2) * maxWeight + maxWeight;
    }
  }

  function Range(n: nat): (r: set<int>)
    ensures forall i :: i in r <==> 0 <= i < n
  {
    if n == 0 then {} else Range(n - 1) + {n - 1}
  }

  lemma {:induction false} RangeSize(n: nat)
    ensures |Range(n)| == n
  {
    if n > 0 {
      RangeSize(n - 1);
    }
  }

  /** A set of n numbers below n holds all of them. */
  lemma FullSetIsRange(s: set<int>, n: nat)
    requires s <= Range(n)
    ensures |s| <= n
    ensures |s| == n <==> s == Range(n)
  {
    RangeSize(n);
    assert |Range(n) - s| == n - |s|;
    if |s| == n {
      assert Range(n) - s == {};
    }
  }

  lemma {:induction false} SmallerSet<T>(a: set<T>, b: set<T>)
    requires a <= b
    ensures |a| <= |b|
  {
    if x :| x in a {
      SmallerSet(a - {x}, b - {x});
    }
  }

  /** A duplicate-free sequence is as long as the set of its elements. */
  lemma {:induction false} ElementCount<T>(s: seq<T>)
    requires NoDuplicates(s)
    ensures |set x | x in s| == |s|
  {
    if |s| > 0 {
      var q := s[..|s| - 1];
      ElementCount(q);
      assert (set x | x in s) == (set x | x in q) + {s[|s| - 1]};
    }
  }
}
