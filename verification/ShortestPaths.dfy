/** What Dijkstra's algorithm keeps while it runs, stated on values: `done` is the set of visited nodes,
    `dist` the tentative distances, `routes` the registered routes. */
module ShortestPaths {
  import opened CInt
  import opened Graphs

  /** Every prefix of a route is the registered route of the prefix's last node. */
  ghost predicate PrefixesAreRoutes(routes: seq<seq<int>>, r: seq<int>) {
    && InRange(r, |routes|)
    && forall i | 0 <= i < |r| :: r[..i + 1] == routes[r[i]]
  }

  /** The routes form a tree rooted at src: simple, starting at src, ending at their node, closed under prefixes. */
  ghost predicate IsRouteTree(src: int, routes: seq<seq<int>>) {
    forall v {:trigger IsTreeRoute(src, routes, v)} | 0 <= v < |routes| :: IsTreeRoute(src, routes, v)
  }

  ghost predicate IsTreeRoute(src: int, routes: seq<seq<int>>, v: int)
    requires 0 <= v < |routes|
  {
    IsRouteTo(src, v, routes[v]) && PrefixesAreRoutes(routes, routes[v])
  }

  predicate IsRouteTo(src: int, v: int, r: seq<int>) {
    |r| > 0 && r[0] == src && r[|r| - 1] == v && NoDuplicates(r)
  }

  /** d is the least weight of a path from src to v. */
  ghost predicate IsDistance(g: Matrix, src: int, v: int, d: int)
    requires IsSquare(g)
  {
    && (exists p :: IsPathBetween(g, p, src, v) && PathWeight(g, p) == d)
    && (forall p | IsPathBetween(g, p, src, v) :: d <= PathWeight(g, p))
  }

  /** dist holds the distances from src, and routes a tree of paths that realise them. */
  ghost predicate IsShortestPathTree(g: Matrix, src: int, dist: seq<int>, routes: seq<seq<int>>)
    requires IsSquare(g)
  {
    && |dist| == |routes| == |g|
    && IsRouteTree(src, routes)
    && forall v {:trigger IsShortestRoute(g, src, v, dist[v], routes[v])} | 0 <= v < |g| ::
         IsShortestRoute(g, src, v, dist[v], routes[v])
  }

  ghost predicate IsShortestRoute(g: Matrix, src: int, v: int, d: int, r: seq<int>)
    requires IsSquare(g)
  {
    IsPathBetween(g, r, src, v) && PathWeight(g, r) == d && IsDistance(g, src, v, d)
  }

  ghost predicate AllReachable(g: Matrix, src: int)
    requires IsSquare(g)
  {
    forall v | 0 <= v < |g| :: Reachable(g, src, v)
  }

  // ----- the invariant -----

  ghost predicate RouteIsSettled(g: Matrix, src: int, done: set<int>, dist: seq<int>, routes: seq<seq<int>>, v: int)
    requires IsSquare(g) && |dist| == |routes| == |g| && 0 <= v < |g|
  {
    && IsPathBetween(g, routes[v], src, v)
    && PathWeight(g, routes[v]) == dist[v]
    && NoDuplicates(routes[v])
    && PrefixesAreRoutes(routes, routes[v])
    && (forall i | 0 <= i < |routes[v]| :: routes[v][i] in done)
    && |routes[v]| <= |done|
  }

  ghost predicate RoutesAreSettled(g: Matrix, src: int, done: set<int>, dist: seq<int>, routes: seq<seq<int>>)
    requires IsSquare(g) && |dist| == |routes| == |g|
  {
    && done <= Range(|g|)
    && forall v {:trigger RouteIsSettled(g, src, done, dist, routes, v)} | v in done ::
         RouteIsSettled(g, src, done, dist, routes, v)
  }

  /** The distance of a node that is not visited is unset, or it was reached over an edge from a visited node. */
  ghost predicate IsTentative(g: Matrix, done: set<int>, dist: seq<int>, v: int)
    requires IsSquare(g) && |dist| == |g| && 0 <= v < |g|
  {
    dist[v] == INT_MAX || exists a :: a in done && IsEdge(g, a, v) && dist[v] == dist[a] + g[a][v]
  }

  ghost predicate EdgesRelaxed(g: Matrix, done: set<int>, dist: seq<int>)
    requires IsSquare(g) && |dist| == |g|
  {
    forall a, b | a in done && IsEdge(g, a, b) :: dist[b] <= dist[a] + g[a][b]
  }

  ghost predicate FrontierIsSound(g: Matrix, src: int, done: set<int>, dist: seq<int>)
    requires IsSquare(g) && |dist| == |g| && 0 <= src < |g|
  {
    && done <= Range(|g|)
    && (done == {} || src in done)
    && dist[src] == 0
    && (forall v | 0 <= v < |g| :: 0 <= dist[v] <= INT_MAX)
    && (forall a, b | a in done && 0 <= b < |g| && b !in done :: dist[a] <= dist[b])
    && EdgesRelaxed(g, done, dist)
    && (forall v {:trigger IsTentative(g, done, dist, v)} | 0 <= v < |g| && v !in done && v != src ::
          IsTentative(g, done, dist, v))
  }

  /** The next node to visit: an unvisited one of least tentative distance. */
  ghost predicate IsNearest(dist: seq<int>, done: set<int>, m: int) {
    && 0 <= m < |dist| && m !in done
    && forall v | 0 <= v < |dist| && v !in done :: dist[m] <= dist[v]
  }

  ghost predicate IsVisitedNeighbour(g: Matrix, done: set<int>, m: int, a: int)
    requires IsSquare(g)
  {
    a in done && IsEdge(g, m, a)
  }

  /** The predecessor recomputed for m: a visited neighbour over which m is nearest. */
  ghost predicate IsBestNeighbour(g: Matrix, done: set<int>, dist: seq<int>, m: int, parent: int)
    requires IsSquare(g) && |dist| == |g|
  {
    && IsVisitedNeighbour(g, done, m, parent)
    && forall a | IsVisitedNeighbour(g, done, m, a) :: dist[parent] + g[m][parent] <= dist[a] + g[m][a]
  }

  /** The distances after relaxing the edges of m towards the unvisited nodes. */
  function Relaxed(g: Matrix, done: set<int>, dist: seq<int>, m: int): (r: seq<int>)
    requires IsSquare(g) && |dist| == |g| && 0 <= m < |g|
    ensures |r| == |g|
  {
    seq(|g|, i requires 0 <= i < |g| => RelaxedAt(g, done, dist, m, i))
  }

  function RelaxedAt(g: Matrix, done: set<int>, dist: seq<int>, m: int, i: int): int
    requires IsSquare(g) && |dist| == |g| && 0 <= m < |g| && 0 <= i < |g|
  {
    if i !in done && g[m][i] != 0 && dist[m] != INT_MAX && dist[m] + g[m][i] < dist[i]
    then dist[m] + g[m][i] else dist[i]
  }

  /** No sum computed on the way can overflow or be mistaken for an unset distance. */
  predicate WeightBound(g: Matrix, maxWeight: int)
    requires IsSquare(g)
  {
    0 <= maxWeight && WeightsAtMost(g, maxWeight) && (|g| - 1) * maxWeight < INT_MAX
  }

  // ----- steps -----

  lemma ProductIsMonotone(a: int, b: int, c: int)
    requires a <= b && 0 <= c
    ensures a * c <= b * c
  {
  }

  /** A settled distance leaves room for one more edge for each node still unvisited. */
  lemma SettledDistanceIsBounded(g: Matrix, src: int, maxWeight: int, done: set<int>, dist: seq<int>,
                                 routes: seq<seq<int>>, v: int)
    requires IsUndirected(g) && WeightBound(g, maxWeight) && |dist| == |routes| == |g|
    requires RoutesAreSettled(g, src, done, dist, routes) && v in done
    ensures dist[v] <= (|done| - 1) * maxWeight
  {
    assert RouteIsSettled(g, src, done, dist, routes, v);
    PathWeightIsBounded(g, routes[v], maxWeight);
    ProductIsMonotone(|routes[v]| - 1, |done| - 1, maxWeight);
  }

  lemma SettledSumFits(g: Matrix, src: int, maxWeight: int, done: set<int>, dist: seq<int>,
                       routes: seq<seq<int>>, v: int, b: int)
    requires IsUndirected(g) && WeightBound(g, maxWeight) && |dist| == |routes| == |g|
    requires RoutesAreSettled(g, src, done, dist, routes) && v in done
    requires |done| < |g| && 0 <= b < |g|
    ensures 0 <= dist[v] + g[v][b] < INT_MAX
    ensures 0 <= dist[v] + g[b][v] < INT_MAX
  {
    SettledDistanceIsBounded(g, src, maxWeight, done, dist, routes, v);
    assert RouteIsSettled(g, src, done, dist, routes, v);
    PathWeightIsBounded(g, routes[v], maxWeight);
    assert 0 <= g[v][b] == g[b][v] <= maxWeight;
    ProductIsMonotone(|done|, |g| - 1, maxWeight);
    assert (|done| - 1) * maxWeight + maxWeight == |done| * maxWeight;
  }

  lemma FrontierBounds(g: Matrix, src: int, done: set<int>, dist: seq<int>)
    requires IsSquare(g) && |dist| == |g| && 0 <= src < |g| && FrontierIsSound(g, src, done, dist)
    ensures done <= Range(|g|)
    ensures forall v | 0 <= v < |g| :: 0 <= dist[v] <= INT_MAX
  {
  }

  /** At the start only src has a distance, so src is visited first. */
  lemma FirstNearestIsSource(g: Matrix, src: int, dist: seq<int>, m: int)
    requires IsSquare(g) && |dist| == |g| && 0 <= src < |g|
    requires FrontierIsSound(g, src, {}, dist) && IsNearest(dist, {}, m)
    ensures m == src
  {
    assert m != src ==> IsTentative(g, {}, dist, m);
  }

  /** The recomputed predecessor gives exactly the tentative distance. */
  lemma BestNeighbourRealisesDistance(g: Matrix, src: int, done: set<int>, dist: seq<int>, m: int, parent: int)
    requires IsUndirected(g) && |dist| == |g| && 0 <= src < |g|
    requires FrontierIsSound(g, src, done, dist)
    requires IsNearest(dist, done, m) && m != src && IsBestNeighbour(g, done, dist, m, parent)
    requires dist[parent] + g[m][parent] < INT_MAX
    ensures dist[m] == dist[parent] + g[parent][m]
  {
    assert g[parent][m] == g[m][parent];
    assert IsEdge(g, parent, m);
    assert IsTentative(g, done, dist, m);
    var a :| a in done && IsEdge(g, a, m) && dist[m] == dist[a] + g[a][m];
    assert g[a][m] == g[m][a];
    assert IsVisitedNeighbour(g, done, m, a);
  }

  /** Visiting m with a route that extends its predecessor's keeps the routes settled. */
  lemma VisitSettlesRoute(g: Matrix, src: int, done: set<int>, dist: seq<int>, routes: seq<seq<int>>,
                          m: int, parent: int)
    requires IsUndirected(g) && |dist| == |routes| == |g|
    requires RoutesAreSettled(g, src, done, dist, routes)
    requires 0 <= m < |g| && m !in done && parent in done && IsEdge(g, parent, m)
    requires dist[m] == dist[parent] + g[parent][m]
    ensures RoutesAreSettled(g, src, done + {m}, dist, routes[m := routes[parent] + [m]])
  {
    var r, after := routes[parent] + [m], routes[m := routes[parent] + [m]];
    assert RouteIsSettled(g, src, done, dist, routes, parent);
    AppendToPath(g, routes[parent], m);
    forall i | 0 <= i < |r| ensures r[i] in done + {m} && r[..i + 1] == after[r[i]] {
      if i < |r| - 1 {
        assert r[..i + 1] == routes[parent][..i + 1];
      } else {
        assert r[..i + 1] == r;
      }
    }
    assert RouteIsSettled(g, src, done + {m}, dist, after, m);
    forall v | v in done ensures RouteIsSettled(g, src, done + {m}, dist, after, v) {
      assert RouteIsSettled(g, src, done, dist, routes, v);
    }
  }

  lemma VisitSettlesSource(g: Matrix, src: int, dist: seq<int>, routes: seq<seq<int>>)
    requires IsUndirected(g) && |dist| == |routes| == |g| && 0 <= src < |g| && dist[src] == 0
    ensures RoutesAreSettled(g, src, {src}, dist, routes[src := [src]])
  {
    var after := routes[src := [src]];
    assert after[src][..1] == [src];
    assert RouteIsSettled(g, src, {src}, dist, after, src);
  }

  /** Settledness only looks at the distances of visited nodes. */
  lemma SettledIgnoresFrontier(g: Matrix, src: int, done: set<int>, dist: seq<int>, dist': seq<int>,
                               routes: seq<seq<int>>)
    requires IsSquare(g) && |dist| == |dist'| == |routes| == |g|
    requires RoutesAreSettled(g, src, done, dist, routes)
    requires forall v | v in done :: 0 <= v < |g| && dist'[v] == dist[v]
    ensures RoutesAreSettled(g, src, done, dist', routes)
  {
    forall v | v in done ensures RouteIsSettled(g, src, done, dist', routes, v) {
      assert RouteIsSettled(g, src, done, dist, routes, v);
    }
  }

  /** Visiting the nearest node and relaxing its edges keeps the frontier sound. */
  lemma VisitKeepsFrontier(g: Matrix, src: int, done: set<int>, dist: seq<int>, m: int)
    requires IsUndirected(g) && |dist| == |g| && 0 <= src < |g|
    requires FrontierIsSound(g, src, done, dist) && IsNearest(dist, done, m)
    requires src in done + {m} && dist[m] < INT_MAX
    ensures FrontierIsSound(g, src, done + {m}, Relaxed(g, done + {m}, dist, m))
  {
    var next, after := done + {m}, Relaxed(g, done + {m}, dist, m);
    forall v | 0 <= v < |g|
      ensures v in next ==> after[v] == dist[v] <= dist[m]
      ensures v !in next ==> dist[m] <= after[v] <= dist[v]
    {
      assert 0 <= g[m][v];
    }
    RelaxedEdges(g, done, dist, m, after);
    forall v | 0 <= v < |g| && v !in next && v != src ensures IsTentative(g, next, after, v) {
      assert IsTentative(g, done, dist, v);
      if after[v] == dist[v] && dist[v] != INT_MAX {
        var a :| a in done && IsEdge(g, a, v) && dist[v] == dist[a] + g[a][v];
        assert a in next && after[v] == after[a] + g[a][v];
      } else if after[v] != dist[v] {
        assert m in next && IsEdge(g, m, v) && after[v] == after[m] + g[m][v];
      }
    }
  }

  lemma RelaxedEdges(g: Matrix, done: set<int>, dist: seq<int>, m: int, after: seq<int>)
    requires IsUndirected(g) && |dist| == |g| && 0 <= m < |g| && dist[m] < INT_MAX
    requires done <= Range(|g|) && EdgesRelaxed(g, done, dist)
    requires after == Relaxed(g, done + {m}, dist, m)
    requires forall a | a in done :: dist[a] <= dist[m]
    ensures EdgesRelaxed(g, done + {m}, after)
  {
    forall a, b | a in done + {m} && IsEdge(g, a, b) ensures after[b] <= after[a] + g[a][b] {
      assert 0 <= g[a][b];
      assert after[b] <= dist[b] && after[a] == dist[a];
      if a == m && b in done + {m} {
        assert dist[b] <= dist[m];
      }
    }
  }

  /** The routes after registering the one to m. */
  ghost predicate RouteIsRegistered(g: Matrix, src: int, done: set<int>, dist: seq<int>, routes: seq<seq<int>>,
                                    m: int, parent: int, routes': seq<seq<int>>)
    requires IsSquare(g) && |dist| == |routes| == |g| && 0 <= m < |g|
  {
    if m == src then routes' == routes[m := [src]]
    else IsBestNeighbour(g, done, dist, m, parent) && routes' == routes[m := routes[parent] + [m]]
  }

  /** One iteration: visit the nearest node, register its route, relax its edges. */
  lemma VisitStep(g: Matrix, src: int, maxWeight: int, done: set<int>, dist: seq<int>, routes: seq<seq<int>>,
                  m: int, parent: int, routes': seq<seq<int>>)
    requires IsUndirected(g) && WeightBound(g, maxWeight) && |dist| == |routes| == |g| && 0 <= src < |g|
    requires FrontierIsSound(g, src, done, dist) && RoutesAreSettled(g, src, done, dist, routes)
    requires |done| < |g| && IsNearest(dist, done, m)
    requires RouteIsRegistered(g, src, done, dist, routes, m, parent, routes')
    ensures RoutesAreSettled(g, src, done + {m}, dist, routes')
    ensures FrontierIsSound(g, src, done + {m}, Relaxed(g, done + {m}, dist, m))
    ensures RoutesAreSettled(g, src, done + {m}, Relaxed(g, done + {m}, dist, m), routes')
  {
    if m == src {
      assert done == {};
      assert done + {m} == {src};
      VisitSettlesSource(g, src, dist, routes);
    } else {
      if done == {} {
        FirstNearestIsSource(g, src, dist, m);
      }
      SettledSumFits(g, src, maxWeight, done, dist, routes, parent, m);
      BestNeighbourRealisesDistance(g, src, done, dist, m, parent);
      assert IsEdge(g, parent, m);
      VisitSettlesRoute(g, src, done, dist, routes, m, parent);
    }
    VisitKeepsFrontier(g, src, done, dist, m);
    SettledIgnoresFrontier(g, src, done + {m}, dist, Relaxed(g, done + {m}, dist, m), routes');
  }

  /** When the nearest node has no visited neighbour, the visited nodes are all that can be reached. */
  lemma NoNeighbourMeansUnreachable(g: Matrix, src: int, maxWeight: int, done: set<int>, dist: seq<int>,
                                    routes: seq<seq<int>>, m: int)
    requires IsUndirected(g) && WeightBound(g, maxWeight) && |dist| == |routes| == |g| && 0 <= src < |g|
    requires FrontierIsSound(g, src, done, dist) && RoutesAreSettled(g, src, done, dist, routes)
    requires |done| < |g| && IsNearest(dist, done, m) && m != src
    requires forall a: int :: !IsVisitedNeighbour(g, done, m, a)
    ensures !Reachable(g, src, m)
  {
    if done == {} {
      FirstNearestIsSource(g, src, dist, m);
    }
    assert IsTentative(g, done, dist, m);
    forall a | a in done ensures !IsEdge(g, a, m) {
      assert !IsVisitedNeighbour(g, done, m, a);
    }
    forall a, b | a in done && IsEdge(g, a, b) ensures b in done {
      assert dist[b] <= dist[a] + g[a][b];
      SettledSumFits(g, src, maxWeight, done, dist, routes, a, b);
    }
    forall p | IsPathBetween(g, p, src, m) ensures false {
      ClosedSetConfinesPath(g, done, p);
    }
  }

  lemma VisitedIsShortest(g: Matrix, src: int, dist: seq<int>, routes: seq<seq<int>>, v: int)
    requires IsUndirected(g) && |dist| == |routes| == |g| && 0 <= src < |g| && 0 <= v < |g|
    requires RoutesAreSettled(g, src, Range(|g|), dist, routes)
    requires FrontierIsSound(g, src, Range(|g|), dist)
    ensures IsTreeRoute(src, routes, v) && IsShortestRoute(g, src, v, dist[v], routes[v]) && Reachable(g, src, v)
  {
    assert RouteIsSettled(g, src, Range(|g|), dist, routes, v);
    forall p | IsPathBetween(g, p, src, v) ensures dist[v] <= PathWeight(g, p) {
      FeasibleBoundsPaths(g, dist, p);
    }
  }

  /** When every node is visited, the distances are least and the routes realise them. */
  lemma AllVisitedIsShortest(g: Matrix, src: int, dist: seq<int>, routes: seq<seq<int>>)
    requires IsUndirected(g) && |dist| == |routes| == |g| && 0 <= src < |g|
    requires RoutesAreSettled(g, src, Range(|g|), dist, routes)
    requires FrontierIsSound(g, src, Range(|g|), dist)
    ensures IsShortestPathTree(g, src, dist, routes)
    ensures AllReachable(g, src)
  {
    forall v | 0 <= v < |g|
      ensures IsTreeRoute(src, routes, v) && IsShortestRoute(g, src, v, dist[v], routes[v]) && Reachable(g, src, v)
    {
      VisitedIsShortest(g, src, dist, routes, v);
    }
  }
}
