/** Dijkstra's algorithm over an adjacency matrix, with the routes registered as nodes are visited
    (home_exam/routing_server/src/dijkstra.c). */
module Dijkstra {
  import opened CInt
  import opened Graphs
  import opened ShortestPaths

  /** The matrix held by an array. */
  ghost function MatrixOf(a: array2<int>): (g: Matrix)
    requires a.Length0 == a.Length1
    reads a
    ensures |g| == a.Length0 && IsSquare(g)
  {
    seq(a.Length0, i requires 0 <= i < a.Length0 reads a =>
      seq(a.Length1, j requires 0 <= j < a.Length1 reads a => a[i, j]))
  }

  /** An array of n routes, each with room for n nodes; nHops is -1 while a route is not registered. */
  class RouteArray {
    const n: nat
    const nHops: array<int>
    const route: array2<int>

    ghost predicate Valid()
      reads nHops
    {
      && nHops.Length == n && route.Length0 == n && route.Length1 == n
      && forall v | 0 <= v < n :: -1 <= nHops[v] < n
    }

    /** The nodes of the route to v, both ends included. */
    ghost function RouteOf(v: int): (r: seq<int>)
      requires Valid() && 0 <= v < n
      reads nHops, route
      ensures |r| == nHops[v] + 1
    {
      var length := nHops[v] + 1;
      seq(length, k requires 0 <= k < length && length <= route.Length1 && v < route.Length0 reads route => route[v, k])
    }

    ghost function Routes(): (r: seq<seq<int>>)
      requires Valid()
      reads nHops, route
      ensures |r| == n
    {
      seq(n, v requires 0 <= v < n && Valid() reads nHops, route => RouteOf(v))
    }

    constructor (n: nat)
      ensures Valid() && this.n == n && fresh(nHops) && fresh(route)
      ensures forall v | 0 <= v < n :: nHops[v] == -1
    {
      this.n := n;
      nHops := new int[n](_ => -1);
      route := new int[n, n];
    }
  }

  /** Line 125 compares with <=, so the last of several nearest nodes is taken. */
  method GetMinDistanceIdx(dist: array<int>, visited: array<int>) returns (minIdx: int)
    requires dist.Length == visited.Length
    requires forall i | 0 <= i < dist.Length :: dist[i] <= INT_MAX
    ensures minIdx == -1 <==> forall i | 0 <= i < dist.Length :: visited[i] != 0
    ensures minIdx != -1 ==>
              && 0 <= minIdx < dist.Length && visited[minIdx] == 0
              && (forall i | 0 <= i < dist.Length && visited[i] == 0 :: dist[minIdx] <= dist[i])
              && (forall i | minIdx < i < dist.Length && visited[i] == 0 :: dist[minIdx] < dist[i])
  {
    var minDist := INT_MAX;
    minIdx := -1;
    for i := 0 to dist.Length
      invariant minIdx == -1 ==> minDist == INT_MAX && forall j | 0 <= j < i :: visited[j] != 0
      invariant minIdx != -1 ==> 0 <= minIdx < i && visited[minIdx] == 0 && minDist == dist[minIdx]
      invariant forall j | 0 <= j < i && visited[j] == 0 :: minDist <= dist[j]
      invariant minIdx != -1 ==> forall j | minIdx < j < i && visited[j] == 0 :: minDist < dist[j]
    {
      if visited[i] == 0 && dist[i] <= minDist {
        minDist := dist[i];
        minIdx := i;
      }
    }
  }

  /** nb is a visited neighbour of cur, as registerRoute tests it. */
  ghost predicate IsCandidate(adj: array2<int>, visited: array<int>, cur: int, nb: int)
    requires adj.Length0 == adj.Length1 == visited.Length && 0 <= cur < visited.Length
    reads adj, visited
  {
    0 <= nb < visited.Length && adj[cur, nb] != 0 && visited[nb] == 1
  }

  /** Step 1 of registerRoute: the visited neighbours of cur, in index order. */
  method CollectVisitedNeighbours(cur: int, adj: array2<int>, visited: array<int>, visitedAndNeighbour: array<int>)
    returns (count: nat)
    requires adj.Length0 == adj.Length1 == visited.Length == visitedAndNeighbour.Length
    requires 0 <= cur < visited.Length && visitedAndNeighbour != visited
    modifies visitedAndNeighbour
    ensures count <= visited.Length
    ensures forall k | 0 <= k < count :: IsCandidate(adj, visited, cur, visitedAndNeighbour[k])
    ensures forall nb | IsCandidate(adj, visited, cur, nb) :: nb in visitedAndNeighbour[..count]
    ensures forall k, l | 0 <= k < l < count :: visitedAndNeighbour[k] < visitedAndNeighbour[l]
  {
    count := 0;
    for nb := 0 to visited.Length
      invariant count <= nb
      invariant forall k | 0 <= k < count ::
        IsCandidate(adj, visited, cur, visitedAndNeighbour[k]) && visitedAndNeighbour[k] < nb
      invariant forall b | IsCandidate(adj, visited, cur, b) && b < nb :: b in visitedAndNeighbour[..count]
      invariant forall k, l | 0 <= k < l < count :: visitedAndNeighbour[k] < visitedAndNeighbour[l]
    {
      if adj[cur, nb] != 0 && visited[nb] == 1 {
        ghost var before := visitedAndNeighbour[..count];
        visitedAndNeighbour[count] := nb;
        count := count + 1;
        assert visitedAndNeighbour[..count] == before + [nb];
      }
    }
  }

  /** The route of the source to itself (lines 146-150). */
  method StartRoute(src: int, routes: RouteArray)
    requires routes.Valid() && 0 <= src < routes.n
    modifies routes.nHops, routes.route
    ensures routes.Valid() && routes.Routes() == old(routes.Routes())[src := [src]]
  {
    routes.route[src, 0] := src;
    routes.nHops[src] := 0;
    assert routes.RouteOf(src) == [src];
    assert forall v | 0 <= v < routes.n && v != src :: routes.RouteOf(v) == old(routes.RouteOf(v));
  }

  /** Registers the route to the node just visited. The predecessor was not remembered while relaxing: it is
      the first visited neighbour over which the node is nearest. Fails exactly when there is no such neighbour. */
  method RegisterRoute(src: int, cur: int, adj: array2<int>, visited: array<int>, dist: array<int>,
                       visitedAndNeighbour: array<int>, routes: RouteArray)
    returns (ok: bool, ghost parent: int)
    requires routes.Valid() && routes.route != adj && routes.nHops != visitedAndNeighbour
    requires adj.Length0 == adj.Length1 == visited.Length == dist.Length == visitedAndNeighbour.Length == routes.n
    requires visitedAndNeighbour != visited && visitedAndNeighbour != dist
    requires routes.nHops != visited && routes.nHops != dist
    requires 0 <= src < routes.n <= INT_MAX && 0 <= cur < routes.n && (cur != src ==> adj[cur, cur] == 0)
    requires forall nb | IsCandidate(adj, visited, cur, nb) ::
               INT_MIN <= dist[nb] + adj[cur, nb] < INT_MAX && 0 <= routes.nHops[nb] < routes.n - 1
    modifies visitedAndNeighbour, routes.nHops, routes.route
    ensures routes.Valid()
    ensures cur == src ==> ok && routes.Routes() == old(routes.Routes())[cur := [src]]
    ensures cur != src ==> (ok <==> exists nb :: IsCandidate(adj, visited, cur, nb))
    ensures !ok ==> routes.Routes() == old(routes.Routes())
    ensures cur != src && ok ==>
              && IsCandidate(adj, visited, cur, parent)
              && (forall nb | IsCandidate(adj, visited, cur, nb) ::
                    dist[parent] + adj[cur, parent] <= dist[nb] + adj[cur, nb])
              && (forall nb | IsCandidate(adj, visited, cur, nb) && nb < parent ::
                    dist[parent] + adj[cur, parent] < dist[nb] + adj[cur, nb])
              && routes.Routes() == old(routes.Routes())[cur := old(routes.Routes())[parent] + [cur]]
  {
    parent := src;
    if src == cur {
      StartRoute(src, routes);
      return true, parent;
    }

    var count := CollectVisitedNeighbours(cur, adj, visited, visitedAndNeighbour);
    var minDist, minIdx := NearestOf(cur, count, adj, visited, dist, visitedAndNeighbour);
    if minDist == INT_MAX || minIdx == INT_MAX {
      assert visitedAndNeighbour[..count] == [];
      return false, parent;
    }
    parent := minIdx;
    assert IsCandidate(adj, visited, cur, parent);
    CopyRoute(minIdx, cur, routes);
    AppendHop(cur, routes);
    assert IsCandidate(adj, visited, cur, parent);
    ok := true;
  }

  /** Step 2 of registerRoute: the first of the collected neighbours over which cur is nearest. */
  method NearestOf(cur: int, count: nat, adj: array2<int>, visited: array<int>, dist: array<int>,
                   visitedAndNeighbour: array<int>)
    returns (minDist: int, minIdx: int)
    requires adj.Length0 == adj.Length1 == visited.Length == dist.Length == visitedAndNeighbour.Length
    requires 0 <= cur < visited.Length <= INT_MAX && count <= visited.Length
    requires forall k | 0 <= k < count :: IsCandidate(adj, visited, cur, visitedAndNeighbour[k])
    requires forall nb | IsCandidate(adj, visited, cur, nb) ::
               && nb in visitedAndNeighbour[..count]
               && INT_MIN <= dist[nb] + adj[cur, nb] < INT_MAX
    requires forall k, l | 0 <= k < l < count :: visitedAndNeighbour[k] < visitedAndNeighbour[l]
    ensures count == 0 ==> minDist == minIdx == INT_MAX
    ensures count > 0 ==>
              && minDist < INT_MAX && minIdx < INT_MAX
              && IsCandidate(adj, visited, cur, minIdx) && minDist == dist[minIdx] + adj[cur, minIdx]
              && (forall nb | IsCandidate(adj, visited, cur, nb) :: minDist <= dist[nb] + adj[cur, nb])
              && (forall nb | IsCandidate(adj, visited, cur, nb) && nb < minIdx :: minDist < dist[nb] + adj[cur, nb])
  {
    minDist, minIdx := INT_MAX, INT_MAX;
    ghost var at := 0;
    for i := 0 to count
      invariant i == 0 ==> minDist == minIdx == INT_MAX
      invariant i > 0 ==> 0 <= at < i && minIdx == visitedAndNeighbour[at] && minDist == dist[minIdx] + adj[cur, minIdx]
      invariant forall k | 0 <= k < i :: minDist <= dist[visitedAndNeighbour[k]] + adj[cur, visitedAndNeighbour[k]]
      invariant i > 0 ==> forall k | 0 <= k < at ::
        minDist < dist[visitedAndNeighbour[k]] + adj[cur, visitedAndNeighbour[k]]
    {
      var neighbourId := visitedAndNeighbour[i];
      assert IsCandidate(adj, visited, cur, neighbourId);
      if AddInt(dist[neighbourId], adj[cur, neighbourId]) < minDist {
        minDist := AddInt(dist[neighbourId], adj[cur, neighbourId]);
        minIdx := neighbourId;
        at := i;
      }
    }
    if count > 0 {
      forall nb | IsCandidate(adj, visited, cur, nb)
        ensures minDist <= dist[nb] + adj[cur, nb]
        ensures nb < minIdx ==> minDist < dist[nb] + adj[cur, nb]
      {
        var k :| 0 <= k < count && visitedAndNeighbour[..count][k] == nb;
        assert visitedAndNeighbour[k] == nb;
      }
    }
  }

  /** Step 3 of registerRoute: memcpy of one row of the route array onto another. */
  method CopyRoute(from: int, to: int, routes: RouteArray)
    requires routes.Valid() && 0 <= from < routes.n && 0 <= to < routes.n && from != to
    requires routes.nHops[from] >= 0
    modifies routes.nHops, routes.route
    ensures routes.Valid() && routes.nHops[to] == old(routes.nHops[from])
    ensures routes.Routes() == old(routes.Routes())[to := old(routes.Routes())[from]]
  {
    for k := 0 to routes.nHops[from] + 1
      modifies routes.route
      invariant forall v, j | 0 <= v < routes.n && 0 <= j < routes.n && v != to ::
        routes.route[v, j] == old(routes.route[v, j])
      invariant forall j | 0 <= j < k :: routes.route[to, j] == old(routes.route[from, j])
    {
      routes.route[to, k] := routes.route[from, k];
    }
    routes.nHops[to] := routes.nHops[from];
    assert routes.RouteOf(to) == old(routes.RouteOf(from));
    assert forall v | 0 <= v < routes.n && v != to :: routes.RouteOf(v) == old(routes.RouteOf(v));
  }

  /** Step 4 of registerRoute: the node itself ends its route. */
  method AppendHop(cur: int, routes: RouteArray)
    requires routes.Valid() && 0 <= cur < routes.n && routes.nHops[cur] < routes.n - 1
    modifies routes.nHops, routes.route
    ensures routes.Valid()
    ensures routes.Routes() == old(routes.Routes())[cur := old(routes.Routes())[cur] + [cur]]
  {
    routes.nHops[cur] := routes.nHops[cur] + 1;
    routes.route[cur, routes.nHops[cur]] := cur;
    assert routes.RouteOf(cur) == old(routes.RouteOf(cur)) + [cur];
    assert forall v | 0 <= v < routes.n && v != cur :: routes.RouteOf(v) == old(routes.RouteOf(v));
  }

  /** The inner loop of dijkstra: relaxes the edges from m to the unvisited nodes. */
  method RelaxNeighbours(m: int, adj: array2<int>, visited: array<int>, dist: array<int>, ghost done: set<int>)
    requires adj.Length0 == adj.Length1 == visited.Length == dist.Length && visited != dist
    requires 0 <= m < dist.Length && m in done
    requires forall i | 0 <= i < dist.Length :: visited[i] == 0 <==> i !in done
    requires dist[m] != INT_MAX ==> forall i | 0 <= i < dist.Length ::
               INT_MIN <= dist[m] + MatrixOf(adj)[m][i] <= INT_MAX
    modifies dist
    ensures dist[..] == Relaxed(MatrixOf(adj), done, old(dist[..]), m)
  {
    for i := 0 to dist.Length
      invariant forall j | 0 <= j < i :: dist[j] == RelaxedAt(MatrixOf(adj), done, old(dist[..]), m, j)
      invariant forall j | i <= j < dist.Length :: dist[j] == old(dist[j])
      invariant dist[m] == old(dist[m])
    {
      assert adj[m, i] == MatrixOf(adj)[m][i];
      if visited[i] == 0 && adj[m, i] != 0 && dist[m] != INT_MAX && AddInt(dist[m], adj[m, i]) < dist[i] {
        dist[i] := AddInt(dist[m], adj[m, i]);
      }
    }
  }

  lemma CandidatesAreVisitedNeighbours(adj: array2<int>, visited: array<int>, done: set<int>, m: int)
    requires adj.Length0 == adj.Length1 == visited.Length && IsUndirected(MatrixOf(adj))
    requires done <= Range(visited.Length) && 0 <= m < visited.Length && m !in done
    requires forall i | 0 <= i < visited.Length :: visited[i] == (if i in done + {m} then 1 else 0)
    ensures forall nb :: IsCandidate(adj, visited, m, nb) <==> IsVisitedNeighbour(MatrixOf(adj), done, m, nb)
  {
    assert MatrixOf(adj)[m][m] == 0;
  }

  /** A visited neighbour of m has a registered route with room for m, and the sum over it cannot overflow. */
  lemma SettledRoutesFit(g: Matrix, src: int, maxWeight: int, done: set<int>, dist: seq<int>,
                         routes: seq<seq<int>>, m: int)
    requires IsUndirected(g) && WeightBound(g, maxWeight) && |dist| == |routes| == |g| && 0 <= m < |g|
    requires RoutesAreSettled(g, src, done, dist, routes) && |done| < |g|
    ensures forall nb | IsVisitedNeighbour(g, done, m, nb) ::
              0 <= dist[nb] + g[m][nb] < INT_MAX && 0 < |routes[nb]| < |g|
  {
    forall nb | IsVisitedNeighbour(g, done, m, nb)
      ensures 0 <= dist[nb] + g[m][nb] < INT_MAX && 0 < |routes[nb]| < |g|
    {
      SettledSumFits(g, src, maxWeight, done, dist, routes, nb, m);
      assert RouteIsSettled(g, src, done, dist, routes, nb);
    }
  }

  /** registerRoute as dijkstra calls it (line 76), just after cur was marked visited; `done` are the nodes visited
      before. What it registers is stated on values. */
  method RegisterVisit(src: int, cur: int, adj: array2<int>, visited: array<int>, dist: array<int>,
                       visitedAndNeighbour: array<int>, routes: RouteArray, ghost maxWeight: int, ghost done: set<int>)
    returns (ok: bool, ghost parent: int)
    requires routes.Valid() && routes.route != adj && routes.nHops != visitedAndNeighbour
    requires adj.Length0 == adj.Length1 == visited.Length == dist.Length == visitedAndNeighbour.Length == routes.n
    requires visitedAndNeighbour != visited && visitedAndNeighbour != dist
    requires routes.nHops != visited && routes.nHops != dist
    requires 0 <= src < routes.n <= INT_MAX && 0 <= cur < routes.n && cur !in done
    requires IsUndirected(MatrixOf(adj)) && WeightBound(MatrixOf(adj), maxWeight)
    requires RoutesAreSettled(MatrixOf(adj), src, done, dist[..], routes.Routes()) && |done| < routes.n
    requires forall i | 0 <= i < visited.Length :: visited[i] == (if i in done + {cur} then 1 else 0)
    modifies visitedAndNeighbour, routes.nHops, routes.route
    ensures routes.Valid()
    ensures ok ==> RouteIsRegistered(MatrixOf(adj), src, done, dist[..], old(routes.Routes()), cur, parent,
                                     routes.Routes())
    ensures !ok ==> cur != src && forall a: int :: !IsVisitedNeighbour(MatrixOf(adj), done, cur, a)
  {
    assert done <= Range(routes.n);
    CandidatesAreVisitedNeighbours(adj, visited, done, cur);
    SettledRoutesFit(MatrixOf(adj), src, maxWeight, done, dist[..], routes.Routes(), cur);
    hide RoutesAreSettled;
    forall nb | IsCandidate(adj, visited, cur, nb)
      ensures INT_MIN <= dist[nb] + adj[cur, nb] < INT_MAX && 0 <= routes.nHops[nb] < routes.n - 1
    {
      assert IsVisitedNeighbour(MatrixOf(adj), done, cur, nb);
      assert dist[..][nb] == dist[nb] && MatrixOf(adj)[cur][nb] == adj[cur, nb];
      assert |routes.Routes()[nb]| == routes.nHops[nb] + 1;
    }
    ok, parent := RegisterRoute(src, cur, adj, visited, dist, visitedAndNeighbour, routes);
    CandidatesAreVisitedNeighbours(adj, visited, done, cur);
    if ok && src != cur {
      assert IsVisitedNeighbour(MatrixOf(adj), done, cur, parent);
    }
  }

  lemma SomeUnvisited(done: set<int>, n: nat) returns (i: int)
    requires done <= Range(n) && |done| < n
    ensures 0 <= i < n && i !in done
  {
    FullSetIsRange(done, n);
    assert !(Range(n) <= done);
    i :| i in Range(n) && i !in done;
  }

  /** What holds whenever dijkstra starts an iteration. */
  ghost predicate Running(src: int, adj: array2<int>, visited: array<int>, dist: array<int>, routes: RouteArray,
                          done: set<int>)
    reads adj, visited, dist, routes.nHops, routes.route
  {
    && adj.Length0 == adj.Length1 == visited.Length == dist.Length == routes.n <= INT_MAX
    && 0 <= src < routes.n && routes.Valid()
    && (forall i | 0 <= i < visited.Length :: visited[i] == (if i in done then 1 else 0))
    && FrontierIsSound(MatrixOf(adj), src, done, dist[..])
    && RoutesAreSettled(MatrixOf(adj), src, done, dist[..], routes.Routes())
  }

  /** One iteration of the loop of dijkstra (lines 62-106). Fails exactly when the nearest unvisited node
      cannot be reached from src. */
  method Iterate(src: int, isLast: bool, adj: array2<int>, visited: array<int>, dist: array<int>,
                 visitedAndNeighbour: array<int>, routes: RouteArray, ghost maxWeight: int, ghost done: set<int>)
    returns (ok: bool, ghost next: set<int>)
    requires Running(src, adj, visited, dist, routes, done)
    requires IsUndirected(MatrixOf(adj)) && WeightBound(MatrixOf(adj), maxWeight)
    requires |done| < dist.Length && (isLast <==> |done| == dist.Length - 1)
    requires routes.route != adj && visitedAndNeighbour.Length == dist.Length
    requires visited != dist && visitedAndNeighbour != visited && visitedAndNeighbour != dist
    requires routes.nHops != visited && routes.nHops != dist && routes.nHops != visitedAndNeighbour
    modifies visited, dist, visitedAndNeighbour, routes.nHops, routes.route
    ensures ok ==> Running(src, adj, visited, dist, routes, next) && |next| == |done| + 1
    ensures !ok ==> routes.Valid() && exists v :: 0 <= v < routes.n && !Reachable(MatrixOf(adj), src, v)
  {
    hide FrontierIsSound, RoutesAreSettled, IsUndirected, WeightBound, RouteIsRegistered, MatrixOf, Relaxed;
    ghost var g, n := MatrixOf(adj), dist.Length;
    FrontierBounds(g, src, done, dist[..]);
    ghost var dist0, routes0 := dist[..], routes.Routes();
    next := done;
    ghost var unvisited := SomeUnvisited(done, n);
    assert visited[unvisited] == 0;
    var minIdx := GetMinDistanceIdx(dist, visited);
    if minIdx == -1 {
      assert false;
    }
    assert IsNearest(dist[..], done, minIdx);
    visited[minIdx] := 1;
    next := done + {minIdx};
    ghost var parent;
    ok, parent := RegisterVisit(src, minIdx, adj, visited, dist, visitedAndNeighbour, routes, maxWeight, done);
    assert MatrixOf(adj) == g && dist[..] == dist0;
    if !ok {
      NoNeighbourMeansUnreachable(g, src, maxWeight, done, dist0, routes0, minIdx);
      assert 0 <= minIdx < routes.n && !Reachable(MatrixOf(adj), src, minIdx);
      return;
    }
    VisitStep(g, src, maxWeight, done, dist0, routes0, minIdx, parent, routes.Routes());
    if !isLast {
      SettledRoomToRelax(g, src, maxWeight, next, dist0, routes.Routes(), minIdx);
      RelaxNeighbours(minIdx, adj, visited, dist, next);
    } else {
      FullSetIsRange(next, n);
      NothingToRelax(g, dist[..], minIdx);
    }
  }

  /** The last iteration does not relax: every node is visited. */
  lemma NothingToRelax(g: Matrix, dist: seq<int>, m: int)
    requires IsSquare(g) && |dist| == |g| && 0 <= m < |g|
    ensures Relaxed(g, Range(|g|), dist, m) == dist
  {
  }

  lemma SettledRoomToRelax(g: Matrix, src: int, maxWeight: int, done: set<int>, dist: seq<int>,
                           routes: seq<seq<int>>, m: int)
    requires IsUndirected(g) && WeightBound(g, maxWeight) && |dist| == |routes| == |g|
    requires RoutesAreSettled(g, src, done, dist, routes) && m in done && |done| < |g|
    ensures forall i | 0 <= i < |g| :: 0 <= dist[m] + g[m][i] < INT_MAX
  {
    forall i | 0 <= i < |g| ensures 0 <= dist[m] + g[m][i] < INT_MAX {
      SettledSumFits(g, src, maxWeight, done, dist, routes, m, i);
    }
  }

  /** Succeeds exactly when every node can be reached, and then dist and the routes are a tree of shortest paths. */
  method Dijkstra(src: int, adj: array2<int>, dist: array<int>, ghost maxWeight: int)
    returns (ok: bool, routes: RouteArray)
    requires adj.Length0 == adj.Length1 == dist.Length && 0 <= src < dist.Length <= INT_MAX
    requires IsUndirected(MatrixOf(adj)) && WeightBound(MatrixOf(adj), maxWeight)
    modifies dist
    ensures fresh(routes) && fresh(routes.nHops) && fresh(routes.route) && routes.Valid() && routes.n == dist.Length
    ensures ok <==> AllReachable(MatrixOf(adj), src)
    ensures ok ==> IsShortestPathTree(MatrixOf(adj), src, dist[..], routes.Routes())
  {
    var n := dist.Length;
    var visited := new int[n](_ => 0);
    routes := new RouteArray(n);
    for i := 0 to n
      modifies dist
      invariant forall j | 0 <= j < i :: dist[j] == INT_MAX
    {
      dist[i] := INT_MAX;
    }
    dist[src] := 0;
    var visitedAndNeighbour := new int[n];

    ghost var done: set<int> := {};
    for iteration := 0 to n
      invariant Running(src, adj, visited, dist, routes, done)
      invariant |done| == iteration
    {
      ok, done := Iterate(src, iteration == n - 1, adj, visited, dist, visitedAndNeighbour, routes, maxWeight, done);
      if !ok {
        return;
      }
    }
    FullSetIsRange(done, n);
    AllVisitedIsShortest(MatrixOf(adj), src, dist[..], routes.Routes());
    ok := true;
  }
}
