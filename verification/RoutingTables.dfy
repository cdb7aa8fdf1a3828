/** Building the next-hop tables from the routes (home_exam/routing_server/src/route.c). */
module RoutingTables {
  import opened Graphs
  import opened ShortestPaths
  import opened Dijkstra
  import opened Tables

  /** n tables, each with room for n rows, of which the first nRows are in use. */
  class RoutingTableArray {
    const n: nat
    const nRows: array<int>
    const rows: array2<Row>

    ghost predicate Valid()
      reads nRows
    {
      && nRows.Length == n && rows.Length0 == n && rows.Length1 == n
      && forall s | 0 <= s < n :: 0 <= nRows[s] <= n
    }

    ghost function TableOf(s: int): (t: Table)
      requires Valid() && 0 <= s < n
      reads nRows, rows
      ensures |t| == nRows[s]
    {
      var length := nRows[s];
      seq(length, k requires 0 <= k < length && length <= rows.Length1 && s < rows.Length0 reads rows => rows[s, k])
    }

    ghost function TableSeq(): (ts: seq<Table>)
      requires Valid()
      reads nRows, rows
      ensures |ts| == n
    {
      seq(n, s requires 0 <= s < n && Valid() reads nRows, rows => TableOf(s))
    }

    constructor (n: nat)
      ensures Valid() && this.n == n && fresh(nRows) && fresh(rows)
      ensures forall s | 0 <= s < n :: TableSeq()[s] == []
    {
      this.n := n;
      nRows := new int[n](_ => 0);
      rows := new Row[n, n];
    }

    method Append(s: int, row: Row)
      requires Valid() && 0 <= s < n && nRows[s] < n
      modifies nRows, rows
      ensures Valid() && TableSeq() == old(TableSeq())[s := old(TableSeq())[s] + [row]]
    {
      rows[s, nRows[s]] := row;
      nRows[s] := nRows[s] + 1;
      assert TableOf(s) == old(TableOf(s)) + [row];
      assert forall t | 0 <= t < n && t != s :: TableOf(t) == old(TableOf(t));
    }
  }

  // ----- what is kept while the rows are added; seen holds the pairs (s, d) marked in the visited matrix -----

  ghost predicate TableIsSound(routes: seq<seq<int>>, seen: set<(int, int)>, s: int, t: Table) {
    && UniqueDestinations(t)
    && RowsAreHops(routes, s, t)
    && (forall k | 0 <= k < |t| :: (s, t[k].destination) in seen)
    && (forall d | (s, d) in seen :: HasRow(t, d))
  }

  ghost predicate TablesAreSound(routes: seq<seq<int>>, seen: set<(int, int)>, tables: seq<Table>) {
    && |tables| == |routes|
    && forall s {:trigger TableIsSound(routes, seen, s, tables[s])} | 0 <= s < |tables| ::
         TableIsSound(routes, seen, s, tables[s])
  }

  /** Every later node on r already has a row in the tables of the nodes from position i on. */
  predicate Covers(r: seq<int>, seen: set<(int, int)>, i: int) {
    forall a, b | 0 <= a && i <= a < b < |r| :: (r[a], r[b]) in seen
  }

  /** The same for the one node at position i, for destinations after position j. */
  predicate CoversAt(r: seq<int>, seen: set<(int, int)>, i: int, j: int)
    requires 0 <= i < |r|
  {
    forall b | i < b < |r| && j < b :: (r[i], r[b]) in seen
  }

  lemma CoversGrows(r: seq<int>, seen: set<(int, int)>, seen': set<(int, int)>, i: int)
    requires seen <= seen' && Covers(r, seen, i)
    ensures Covers(r, seen', i)
  {
  }

  /** The first k routes are covered from their start on. */
  predicate AreCovered(routes: seq<seq<int>>, seen: set<(int, int)>, k: nat)
    requires k <= |routes|
  {
    forall d | 0 <= d < k :: Covers(routes[d], seen, 0)
  }

  lemma CoveredOneMore(routes: seq<seq<int>>, seen: set<(int, int)>, seen': set<(int, int)>, k: nat)
    requires k < |routes| && AreCovered(routes, seen, k) && seen <= seen' && Covers(routes[k], seen', 0)
    ensures AreCovered(routes, seen', k + 1)
  {
    forall d | 0 <= d < k ensures Covers(routes[d], seen', 0) {
      CoversGrows(routes[d], seen, seen', 0);
    }
  }

  lemma CoversOneMore(r: seq<int>, seen: set<(int, int)>, i: int)
    requires 0 <= i < |r| && Covers(r, seen, i + 1) && CoversAt(r, seen, i, i)
    ensures Covers(r, seen, i)
  {
  }

  lemma CoversAtOneMore(r: seq<int>, seen: set<(int, int)>, seen': set<(int, int)>, i: int, j: int)
    requires 0 <= i < j < |r| && CoversAt(r, seen, i, j) && seen <= seen' && (r[i], r[j]) in seen'
    ensures CoversAt(r, seen', i, j - 1)
  {
  }

  lemma NothingAfterTheEnd(r: seq<int>, seen: set<(int, int)>, i: int)
    requires 0 <= i < |r|
    ensures CoversAt(r, seen, i, |r| - 1)
    ensures Covers(r, seen, |r| - 1)
  {
  }

  /** Position b of a route lies on the route to its node, at the same place: that is the row's hop. */
  lemma HopOnLongerRoute(src: int, routes: seq<seq<int>>, r: int, a: int, b: int)
    requires IsRouteTree(src, routes) && 0 <= r < |routes| && 0 <= a < b < |routes[r]|
    ensures 0 <= routes[r][b] < |routes| && IsHop(routes, routes[r][b], routes[r][a], routes[r][a + 1])
  {
    assert IsTreeRoute(src, routes, r);
    var d := routes[r][b];
    assert routes[d] == routes[r][..b + 1];
    assert IsHopAt(routes[d], a, routes[r][a], routes[r][a + 1]);
  }

  /** A new row keeps the tables sound and finds room. */
  lemma RowKeepsSound(src: int, routes: seq<seq<int>>, seen: set<(int, int)>, tables: seq<Table>, s: int, row: Row)
    requires IsRouteTree(src, routes) && TablesAreSound(routes, seen, tables) && 0 <= s < |tables|
    requires 0 <= row.destination < |routes| && IsHop(routes, row.destination, s, row.nextHop)
    requires (s, row.destination) !in seen
    ensures |tables[s]| < |routes| - 1
    ensures TablesAreSound(routes, seen + {(s, row.destination)}, tables[s := tables[s] + [row]])
  {
    var t, seen' := tables[s] + [row], seen + {(s, row.destination)};
    assert TableIsSound(routes, seen, s, tables[s]);
    assert TableIsSound(routes, seen', s, t) by {
      forall d | (s, d) in seen' ensures HasRow(t, d) {
        if (s, d) in seen {
          var k :| 0 <= k < |tables[s]| && tables[s][k].destination == d;
          assert t[k].destination == d;
        } else {
          assert t[|t| - 1].destination == d;
        }
      }
    }
    TableSize(src, routes, s, t);
    var tables' := tables[s := t];
    forall o | 0 <= o < |tables| ensures TableIsSound(routes, seen', o, tables'[o]) {
      assert TableIsSound(routes, seen, o, tables[o]);
    }
  }

  lemma RouteNodes(src: int, routes: seq<seq<int>>, d: int)
    requires IsRouteTree(src, routes) && 0 <= d < |routes|
    ensures |routes[d]| > 0 && routes[d][|routes[d]| - 1] == d && InRange(routes[d], |routes|)
  {
    assert IsTreeRoute(src, routes, d);
  }

  lemma SoundAndCoveredMatches(src: int, routes: seq<seq<int>>, seen: set<(int, int)>, tables: seq<Table>)
    requires IsRouteTree(src, routes)
    requires TablesAreSound(routes, seen, tables) && AreCovered(routes, seen, |routes|)
    ensures TablesMatchRoutes(routes, tables)
  {
    forall s | 0 <= s < |tables| ensures UniqueDestinations(tables[s]) && RowsAreHops(routes, s, tables[s]) {
      assert TableIsSound(routes, seen, s, tables[s]);
    }
    forall d, i | 0 <= d < |routes| && 0 <= i < |routes[d]| - 1
      ensures TableHasRow(tables, routes[d][i], d)
    {
      var s := routes[d][i];
      RouteNodes(src, routes, d);
      assert Covers(routes[d], seen, 0);
      assert (s, routes[d][|routes[d]| - 1]) in seen;
      assert TableIsSound(routes, seen, s, tables[s]);
    }
  }

  // ----- the three loops of createRoutingTableArray -----

  ghost predicate Marks(visited: array2<int>, n: int, seen: set<(int, int)>)
    reads visited
  {
    && visited.Length0 == n && visited.Length1 == n
    && forall s, d | 0 <= s < n && 0 <= d < n :: visited[s, d] == 1 <==> (s, d) in seen
  }

  ghost predicate Building(routes: RouteArray, visited: array2<int>, tables: RoutingTableArray, seen: set<(int, int)>)
    reads routes.nHops, routes.route, visited, tables.nRows, tables.rows
  {
    && routes.Valid() && tables.Valid() && tables.n == routes.n
    && Marks(visited, routes.n, seen)
    && TablesAreSound(routes.Routes(), seen, tables.TableSeq())
  }

  /** The innermost loop (lines 110-134): rows in one node's table, from the last destination of a route leftwards. */
  method AddDestinations(r: int, sourceIdx: int, routes: RouteArray, visited: array2<int>, tables: RoutingTableArray,
                         ghost src: int, ghost seen: set<(int, int)>)
    returns (ghost seen': set<(int, int)>)
    requires Building(routes, visited, tables, seen) && IsRouteTree(src, routes.Routes())
    requires 0 <= r < routes.n && 0 <= sourceIdx < routes.nHops[r]
    requires routes.route != visited && routes.nHops != tables.nRows
    requires Covers(routes.Routes()[r], seen, sourceIdx + 1)
    modifies visited, tables.nRows, tables.rows
    ensures Building(routes, visited, tables, seen') && seen <= seen'
    ensures Covers(routes.Routes()[r], seen', sourceIdx)
  {
    hide TablesAreSound, IsRouteTree, Covers, CoversAt, IsHop;
    ghost var rts := routes.Routes();
    assert rts[r] == routes.RouteOf(r);
    var destinationIdx := routes.nHops[r];
    var sourceNode := routes.route[r, sourceIdx];
    var nextHopNode := routes.route[r, sourceIdx + 1];
    seen' := seen;
    NothingAfterTheEnd(rts[r], seen, sourceIdx);
    while destinationIdx != sourceIdx
      invariant sourceIdx <= destinationIdx <= routes.nHops[r]
      invariant Building(routes, visited, tables, seen') && seen <= seen' && routes.Routes() == rts
      invariant CoversAt(rts[r], seen', sourceIdx, destinationIdx)
    {
      var destinationNode := routes.route[r, destinationIdx];
      HopOnLongerRoute(src, rts, r, sourceIdx, destinationIdx);
      NodeInRange(src, rts, r, sourceIdx);
      if visited[sourceNode, destinationNode] == 1 {
        CoversAtOneMore(rts[r], seen', seen', sourceIdx, destinationIdx);
        destinationIdx := destinationIdx - 1;
        continue;
      }
      RowKeepsSound(src, rts, seen', tables.TableSeq(), sourceNode, Row(destinationNode, nextHopNode));
      assert |tables.TableSeq()[sourceNode]| == tables.nRows[sourceNode];
      tables.Append(sourceNode, Row(destinationNode, nextHopNode));
      visited[sourceNode, destinationNode] := 1;
      CoversAtOneMore(rts[r], seen', seen' + {(sourceNode, destinationNode)}, sourceIdx, destinationIdx);
      seen' := seen' + {(sourceNode, destinationNode)};
      destinationIdx := destinationIdx - 1;
    }
    CoversGrows(rts[r], seen, seen', sourceIdx + 1);
    CoversOneMore(rts[r], seen', sourceIdx);
  }

  lemma NodeInRange(src: int, routes: seq<seq<int>>, r: int, a: int)
    requires IsRouteTree(src, routes) && 0 <= r < |routes| && 0 <= a < |routes[r]|
    ensures 0 <= routes[r][a] < |routes|
  {
    assert IsTreeRoute(src, routes, r);
  }

  /** The middle loop (lines 101-139): the nodes of a route as sources, from the second to last leftwards. */
  method AddSources(r: int, routes: RouteArray, visited: array2<int>, tables: RoutingTableArray,
                    ghost src: int, ghost seen: set<(int, int)>)
    returns (ghost seen': set<(int, int)>)
    requires Building(routes, visited, tables, seen) && IsRouteTree(src, routes.Routes())
    requires 0 <= r < routes.n && 0 <= routes.nHops[r]
    requires routes.route != visited && routes.nHops != tables.nRows
    modifies visited, tables.nRows, tables.rows
    ensures Building(routes, visited, tables, seen') && seen <= seen'
    ensures Covers(routes.Routes()[r], seen', 0)
  {
    hide TablesAreSound, IsRouteTree, Covers;
    var sourceIdx := routes.nHops[r] - 1;
    seen' := seen;
    assert |routes.Routes()[r]| == routes.nHops[r] + 1;
    NothingAfterTheEnd(routes.Routes()[r], seen, 0);
    while sourceIdx != -1
      invariant -1 <= sourceIdx < routes.nHops[r]
      invariant Building(routes, visited, tables, seen') && seen <= seen' && routes.Routes() == old(routes.Routes())
      invariant Covers(routes.Routes()[r], seen', sourceIdx + 1)
    {
      seen' := AddDestinations(r, sourceIdx, routes, visited, tables, src, seen');
      sourceIdx := sourceIdx - 1;
    }
  }

  /** Turns a tree of routes into the tables that follow it. */
  method CreateRoutingTableArray(routes: RouteArray, ghost src: int) returns (tables: RoutingTableArray)
    requires routes.Valid() && IsRouteTree(src, routes.Routes())
    ensures fresh(tables) && fresh(tables.nRows) && fresh(tables.rows) && tables.Valid() && tables.n == routes.n
    ensures TablesMatchRoutes(routes.Routes(), tables.TableSeq())
  {
    hide TablesAreSound, IsRouteTree, Covers, AreCovered, TablesMatchRoutes, InRange;
    var n := routes.n;
    var visited := new int[n, n]((_, _) => 0);
    tables := new RoutingTableArray(n);
    ghost var rts := routes.Routes();
    ghost var seen: set<(int, int)> := {};
    EmptyTablesAreSound(rts, tables.TableSeq());
    for routeIdx := 0 to n
      invariant Building(routes, visited, tables, seen) && routes.Routes() == rts
      invariant AreCovered(rts, seen, routeIdx)
    {
      RouteNodes(src, rts, routeIdx);
      assert |rts[routeIdx]| == routes.nHops[routeIdx] + 1;
      ghost var before := seen;
      seen := AddSources(routeIdx, routes, visited, tables, src, seen);
      CoveredOneMore(rts, before, seen, routeIdx);
    }
    SoundAndCoveredMatches(src, rts, seen, tables.TableSeq());
  }

  lemma EmptyTablesAreSound(routes: seq<seq<int>>, tables: seq<Table>)
    requires |tables| == |routes| && forall s | 0 <= s < |tables| :: tables[s] == []
    ensures TablesAreSound(routes, {}, tables) && AreCovered(routes, {}, 0)
  {
  }
}
