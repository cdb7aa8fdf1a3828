/** Routing tables as values: which rows they hold, how a row is looked up, and where repeated lookups lead. */
module Tables {
  import opened Graphs
  import opened ShortestPaths

  datatype Row = Row(destination: int, nextHop: int)

  type Table = seq<Row>

  predicate HasRow(t: Table, d: int) {
    exists k :: 0 <= k < |t| && t[k].destination == d
  }

  predicate UniqueDestinations(t: Table) {
    forall k, l | 0 <= k < l < |t| :: t[k].destination != t[l].destination
  }

  /** s lies strictly before the end of the route to d, and h is the node right after it. */
  ghost predicate IsHop(routes: seq<seq<int>>, d: int, s: int, h: int)
    requires 0 <= d < |routes|
  {
    exists i :: IsHopAt(routes[d], i, s, h)
  }

  predicate IsHopAt(r: seq<int>, i: int, s: int, h: int) {
    0 <= i < |r| - 1 && r[i] == s && r[i + 1] == h
  }

  ghost predicate RowsAreHops(routes: seq<seq<int>>, s: int, t: Table) {
    forall k | 0 <= k < |t| :: 0 <= t[k].destination < |routes| && IsHop(routes, t[k].destination, s, t[k].nextHop)
  }

  /** Table s has exactly one row for d when s lies strictly before the end of the route to d, and none otherwise;
      the row's next hop is the node after s on that route. */
  ghost predicate TablesMatchRoutes(routes: seq<seq<int>>, tables: seq<Table>) {
    && |tables| == |routes|
    && (forall s | 0 <= s < |tables| :: UniqueDestinations(tables[s]) && RowsAreHops(routes, s, tables[s]))
    && (forall d, i {:trigger TableHasRow(tables, routes[d][i], d)} | 0 <= d < |routes| && 0 <= i < |routes[d]| - 1 ::
          TableHasRow(tables, routes[d][i], d))
  }

  predicate TableHasRow(tables: seq<Table>, s: int, d: int) {
    0 <= s < |tables| && HasRow(tables[s], d)
  }

  /** The next hop of the first row for d, or -1. */
  function FirstMatch(t: Table, d: int): int {
    if t == [] then -1 else if t[0].destination == d then t[0].nextHop else FirstMatch(t[1..], d)
  }

  /** The next hop of the last row for d, or -1. */
  function LastMatch(t: Table, d: int): int {
    if t == [] then -1
    else if t[|t| - 1].destination == d then t[|t| - 1].nextHop
    else LastMatch(t[..|t| - 1], d)
  }

  lemma {:induction false} FirstMatchIsRow(t: Table, d: int, k: int)
    requires 0 <= k < |t| && t[k].destination == d && UniqueDestinations(t)
    ensures FirstMatch(t, d) == t[k].nextHop
  {
    if k > 0 {
      assert t[0].destination != t[k].destination;
      FirstMatchIsRow(t[1..], d, k - 1);
    }
  }

  lemma {:induction false} LastMatchIsRow(t: Table, d: int, k: int)
    requires 0 <= k < |t| && t[k].destination == d && UniqueDestinations(t)
    ensures LastMatch(t, d) == t[k].nextHop
  {
    if k < |t| - 1 {
      assert t[|t| - 1].destination != t[k].destination;
      LastMatchIsRow(t[..|t| - 1], d, k);
    }
  }

  lemma {:induction false} NoRowNoMatch(t: Table, d: int)
    requires !HasRow(t, d)
    ensures FirstMatch(t, d) == -1 && LastMatch(t, d) == -1
  {
    if t != [] {
      assert t[0].destination != d && t[|t| - 1].destination != d;
      NoRowNoMatch(t[1..], d);
      NoRowNoMatch(t[..|t| - 1], d);
    }
  }

  /** The forwarder stops at the first row and the sender keeps the last one; on unique destinations they agree. */
  lemma FirstAndLastMatchAgree(t: Table, d: int)
    requires UniqueDestinations(t)
    ensures FirstMatch(t, d) == LastMatch(t, d)
  {
    if HasRow(t, d) {
      var k :| 0 <= k < |t| && t[k].destination == d;
      FirstMatchIsRow(t, d, k);
      LastMatchIsRow(t, d, k);
    } else {
      NoRowNoMatch(t, d);
    }
  }

  datatype Walk = Stuck | Reached(nodes: seq<int>)

  /** The nodes passed by k lookups of d, starting at node s: at each node its own table gives the next one. */
  function Follow(tables: seq<Table>, s: int, d: int, k: nat): Walk
    decreases k
  {
    if !(0 <= s < |tables|) then Stuck
    else if k == 0 then Reached([s])
    else
      match Follow(tables, FirstMatch(tables[s], d), d, k - 1)
      case Stuck => Stuck
      case Reached(rest) => Reached([s] + rest)
  }

  /** From any node on the route to d, the tables lead along the rest of the route, one lookup an edge. */
  lemma {:induction false} WalkFollowsRoute(src: int, routes: seq<seq<int>>, tables: seq<Table>, d: int, i: int)
    requires TablesMatchRoutes(routes, tables)
    requires 0 <= d < |routes| && 0 <= i < |routes[d]| && IsTreeRoute(src, routes, d)
    ensures Follow(tables, routes[d][i], d, |routes[d]| - 1 - i) == Reached(routes[d][i..])
    decreases |routes[d]| - i
  {
    var r := routes[d];
    if i < |r| - 1 {
      LookupOnRoute(src, routes, tables, d, i);
      WalkFollowsRoute(src, routes, tables, d, i + 1);
      assert [r[i]] + r[i + 1..] == r[i..];
    }
  }

  lemma LookupOnRoute(src: int, routes: seq<seq<int>>, tables: seq<Table>, d: int, i: int)
    requires TablesMatchRoutes(routes, tables)
    requires 0 <= d < |routes| && 0 <= i < |routes[d]| - 1 && IsTreeRoute(src, routes, d)
    ensures 0 <= routes[d][i] < |tables|
    ensures FirstMatch(tables[routes[d][i]], d) == routes[d][i + 1]
  {
    var s := routes[d][i];
    assert TableHasRow(tables, routes[d][i], d);
    var k :| 0 <= k < |tables[s]| && tables[s][k].destination == d;
    assert RowsAreHops(routes, s, tables[s]);
    var j :| IsHopAt(routes[d], j, s, tables[s][k].nextHop);
    assert routes[d][j] == routes[d][i] && j == i;
    FirstMatchIsRow(tables[s], d, k);
  }

  // ----- how many rows there are -----

  lemma HopIsNotLast(src: int, routes: seq<seq<int>>, d: int, s: int, h: int)
    requires 0 <= d < |routes| && IsTreeRoute(src, routes, d) && IsHop(routes, d, s, h)
    ensures s != d
  {
    var i :| IsHopAt(routes[d], i, s, h);
    assert routes[d][i] != routes[d][|routes[d]| - 1];
  }

  /** Every table fits the n rows allocated for it, with one to spare. */
  lemma TableSize(src: int, routes: seq<seq<int>>, s: int, t: Table)
    requires IsRouteTree(src, routes) && 0 <= s < |routes|
    requires UniqueDestinations(t) && RowsAreHops(routes, s, t)
    ensures |t| <= |routes| - 1
  {
    var n := |routes|;
    var ds := seq(|t|, k requires 0 <= k < |t| => t[k].destination);
    assert NoDuplicates(ds) by {
      assert forall k, l | 0 <= k < l < |ds| :: t[k].destination != t[l].destination;
    }
    ElementCount(ds);
    var elems := set x | x in ds;
    forall k | 0 <= k < |ds| ensures 0 <= ds[k] < n && ds[k] != s {
      assert IsTreeRoute(src, routes, t[k].destination);
      HopIsNotLast(src, routes, t[k].destination, s, t[k].nextHop);
    }
    assert s !in elems && elems + {s} <= Range(n);
    FullSetIsRange(elems + {s}, n);
    assert |elems + {s}| == |elems| + 1;
  }

  function TotalRows(tables: seq<Table>): nat {
    if tables == [] then 0 else TotalRows(tables[..|tables| - 1]) + |tables[|tables| - 1]|
  }

  function TotalHops(routes: seq<seq<int>>): int {
    if routes == [] then 0 else TotalHops(routes[..|routes| - 1]) + |routes[|routes| - 1]| - 1
  }

  /** (s, d) for each row of each table, table by table. */
  function RowPairs(tables: seq<Table>): seq<(int, int)> {
    if tables == [] then []
    else
      var s := |tables| - 1;
      RowPairs(tables[..s]) + seq(|tables[s]|, k requires 0 <= k < |tables[s]| => (s, tables[s][k].destination))
  }

  /** (s, d) for each node s strictly before the end of the route to d, route by route. */
  function HopPairs(routes: seq<seq<int>>): seq<(int, int)>
    requires forall d | 0 <= d < |routes| :: |routes[d]| > 0
  {
    if routes == [] then []
    else
      var d := |routes| - 1;
      HopPairs(routes[..d]) + seq(|routes[d]| - 1, i requires 0 <= i < |routes[d]| - 1 => (routes[d][i], d))
  }

  lemma {:induction false} RowPairsAreDistinct(tables: seq<Table>)
    requires forall s | 0 <= s < |tables| :: UniqueDestinations(tables[s])
    ensures NoDuplicates(RowPairs(tables)) && |RowPairs(tables)| == TotalRows(tables)
    ensures forall k | 0 <= k < |RowPairs(tables)| :: 0 <= RowPairs(tables)[k].0 < |tables|
  {
    if tables != [] {
      RowPairsAreDistinct(tables[..|tables| - 1]);
    }
  }

  lemma {:induction false} RowPairsMembers(tables: seq<Table>, s: int, d: int)
    ensures (s, d) in RowPairs(tables) <==> TableHasRow(tables, s, d)
  {
    if tables != [] {
      var m := |tables| - 1;
      RowPairsMembers(tables[..m], s, d);
      var last := seq(|tables[m]|, k requires 0 <= k < |tables[m]| => (m, tables[m][k].destination));
      assert (s, d) in last <==> s == m && HasRow(tables[m], d) by {
        if s == m && HasRow(tables[m], d) {
          var k :| 0 <= k < |tables[m]| && tables[m][k].destination == d;
          assert last[k] == (s, d);
        }
      }
    }
  }

  lemma {:induction false} HopPairsAreDistinct(routes: seq<seq<int>>)
    requires forall d | 0 <= d < |routes| :: |routes[d]| > 0 && NoDuplicates(routes[d])
    ensures NoDuplicates(HopPairs(routes)) && |HopPairs(routes)| == TotalHops(routes)
    ensures forall k | 0 <= k < |HopPairs(routes)| :: 0 <= HopPairs(routes)[k].1 < |routes|
  {
    if routes != [] {
      HopPairsAreDistinct(routes[..|routes| - 1]);
      assert NoDuplicates(routes[|routes| - 1]);
    }
  }

  ghost predicate IsBefore(routes: seq<seq<int>>, s: int, d: int)
    requires 0 <= d < |routes|
  {
    exists i :: 0 <= i < |routes[d]| - 1 && routes[d][i] == s
  }

  lemma {:induction false} HopPairsMembers(routes: seq<seq<int>>, s: int, d: int)
    requires forall d | 0 <= d < |routes| :: |routes[d]| > 0
    ensures (s, d) in HopPairs(routes) <==> 0 <= d < |routes| && IsBefore(routes, s, d)
  {
    if routes != [] {
      var m := |routes| - 1;
      HopPairsMembers(routes[..m], s, d);
      if 0 <= d < m {
        assert IsBefore(routes[..m], s, d) <==> IsBefore(routes, s, d);
      }
      var last := seq(|routes[m]| - 1, i requires 0 <= i < |routes[m]| - 1 => (routes[m][i], m));
      assert (s, d) in last <==> d == m && IsBefore(routes, s, m) by {
        if d == m && IsBefore(routes, s, m) {
          var i :| 0 <= i < |routes[m]| - 1 && routes[m][i] == s;
          assert last[i] == (s, d);
        }
      }
    }
  }

  lemma RowForNodesBefore(routes: seq<seq<int>>, tables: seq<Table>, s: int, d: int)
    requires TablesMatchRoutes(routes, tables)
    ensures TableHasRow(tables, s, d) <==> (0 <= d < |routes| && IsBefore(routes, s, d))
  {
    if TableHasRow(tables, s, d) {
      var k :| 0 <= k < |tables[s]| && tables[s][k].destination == d;
      assert RowsAreHops(routes, s, tables[s]);
      var i :| IsHopAt(routes[d], i, s, tables[s][k].nextHop);
    }
    if 0 <= d < |routes| && IsBefore(routes, s, d) {
      var i :| 0 <= i < |routes[d]| - 1 && routes[d][i] == s;
      assert TableHasRow(tables, routes[d][i], d);
    }
  }

  /** The tables hold one row for each hop of each route. */
  lemma RowsCountHops(src: int, routes: seq<seq<int>>, tables: seq<Table>)
    requires IsRouteTree(src, routes) && TablesMatchRoutes(routes, tables)
    ensures TotalRows(tables) == TotalHops(routes)
  {
    forall d | 0 <= d < |routes| ensures |routes[d]| > 0 && NoDuplicates(routes[d]) {
      assert IsTreeRoute(src, routes, d);
    }
    var a, b := RowPairs(tables), HopPairs(routes);
    RowPairsAreDistinct(tables);
    HopPairsAreDistinct(routes);
    forall s, d ensures (s, d) in a <==> (s, d) in b {
      RowPairsMembers(tables, s, d);
      HopPairsMembers(routes, s, d);
      RowForNodesBefore(routes, tables, s, d);
    }
    ElementCount(a);
    ElementCount(b);
    var setA, setB := set x | x in a, set x | x in b;
    forall x: (int, int) ensures x in setA <==> x in setB {
      assert x == (x.0, x.1);
    }
    assert setA == setB;
  }
}
