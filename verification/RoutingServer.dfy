/** The routing server: from the nodes' reports to the address tables it sends back
    (home_exam/routing_server/src/routing_server.c). */
module RoutingServer {
  import opened CInt
  import opened Graphs
  import opened ShortestPaths
  import opened Dijkstra
  import opened Tables
  import opened RoutingTables
  import opened Reports
  import opened ReportCounts
  import opened Validation
  import opened AgreedGraph
  import opened AdjacencyMatrix
  import opened TableLookup
  import opened AddressPaths

  /** Looking d up from a sender on, each node in its own table, leads along a lightest path of agreed edges,
      without a loop, and arrives after as many lookups as the path has edges. */
  ghost predicate LeadsOptimally(nodes: seq<Node>, tables: seq<Table>, sender: int, d: int)
    requires AreNodes(nodes) && |tables| == |nodes|
  {
    exists p :: LeadsAlong(nodes, tables, sender, d, p)
  }

  /** The sender looks its packet's destination up at least once. That is the 16-bit field of the packet
      (node_communication.c:225-228, 505), and the node it names is where the packet is taken off. */
  ghost predicate LeadsAlong(nodes: seq<Node>, tables: seq<Table>, sender: int, d: int, p: seq<int>)
    requires AreNodes(nodes) && |tables| == |nodes|
  {
    && |p| > 1 && NoDuplicates(p)
    && Send(Addresses(nodes), tables, sender, ToUnsignedShort(d), |p| - 1) == Reached(p)
    && p[|p| - 1] == ToUnsignedShort(d)
    && IsLightestPath(nodes, p, sender, d)
  }

  /** An address that fits the packet's field. */
  predicate FitsField(d: int) {
    0 <= d < 65536
  }

  /** d is not the sender, fits the field, and no lightest path to it passes a node whose address is the value that
      stands for "not found". */
  ghost predicate IsDeliverable(nodes: seq<Node>, sender: int, d: int)
    requires AreNodes(nodes)
  {
    && d != sender && FitsField(d)
    && forall p | IsLightestPath(nodes, p, sender, d) :: -1 !in p
  }

  /** When the server accepts the reports: they all find room, name known nodes, and reach everyone from the sender. */
  ghost predicate Serviceable(nodes: seq<Node>, sender: int)
    requires AreNodes(nodes)
  {
    && Recordable(AllReports(nodes), MaxEdges(|nodes|))
    && NeighboursAreKnown(nodes)
    && CanReachAll(nodes, sender)
  }

  ghost predicate CanReachAll(nodes: seq<Node>, sender: int)
    requires AreNodes(nodes)
  {
    sender in Addresses(nodes) && forall d | d in Addresses(nodes) :: CanReach(nodes, sender, d)
  }

  /** Distinct addresses, as the assignment gives them. The weights, which it only calls integer numbers, must suit the
      algorithm: positive, as 0 marks a missing edge, and so small that any simple path weighs less than the largest
      int. */
  ghost predicate WellBehaved(nodes: seq<Node>, maxWeight: int) {
    && AreNodes(nodes) && |nodes| * (|nodes| - 1) <= 0x7fff_ffff && |nodes| <= 0x7fff_ffff
    && NoDuplicates(Addresses(nodes))
    && 0 <= maxWeight && WeightsWithin(nodes, maxWeight) && (|nodes| - 1) * maxWeight < 0x7fff_ffff
  }

  lemma MatchingTablesAreInRange(src: int, routes: seq<seq<int>>, tables: seq<Table>)
    requires IsRouteTree(src, routes) && TablesMatchRoutes(routes, tables)
    ensures TablesInRange(tables)
  {
    forall s, k | 0 <= s < |tables| && 0 <= k < |tables[s]|
      ensures 0 <= tables[s][k].destination < |tables| && 0 <= tables[s][k].nextHop < |tables|
    {
      var d := tables[s][k].destination;
      assert RowsAreHops(routes, s, tables[s]);
      assert IsHop(routes, d, s, tables[s][k].nextHop);
      var i :| IsHopAt(routes[d], i, s, tables[s][k].nextHop);
      assert IsTreeRoute(src, routes, d);
    }
  }

  /** The lookups of d by indices pass exactly its route, and are the lookups by addresses up to the first -1. */
  lemma LookupsAlongRoute(src: int, routes: seq<seq<int>>, tables: seq<Table>, a: seq<int>, d: int, k: nat)
    requires 0 <= src < |a| && 0 <= d < |routes| && IsTreeRoute(src, routes, d) && k < |routes[d]|
    requires TablesMatchRoutes(routes, tables) && TablesInRange(tables)
    requires |a| == |tables| && NoDuplicates(a)
    ensures InRange(routes[d], |a|)
    ensures Send(a, TranslatedAll(tables, a), a[src], a[d], k) ==
              var q := Renamed(routes[d], a)[..k + 1];
              if -1 in q[1..] then Stuck else Reached(q)
  {
    hide NoDuplicates, Send, Forward, Follow, TablesInRange, TranslatedAll;
    var r := routes[d];
    WalkFollowsRoute(src, routes, tables, d, 0);
    assert r[0..] == r;
    ForwardIsRenamedFollow(a, tables, src, d, |r| - 1);
    FollowPrefix(tables, src, d, |r| - 1, k);
    ForwardIsRenamedFollow(a, tables, src, d, k);
    assert Renamed(r[..k + 1], a) == Renamed(r, a)[..k + 1];
    TranslatedTablesAreUnique(routes, tables, a);
    SendIsForward(a, TranslatedAll(tables, a), a[src], a[d], k);
  }

  lemma LeadsAlongEnds(nodes: seq<Node>, tables: seq<Table>, sender: int, d: int, p: seq<int>)
    requires AreNodes(nodes) && |tables| == |nodes| && LeadsAlong(nodes, tables, sender, d, p)
    ensures |p| > 1 && NoDuplicates(p) && p[0] == sender && p[|p| - 1] == d && FitsField(d)
    ensures Send(Addresses(nodes), tables, sender, d, |p| - 1) == Reached(p)
  {
  }

  /** No other walk than the one along the route can lead to d. */
  lemma LeadsAlongRouteOnly(nodes: seq<Node>, src: int, routes: seq<seq<int>>, tables: seq<Table>, d: int, p: seq<int>)
    requires AreNodes(nodes) && NoDuplicates(Addresses(nodes)) && |tables| == |nodes|
    requires 0 <= src < |nodes| && nodes[src].address != -1 && 0 <= d < |routes| == |nodes|
    requires IsTreeRoute(src, routes, d) && TablesMatchRoutes(routes, tables) && TablesInRange(tables)
    requires LeadsAlong(nodes, TranslatedAll(tables, Addresses(nodes)), nodes[src].address, nodes[d].address, p)
    ensures InRange(routes[d], |nodes|) && p == Renamed(routes[d], Addresses(nodes)) && -1 !in p
  {
    hide LeadsAlong, Send, Forward, PrefixesAreRoutes, TablesMatchRoutes, TranslatedAll;
    LeadsAlongEnds(nodes, TranslatedAll(tables, Addresses(nodes)), nodes[src].address, nodes[d].address, p);
    var a, r, k := Addresses(nodes), routes[d], |p| - 1;
    var j := if k < |r| then k else |r| - 1;
    LookupsAlongRoute(src, routes, tables, a, d, j);
    TranslatedTablesAreUnique(routes, tables, a);
    SendIsForward(a, TranslatedAll(tables, a), a[src], a[d], k);
    SendIsForward(a, TranslatedAll(tables, a), a[src], a[d], j);
    ForwardPrefix(a, TranslatedAll(tables, a), a[src], a[d], k, j);
    RenamedIsDistinct(r, a);
    SamePrefixSameEnd(p, Renamed(r, a), j + 1);
  }

  lemma SamePrefixSameEnd(p: seq<int>, q: seq<int>, m: nat)
    requires NoDuplicates(p) && NoDuplicates(q) && 0 < m <= |p| && m <= |q| && (m == |p| || m == |q|)
    requires p[..m] == q[..m] && p[|p| - 1] == q[|q| - 1]
    ensures p == q
  {
    assert p[..m][m - 1] == q[..m][m - 1];
    assert |p| == |q|;
    assert p[..|p|] == p && q[..|q|] == q;
  }

  /** Translated tables that match a tree of shortest routes lead to d optimally exactly when d is not the sender, fits
      the field, and its route passes no node with the address -1. */
  lemma MatchingTablesLead(nodes: seq<Node>, src: int, dist: seq<int>, routes: seq<seq<int>>,
                              tables: seq<Table>, d: int)
    requires AreNodes(nodes) && NoDuplicates(Addresses(nodes))
    requires 0 <= src < |nodes| && nodes[src].address != -1 && 0 <= d < |nodes|
    requires IsShortestPathTree(AgreedMatrix(nodes), src, dist, routes)
    requires TablesMatchRoutes(routes, tables) && TablesInRange(tables) && |tables| == |nodes|
    ensures InRange(routes[d], |nodes|)
    ensures IsLightestPath(nodes, Renamed(routes[d], Addresses(nodes)), nodes[src].address, nodes[d].address)
    ensures LeadsOptimally(nodes, TranslatedAll(tables, Addresses(nodes)), nodes[src].address, nodes[d].address) <==>
            && d != src && FitsField(nodes[d].address)
            && -1 !in Renamed(routes[d], Addresses(nodes))
  {
    hide TablesMatchRoutes, NoDuplicates, IsLightestPath, IsAddressPath, Send, Forward, Follow;
    var g, a, r := AgreedMatrix(nodes), Addresses(nodes), routes[d];
    assert IsTreeRoute(src, routes, d);
    assert IsShortestRoute(g, src, d, dist[d], r);
    LookupsAlongRoute(src, routes, tables, a, d, |r| - 1);
    LeastPathIsLightest(nodes, r, src, d);
    RenamedIsDistinct(r, a);
    var q := Renamed(r, a);
    assert q[..|q|] == q && q[0] == a[src] && q[|q| - 1] == a[d];
    if d != src && FitsField(nodes[d].address) && -1 !in q {
      assert LeadsAlong(nodes, TranslatedAll(tables, a), a[src], a[d], q);
    }
    if p :| LeadsAlong(nodes, TranslatedAll(tables, a), a[src], a[d], p) {
      LeadsAlongRouteOnly(nodes, src, routes, tables, d, p);
    }
  }

  lemma MatchingTablesLeadToDeliverable(nodes: seq<Node>, src: int, dist: seq<int>, routes: seq<seq<int>>,
                                        tables: seq<Table>)
    requires AreNodes(nodes) && NoDuplicates(Addresses(nodes))
    requires 0 <= src < |nodes| && nodes[src].address != -1
    requires IsShortestPathTree(AgreedMatrix(nodes), src, dist, routes)
    requires TablesMatchRoutes(routes, tables) && TablesInRange(tables) && |tables| == |nodes|
    ensures forall i | 0 <= i < |nodes| && IsDeliverable(nodes, nodes[src].address, nodes[i].address) ::
              LeadsOptimally(nodes, TranslatedAll(tables, Addresses(nodes)), nodes[src].address, nodes[i].address)
  {
    hide LeadsOptimally, IsShortestPathTree, TablesMatchRoutes, IsLightestPath;
    forall i | 0 <= i < |nodes| && IsDeliverable(nodes, nodes[src].address, nodes[i].address)
      ensures LeadsOptimally(nodes, TranslatedAll(tables, Addresses(nodes)), nodes[src].address, nodes[i].address)
    {
      MatchingTablesLead(nodes, src, dist, routes, tables, i);
    }
  }

  lemma RenamedIsDistinct(p: seq<int>, addresses: seq<int>)
    requires NoDuplicates(p) && NoDuplicates(addresses) && InRange(p, |addresses|)
    ensures NoDuplicates(Renamed(p, addresses))
  {
  }

  lemma TranslatedTablesAreUnique(routes: seq<seq<int>>, tables: seq<Table>, addresses: seq<int>)
    requires TablesMatchRoutes(routes, tables) && TablesInRange(tables)
    requires |addresses| == |tables| && NoDuplicates(addresses)
    ensures forall s | 0 <= s < |tables| :: UniqueDestinations(TranslatedAll(tables, addresses)[s])
  {
    forall s | 0 <= s < |tables| ensures UniqueDestinations(TranslatedAll(tables, addresses)[s]) {
      TranslationKeepsUnique(tables[s], addresses);
    }
  }

  /** No node gets a row for its own address. */
  lemma NoRowForItself(src: int, routes: seq<seq<int>>, tables: seq<Table>, addresses: seq<int>)
    requires IsRouteTree(src, routes) && TablesMatchRoutes(routes, tables) && TablesInRange(tables)
    requires |addresses| == |tables| && NoDuplicates(addresses)
    ensures forall s | 0 <= s < |tables| :: !HasRow(TranslatedAll(tables, addresses)[s], addresses[s])
  {
    forall s, k | 0 <= s < |tables| && 0 <= k < |tables[s]|
      ensures TranslatedAll(tables, addresses)[s][k].destination != addresses[s]
    {
      var row := tables[s][k];
      assert RowsAreHops(routes, s, tables[s]);
      assert IsTreeRoute(src, routes, row.destination);
      HopIsNotLast(src, routes, row.destination, s, row.nextHop);
      assert addresses[row.destination] != addresses[s];
    }
  }

  lemma SenderReachesAllIff(nodes: seq<Node>, src: int)
    requires AreNodes(nodes) && NoDuplicates(Addresses(nodes)) && 0 <= src < |nodes|
    ensures AllReachable(AgreedMatrix(nodes), src) <==> CanReachAll(nodes, nodes[src].address)
  {
    forall i | 0 <= i < |nodes|
      ensures Addresses(nodes)[i] in Addresses(nodes)
      ensures Reachable(AgreedMatrix(nodes), src, i) <==> CanReach(nodes, nodes[src].address, Addresses(nodes)[i])
    {
      CanReachIffReachable(nodes, src, i);
    }
    assert Addresses(nodes)[src] == nodes[src].address;
    if CanReachAll(nodes, nodes[src].address) {
      forall i | 0 <= i < |nodes| ensures Reachable(AgreedMatrix(nodes), src, i) {
        assert CanReach(nodes, nodes[src].address, Addresses(nodes)[i]);
      }
    }
  }

  /** Where every entry is answered, every neighbour is a node. */
  lemma AnsweredNeighboursAreKnown(nodes: seq<Node>)
    requires AreNodes(nodes) && EveryEntryIsAnswered(nodes)
    ensures NeighboursAreKnown(nodes)
  {
    forall i, x | 0 <= i < |nodes| && 0 <= x < |nodes[i].neighborAddresses|
      ensures nodes[i].neighborAddresses[x] in Addresses(nodes)
    {
      var a, b, w := nodes[i].address, nodes[i].neighborAddresses[x], nodes[i].edgeWeights[x];
      assert IsAgreedLink(nodes, a, b, w);
      var k, z, j, y :| AnswerEachOther(nodes, k, z, j, y, a, b, w);
      assert Addresses(nodes)[j] == b;
    }
  }

  /** Stages one to three of main (lines 72-98). */
  method BuildGraph(nodes: seq<Node>, ghost maxWeight: int)
    returns (ok: bool, indexToAddress: array<int>, adj: array2<int>)
    requires WellBehaved(nodes, maxWeight)
    ensures fresh(indexToAddress) && fresh(adj)
    ensures indexToAddress[..] == Addresses(nodes) && adj.Length0 == adj.Length1 == |nodes|
    ensures ok <==> Recordable(AllReports(nodes), MaxEdges(|nodes|)) && NeighboursAreKnown(nodes)
    ensures EveryEntryIsAnswered(nodes) ==>
              (ok <==> |nodes| < 2 || exists i, j :: 0 <= i < j < |nodes| && !ListsAddressOf(nodes, i, j))
    ensures ok ==> MatrixOf(adj) == AgreedMatrix(nodes)
  {
    hide Recordable, EveryEntryIsAnswered, ListsAddressOf, MaxEdges;
    var n := |nodes|;
    indexToAddress := new int[n];
    adj := new int[n, n];
    for i := 0 to n
      invariant forall j | 0 <= j < i :: indexToAddress[j] == nodes[j].address
    {
      indexToAddress[i] := nodes[i].address;
    }
    assert indexToAddress[..] == Addresses(nodes);
    if EveryEntryIsAnswered(nodes) {
      AnsweredNeighboursAreKnown(nodes);
    }
    var invalid := new PrefixArray<Edge>(MaxEdges(n), Edge(-1, -1));
    ok := CheckAllNodesReceived(nodes, invalid);
    if !ok {
      return;
    }
    MatrixAgreesWithValidEdges(nodes, invalid.Contents());
    ok, adj := CreateAdjacencyMatrix(nodes, indexToAddress, invalid);
    if ok {
      assert forall i | 0 <= i < n :: MatrixOf(adj)[i] == AgreedMatrix(nodes)[i];
    }
  }

  /** sendRoutingTables: the tables as the nodes receive them. */
  method SendRoutingTables(tables: RoutingTableArray, indexToAddress: array<int>) returns (sent: seq<Table>)
    requires tables.Valid() && indexToAddress.Length == tables.n && TablesInRange(tables.TableSeq())
    ensures sent == TranslatedAll(tables.TableSeq(), indexToAddress[..])
  {
    sent := [];
    for i := 0 to tables.n
      invariant |sent| == i
      invariant forall s | 0 <= s < i :: sent[s] == TranslatedAll(tables.TableSeq(), indexToAddress[..])[s]
    {
      assert tables.TableSeq()[i] == tables.TableOf(i);
      var rows := TranslateTableFromIdxToAddress(tables, i, indexToAddress);
      sent := sent + [rows[..]];
    }
  }

  /** Tables that lead to d optimally, whatever they are, lead to another node than the sender, whose address fits the
      field, along a lightest path without the address -1. */
  lemma {:induction false} LeadsOnlyToDeliverable(nodes: seq<Node>, tables: seq<Table>, sender: int, d: int)
    requires AreNodes(nodes) && |tables| == |nodes| && LeadsOptimally(nodes, tables, sender, d) && sender != -1
    ensures d != sender && 0 <= d < 65536
    ensures exists p :: IsLightestPath(nodes, p, sender, d) && -1 !in p
  {
    var p :| LeadsAlong(nodes, tables, sender, d, p);
    assert p[0] != p[|p| - 1];
    SentWalkAvoidsNotFound(Addresses(nodes), tables, sender, ToUnsignedShort(d), |p| - 1);
  }

  /** When all addresses fit the field, every node but the sender is deliverable, and only then can all of them be. */
  lemma AllDeliverableIff(nodes: seq<Node>, tables: seq<Table>, sender: int)
    requires AreNodes(nodes) && |tables| == |nodes| && FitsField(sender)
    requires forall i | 0 <= i < |nodes| && IsDeliverable(nodes, sender, nodes[i].address) ::
               LeadsOptimally(nodes, tables, sender, nodes[i].address)
    ensures (forall i | 0 <= i < |nodes| && nodes[i].address != sender ::
              LeadsOptimally(nodes, tables, sender, nodes[i].address)) <==>
            (forall i | 0 <= i < |nodes| :: FitsField(nodes[i].address))
  {
    hide LeadsOptimally;
    forall i | 0 <= i < |nodes| && LeadsOptimally(nodes, tables, sender, nodes[i].address)
      ensures FitsField(nodes[i].address)
    {
      LeadsOnlyToDeliverable(nodes, tables, sender, nodes[i].address);
    }
    if forall i | 0 <= i < |nodes| :: FitsField(nodes[i].address) {
      assert -1 !in Addresses(nodes);
      forall i | 0 <= i < |nodes| && nodes[i].address != sender
        ensures IsDeliverable(nodes, sender, nodes[i].address)
      {
      }
    }
  }

  /** From the matrix to the tables (lines 114-139). */
  method ComputeTables(src: int, adj: array2<int>, ghost maxWeight: int)
    returns (ok: bool, tables: RoutingTableArray, ghost dist: seq<int>, ghost routes: seq<seq<int>>)
    requires adj.Length0 == adj.Length1 && 0 <= src < adj.Length0 <= INT_MAX
    requires IsUndirected(MatrixOf(adj)) && WeightBound(MatrixOf(adj), maxWeight)
    ensures ok <==> AllReachable(MatrixOf(adj), src)
    ensures ok ==> tables.Valid() && tables.n == adj.Length0 && TablesInRange(tables.TableSeq())
    ensures ok ==> IsShortestPathTree(MatrixOf(adj), src, dist, routes) && IsRouteTree(src, routes)
    ensures ok ==> TablesMatchRoutes(routes, tables.TableSeq())
  {
    hide IsShortestPathTree, TablesMatchRoutes, IsRouteTree, TablesInRange, AllReachable;
    tables := new RoutingTableArray(0);
    var distances := new int[adj.Length0];
    var routeArray;
    ok, routeArray := Dijkstra.Dijkstra(src, adj, distances, maxWeight);
    dist, routes := distances[..], routeArray.Routes();
    if !ok {
      return;
    }
    ShortestPathTreeIsRouteTree(MatrixOf(adj), src, dist, routes);
    tables := CreateRoutingTableArray(routeArray, src);
    MatchingTablesAreInRange(src, routes, tables.TableSeq());
  }

  /** The whole of main: succeeds exactly on serviceable reports. The tables it sends then lead optimally from address 1
      to every deliverable node, and to all nodes but the sender exactly when every address fits the packet's field. No
      node gets a row for itself, so the sender cannot send to its own address. In particular, if every entry of every
      list is answered, it succeeds exactly when some two nodes are not linked, or there is only one node, and node 1
      reaches all the others. */
  method RunRoutingServer(nodes: seq<Node>, ghost maxWeight: int) returns (ok: bool, sent: seq<Table>)
    requires WellBehaved(nodes, maxWeight)
    ensures ok <==> Serviceable(nodes, 1)
    ensures EveryEntryIsAnswered(nodes) ==>
              (ok <==> (|nodes| == 1 || exists i, j :: 0 <= i < j < |nodes| && !ListsAddressOf(nodes, i, j))
                       && CanReachAll(nodes, 1))
    ensures ok ==> |sent| == |nodes|
    ensures ok ==> forall i | 0 <= i < |nodes| && IsDeliverable(nodes, 1, nodes[i].address) ::
                     LeadsOptimally(nodes, sent, 1, nodes[i].address)
    ensures ok ==> ((forall i | 0 <= i < |nodes| && nodes[i].address != 1 ::
                       LeadsOptimally(nodes, sent, 1, nodes[i].address)) <==>
                    (forall i | 0 <= i < |nodes| :: 0 <= nodes[i].address < 65536))
    ensures ok ==> forall i | 0 <= i < |nodes| :: !HasRow(sent[i], nodes[i].address)
  {
    hide WellBehaved, LeadsOptimally, IsShortestPathTree, TablesMatchRoutes, IsRouteTree, IsDeliverable, HasRow,
         TablesInRange, AllReachable, CanReach, Recordable, TranslatedAll, NoDuplicates, EveryEntryIsAnswered,
         ListsAddressOf;
    sent := [];
    WellBehavedGraph(nodes, maxWeight);
    var indexToAddress, adj;
    ok, indexToAddress, adj := BuildGraph(nodes, maxWeight);
    if !ok {
      return;
    }
    var src;
    ok, src := GetIndexFromAddress(1, indexToAddress);
    if !ok {
      return;
    }
    assert nodes[src].address == Addresses(nodes)[src];
    SenderReachesAllIff(nodes, src);
    var tables;
    ghost var dist, routes;
    ok, tables, dist, routes := ComputeTables(src, adj, maxWeight);
    if !ok {
      return;
    }
    sent := SendRoutingTables(tables, indexToAddress);
    MatchingTablesLeadToDeliverable(nodes, src, dist, routes, tables.TableSeq());
    AllDeliverableIff(nodes, sent, 1);
    NoRowForItself(src, routes, tables.TableSeq(), Addresses(nodes));
  }

  lemma WellBehavedGraph(nodes: seq<Node>, maxWeight: int)
    requires WellBehaved(nodes, maxWeight)
    ensures AreNodes(nodes) && NoDuplicates(Addresses(nodes)) && |nodes| <= INT_MAX
    ensures IsUndirected(AgreedMatrix(nodes)) && WeightBound(AgreedMatrix(nodes), maxWeight)
  {
    AgreedMatrixIsUndirected(nodes, maxWeight);
  }

  lemma ShortestPathTreeIsRouteTree(g: Matrix, src: int, dist: seq<int>, routes: seq<seq<int>>)
    requires IsSquare(g) && IsShortestPathTree(g, src, dist, routes)
    ensures IsRouteTree(src, routes) && |routes| == |g|
  {
  }
}
