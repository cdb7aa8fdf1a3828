/** The graph of the edges that both ends agree on, as a matrix over the node indices. */
module AgreedGraph {
  import opened Graphs
  import opened Reports

  function Addresses(nodes: seq<Node>): (a: seq<int>)
    ensures |a| == |nodes|
  {
    seq(|nodes|, i requires 0 <= i < |nodes| => nodes[i].address)
  }

  function AgreedMatrix(nodes: seq<Node>): (g: Matrix)
    requires AreNodes(nodes)
    ensures |g| == |nodes| && IsSquare(g)
  {
    seq(|nodes|, i requires 0 <= i < |nodes| =>
      seq(|nodes|, j requires 0 <= j < |nodes| =>
        AgreedWeight(AllReports(nodes), EdgeBetween(nodes[i].address, nodes[j].address))))
  }

  predicate WeightsWithin(nodes: seq<Node>, maxWeight: int)
    requires AreNodes(nodes)
  {
    forall i, j | 0 <= i < |nodes| && 0 <= j < |nodes[i].neighborAddresses| :: 0 < nodes[i].edgeWeights[j] <= maxWeight
  }

  predicate NeighboursAreKnown(nodes: seq<Node>)
    requires AreNodes(nodes)
  {
    forall i, j | 0 <= i < |nodes| && 0 <= j < |nodes[i].neighborAddresses| ::
      nodes[i].neighborAddresses[j] in Addresses(nodes)
  }

  lemma AgreedWeightIsReported(nodes: seq<Node>, e: Edge) returns (i: int, j: int)
    requires AreNodes(nodes) && Agreed(ReportsOf(AllReports(nodes), e))
    ensures 0 <= i < |nodes| && 0 <= j < |nodes[i].neighborAddresses|
    ensures AgreedWeight(AllReports(nodes), e) == nodes[i].edgeWeights[j]
  {
    var r := ReportsOf(AllReports(nodes), e)[0];
    ReportsOfMembers(AllReports(nodes), e, r);
    AllReportsMembers(nodes, r);
    i, j :| 0 <= i < |nodes| && 0 <= j < |nodes[i].neighborAddresses| && IsReportAt(nodes[i], j, r);
  }

  lemma AgreedEntry(nodes: seq<Node>, maxWeight: int, i: int, j: int)
    requires AreNodes(nodes) && WeightsWithin(nodes, maxWeight) && 0 <= maxWeight
    requires 0 <= i < |nodes| && 0 <= j < |nodes|
    ensures 0 <= AgreedMatrix(nodes)[i][j] <= maxWeight
    ensures AgreedMatrix(nodes)[i][j] == AgreedMatrix(nodes)[j][i]
    ensures i == j ==> AgreedMatrix(nodes)[i][j] == 0
  {
    var rs, a, b := AllReports(nodes), nodes[i].address, nodes[j].address;
    assert EdgeBetween(a, b) == EdgeBetween(b, a);
    SelfEdgeIsNotAgreed(rs, a);
    if Agreed(ReportsOf(rs, EdgeBetween(a, b))) {
      var k, l := AgreedWeightIsReported(nodes, EdgeBetween(a, b));
    }
  }

  /** The agreed edges form an undirected graph whose weights are reported weights. */
  lemma AgreedMatrixIsUndirected(nodes: seq<Node>, maxWeight: int)
    requires AreNodes(nodes) && WeightsWithin(nodes, maxWeight) && 0 <= maxWeight
    ensures IsUndirected(AgreedMatrix(nodes)) && WeightsAtMost(AgreedMatrix(nodes), maxWeight)
  {
    var g := AgreedMatrix(nodes);
    forall i, j | 0 <= i < |g| && 0 <= j < |g| ensures 0 <= g[i][j] <= maxWeight {
      AgreedEntry(nodes, maxWeight, i, j);
    }
    forall i, j | 0 <= i < |g| && 0 <= j < |g| ensures g[i][j] == g[j][i] {
      AgreedEntry(nodes, maxWeight, i, j);
    }
    forall i | 0 <= i < |g| ensures g[i][i] == 0 {
      AgreedEntry(nodes, maxWeight, i, i);
    }
  }

  /** The last weight a node reports for an address among its first k reports, or 0. */
  function LastWeight(node: Node, address: int, k: nat): int
    requires IsNode(node) && k <= |node.neighborAddresses|
  {
    if k == 0 then 0
    else if node.neighborAddresses[k - 1] == address then node.edgeWeights[k - 1]
    else LastWeight(node, address, k - 1)
  }

  /** It stands at the last entry for the address. */
  lemma {:induction false} LastWeightIsLast(node: Node, address: int, k: nat, j: nat)
    requires IsNode(node) && j < k <= |node.neighborAddresses| && node.neighborAddresses[j] == address
    requires forall l | j < l < k :: node.neighborAddresses[l] != address
    ensures LastWeight(node, address, k) == node.edgeWeights[j]
  {
    if j < k - 1 {
      LastWeightIsLast(node, address, k - 1, j);
    }
  }

  lemma {:induction false} LastWeightIsReported(node: Node, address: int, k: nat)
    requires IsNode(node) && k <= |node.neighborAddresses|
    ensures address in node.neighborAddresses[..k] ==>
              exists j :: 0 <= j < k && IsReportAt(node, j, Report(node.address, address, LastWeight(node, address, k)))
    ensures address !in node.neighborAddresses[..k] ==> LastWeight(node, address, k) == 0
  {
    if k > 0 {
      assert node.neighborAddresses[..k] == node.neighborAddresses[..k - 1] + [node.neighborAddresses[k - 1]];
      if node.neighborAddresses[k - 1] == address {
        assert IsReportAt(node, k - 1, Report(node.address, address, LastWeight(node, address, k)));
      } else {
        LastWeightIsReported(node, address, k - 1);
        if address in node.neighborAddresses[..k - 1] {
          var r := Report(node.address, address, LastWeight(node, address, k - 1));
          var j :| 0 <= j < k - 1 && IsReportAt(node, j, r);
          assert IsReportAt(node, j, Report(node.address, address, LastWeight(node, address, k)));
        }
      }
    }
  }

  /** What createAdjacencyMatrix leaves at (i, j): the last weight i reported for j, unless the edge is invalid. */
  function EntryOf(nodes: seq<Node>, invalid: seq<Edge>, i: int, j: int): int
    requires AreNodes(nodes) && 0 <= i < |nodes| && 0 <= j < |nodes|
  {
    var a, b := nodes[i].address, nodes[j].address;
    if Edge(a, b) in invalid || Edge(b, a) in invalid then 0
    else LastWeight(nodes[i], b, |nodes[i].neighborAddresses|)
  }

  /** An agreed edge was reported by each of its ends, so also by the node at index i. */
  lemma AgreedEdgeIsReportedBy(nodes: seq<Node>, i: int, b: int)
    requires AreNodes(nodes) && NoDuplicates(Addresses(nodes)) && 0 <= i < |nodes|
    requires Agreed(ReportsOf(AllReports(nodes), EdgeBetween(nodes[i].address, b)))
    ensures b in nodes[i].neighborAddresses
  {
    var rs, a, e := AllReports(nodes), nodes[i].address, EdgeBetween(nodes[i].address, b);
    var reports := ReportsOf(rs, e);
    ReportsOfMembers(rs, e, reports[0]);
    ReportsOfMembers(rs, e, reports[1]);
    var r := if reports[0].reporter == a then reports[0] else reports[1];
    assert EdgeOf(r) == e && r.reporter == a && r.neighbour == b;
    AllReportsMembers(nodes, r);
    var k, j :| 0 <= k < |nodes| && 0 <= j < |nodes[k].neighborAddresses| && IsReportAt(nodes[k], j, r);
    assert Addresses(nodes)[k] == Addresses(nodes)[i];
    assert k == i;
  }

  /** Whatever a node reports for an agreed edge is the agreed weight. */
  lemma ReportedWeightIsAgreed(nodes: seq<Node>, i: int, b: int)
    requires AreNodes(nodes) && 0 <= i < |nodes| && b in nodes[i].neighborAddresses
    ensures var reports := ReportsOf(AllReports(nodes), EdgeBetween(nodes[i].address, b));
            && reports != []
            && (Agreed(reports) ==> reports[0].weight == LastWeight(nodes[i], b, |nodes[i].neighborAddresses|))
  {
    var rs, a, n := AllReports(nodes), nodes[i].address, |nodes[i].neighborAddresses|;
    var e := EdgeBetween(a, b);
    assert nodes[i].neighborAddresses[..n] == nodes[i].neighborAddresses;
    LastWeightIsReported(nodes[i], b, n);
    var r := Report(a, b, LastWeight(nodes[i], b, n));
    var k :| 0 <= k < n && IsReportAt(nodes[i], k, r);
    AllReportsMembers(nodes, r);
    ReportsOfMembers(rs, e, r);
    var reports := ReportsOf(rs, e);
    var l :| 0 <= l < |reports| && reports[l] == r;
  }

  /** Zeroing the invalid edges leaves exactly the agreed weights. */
  lemma EntryIsAgreed(nodes: seq<Node>, invalid: seq<Edge>, i: int, j: int)
    requires AreNodes(nodes) && NoDuplicates(Addresses(nodes)) && 0 <= i < |nodes| && 0 <= j < |nodes|
    requires forall e: Edge :: e in invalid <==>
               e in FirstSeen(AllReports(nodes)) && !Agreed(ReportsOf(AllReports(nodes), e))
    ensures EntryOf(nodes, invalid, i, j) == AgreedMatrix(nodes)[i][j]
  {
    hide FirstSeen, ReportsOf, LastWeight, AllReports, Agreed;
    var rs, a, b := AllReports(nodes), nodes[i].address, nodes[j].address;
    var e, n := EdgeBetween(a, b), |nodes[i].neighborAddresses|;
    ForwardEdgesOnly(rs, a, b);
    FirstSeenIsReported(rs, e);
    assert Edge(a, b) in invalid || Edge(b, a) in invalid <==> e in invalid;
    if b in nodes[i].neighborAddresses {
      ReportedWeightIsAgreed(nodes, i, b);
    } else {
      LastWeightIsReported(nodes[i], b, n);
      assert nodes[i].neighborAddresses[..n] == nodes[i].neighborAddresses;
      if Agreed(ReportsOf(rs, e)) {
        AgreedEdgeIsReportedBy(nodes, i, b);
      }
    }
  }

  /** Reported edges name their lower end first. */
  lemma ForwardEdgesOnly(rs: seq<Report>, a: int, b: int)
    ensures a < b ==> Edge(b, a) !in FirstSeen(rs)
    ensures a > b ==> Edge(a, b) !in FirstSeen(rs)
  {
    FirstSeenIsReported(rs, Edge(b, a));
    FirstSeenIsReported(rs, Edge(a, b));
    if a < b && ReportsOf(rs, Edge(b, a)) != [] {
      ReportsOfMembers(rs, Edge(b, a), ReportsOf(rs, Edge(b, a))[0]);
      assert false;
    }
    if a > b && ReportsOf(rs, Edge(a, b)) != [] {
      ReportsOfMembers(rs, Edge(a, b), ReportsOf(rs, Edge(a, b))[0]);
      assert false;
    }
  }

  /** Both ends of a reported edge are known addresses when every neighbour is. */
  lemma ReportedEndsAreKnown(nodes: seq<Node>, e: Edge)
    requires AreNodes(nodes) && NeighboursAreKnown(nodes) && e in FirstSeen(AllReports(nodes))
    ensures e.low in Addresses(nodes) && e.high in Addresses(nodes)
  {
    var rs := AllReports(nodes);
    FirstSeenIsReported(rs, e);
    var r := ReportsOf(rs, e)[0];
    ReportsOfMembers(rs, e, r);
    AllReportsMembers(nodes, r);
    var i, j :| 0 <= i < |nodes| && 0 <= j < |nodes[i].neighborAddresses| && IsReportAt(nodes[i], j, r);
    assert Addresses(nodes)[i] == r.reporter;
  }
}
