/** The edge reports the nodes send, and which edges they agree on. Nothing here mentions counters or arrays. */
module Reports {
  import opened Graphs

  datatype Edge = Edge(low: int, high: int)

  /** One node's report of an edge to a neighbour. */
  datatype Report = Report(reporter: int, neighbour: int, weight: int)

  datatype Node = Node(address: int, neighborAddresses: seq<int>, edgeWeights: seq<int>)

  predicate IsNode(node: Node) {
    |node.neighborAddresses| == |node.edgeWeights|
  }

  predicate AreNodes(nodes: seq<Node>) {
    forall i | 0 <= i < |nodes| :: IsNode(nodes[i])
  }

  function EdgeBetween(a: int, b: int): Edge {
    Edge(if a < b then a else b, if a > b then a else b)
  }

  function EdgeOf(r: Report): Edge {
    EdgeBetween(r.reporter, r.neighbour)
  }

  /** The first k reports of a node. */
  function NodeReports(node: Node, k: nat): (rs: seq<Report>)
    requires IsNode(node) && k <= |node.neighborAddresses|
    ensures |rs| == k
  {
    seq(k, j requires 0 <= j < k => Report(node.address, node.neighborAddresses[j], node.edgeWeights[j]))
  }

  /** All reports, node by node. */
  function AllReports(nodes: seq<Node>): seq<Report>
    requires AreNodes(nodes)
  {
    if nodes == [] then []
    else
      var last := nodes[|nodes| - 1];
      AllReports(nodes[..|nodes| - 1]) + NodeReports(last, |last.neighborAddresses|)
  }

  /** The reports of one edge, in the order they came. */
  function ReportsOf(rs: seq<Report>, e: Edge): seq<Report> {
    if rs == [] then []
    else
      var last := rs[|rs| - 1];
      ReportsOf(rs[..|rs| - 1], e) + (if EdgeOf(last) == e then [last] else [])
  }

  /** The reported edges, in the order they were first reported. */
  function FirstSeen(rs: seq<Report>): seq<Edge> {
    if rs == [] then []
    else
      var seen, e := FirstSeen(rs[..|rs| - 1]), EdgeOf(rs[|rs| - 1]);
      if e in seen then seen else seen + [e]
  }

  /** Reported exactly twice, by the two different ends, with the same weight. */
  predicate Agreed(reports: seq<Report>) {
    |reports| == 2 && reports[0].reporter != reports[1].reporter && reports[0].weight == reports[1].weight
  }

  /** The weight both ends agree on, or 0. */
  function AgreedWeight(rs: seq<Report>, e: Edge): int {
    var reports := ReportsOf(rs, e);
    if Agreed(reports) then reports[0].weight else 0
  }

  /** What the code can know to be wrong before all reports are in. */
  predicate WrongAlready(reports: seq<Report>) {
    |reports| > 2 || (|reports| == 2 && !Agreed(reports))
  }

  /** Whether one more report finds room: the scan of the full counter array stops one short of its end. */
  predicate CanRecord(rs: seq<Report>, r: Report, maxEdges: int) {
    |FirstSeen(rs)| < maxEdges ||
    (0 < maxEdges <= |FirstSeen(rs)| && EdgeOf(r) in FirstSeen(rs)[..maxEdges - 1])
  }

  predicate Recordable(rs: seq<Report>, maxEdges: int) {
    rs == [] || (Recordable(rs[..|rs| - 1], maxEdges) && CanRecord(rs[..|rs| - 1], rs[|rs| - 1], maxEdges))
  }

  // ----- one report more -----

  lemma OneMore(rs: seq<Report>, r: Report, e: Edge)
    ensures ReportsOf(rs + [r], e) == ReportsOf(rs, e) + (if EdgeOf(r) == e then [r] else [])
    ensures FirstSeen(rs + [r]) == if EdgeOf(r) in FirstSeen(rs) then FirstSeen(rs) else FirstSeen(rs) + [EdgeOf(r)]
  {
    assert (rs + [r])[..|rs|] == rs;
  }

  lemma {:induction false} FirstSeenIsDistinct(rs: seq<Report>)
    ensures NoDuplicates(FirstSeen(rs))
  {
    if rs != [] {
      FirstSeenIsDistinct(rs[..|rs| - 1]);
    }
  }

  lemma {:induction false} FirstSeenIsReported(rs: seq<Report>, e: Edge)
    ensures NoDuplicates(FirstSeen(rs))
    ensures e in FirstSeen(rs) <==> ReportsOf(rs, e) != []
  {
    FirstSeenIsDistinct(rs);
    hide NoDuplicates;
    if rs != [] {
      FirstSeenIsReported(rs[..|rs| - 1], e);
    }
  }

  lemma {:induction false} ReportsOfMembers(rs: seq<Report>, e: Edge, r: Report)
    ensures r in ReportsOf(rs, e) <==> r in rs && EdgeOf(r) == e
  {
    if rs != [] {
      ReportsOfMembers(rs[..|rs| - 1], e, r);
      assert rs == rs[..|rs| - 1] + [rs[|rs| - 1]];
    }
  }

  lemma {:induction false} RecordablePrefix(rs: seq<Report>, k: nat, maxEdges: int)
    requires k <= |rs| && Recordable(rs, maxEdges)
    ensures Recordable(rs[..k], maxEdges)
  {
    if k < |rs| {
      RecordablePrefix(rs[..|rs| - 1], k, maxEdges);
      assert rs[..|rs| - 1][..k] == rs[..k];
    }
    else {
      assert rs[..k] == rs;
    }
  }

  /** All reports find room exactly when fewer than maxEdges edges are reported, or exactly maxEdges are and the one
      reported last of them for the first time is never reported again. */
  lemma {:induction false} RecordableIff(rs: seq<Report>, maxEdges: int)
    requires 0 <= maxEdges
    ensures Recordable(rs, maxEdges) <==>
              || rs == []
              || |FirstSeen(rs)| < maxEdges
              || (|FirstSeen(rs)| == maxEdges && |ReportsOf(rs, FirstSeen(rs)[maxEdges - 1])| == 1)
  {
    if rs != [] {
      var before, r := rs[..|rs| - 1], rs[|rs| - 1];
      assert rs == before + [r];
      RecordableIff(before, maxEdges);
      var seen, e := FirstSeen(before), EdgeOf(r);
      FirstSeenIsReported(before, e);
      if 0 < |seen| == maxEdges {
        var last := seen[maxEdges - 1];
        OneMore(before, r, last);
        FirstSeenIsReported(before, last);
        assert e in seen[..maxEdges - 1] <==> e in seen && e != last;
      } else {
        OneMore(before, r, e);
      }
    }
  }

  /** When both ends agree on every reported edge, the reports find room exactly when fewer than maxEdges edges are
      reported: a graph that has all its n(n-1)/2 edges is turned away. */
  lemma AgreeingReportsRecordableIff(rs: seq<Report>, maxEdges: int)
    requires 0 <= maxEdges && rs != []
    requires forall e | e in FirstSeen(rs) :: Agreed(ReportsOf(rs, e))
    ensures Recordable(rs, maxEdges) <==> |FirstSeen(rs)| < maxEdges
  {
    RecordableIff(rs, maxEdges);
    if |FirstSeen(rs)| == maxEdges {
      FirstSeenIsReported(rs, EdgeOf(rs[|rs| - 1]));
      assert rs == rs[..|rs| - 1] + [rs[|rs| - 1]];
      OneMore(rs[..|rs| - 1], rs[|rs| - 1], EdgeOf(rs[|rs| - 1]));
      assert FirstSeen(rs)[maxEdges - 1] in FirstSeen(rs);
    }
  }

  /** The smallest such graph: two nodes, one edge, reported by both ends with the same weight. */
  lemma CompleteGraphIsTurnedAway()
    ensures var rs := [Report(1, 2, 7), Report(2, 1, 7)];
            Agreed(ReportsOf(rs, Edge(1, 2))) && FirstSeen(rs) == [Edge(1, 2)] && !Recordable(rs, MaxEdges(2))
  {
  }

  /** No self-edge is ever agreed on: both of its ends are the same. */
  lemma SelfEdgeIsNotAgreed(rs: seq<Report>, a: int)
    ensures !Agreed(ReportsOf(rs, Edge(a, a)))
  {
    var reports := ReportsOf(rs, Edge(a, a));
    if Agreed(reports) {
      ReportsOfMembers(rs, Edge(a, a), reports[0]);
      ReportsOfMembers(rs, Edge(a, a), reports[1]);
      assert false;
    }
  }

  // ----- where a report comes from -----

  lemma {:induction false} AllReportsMembers(nodes: seq<Node>, r: Report)
    requires AreNodes(nodes)
    ensures r in AllReports(nodes) <==>
              exists i, j :: 0 <= i < |nodes| && 0 <= j < |nodes[i].neighborAddresses| && IsReportAt(nodes[i], j, r)
  {
    if nodes != [] {
      var m := |nodes| - 1;
      AllReportsMembers(nodes[..m], r);
      var last := NodeReports(nodes[m], |nodes[m].neighborAddresses|);
      if i, j :| 0 <= i < |nodes| && 0 <= j < |nodes[i].neighborAddresses| && IsReportAt(nodes[i], j, r) {
        if i == m {
          assert last[j] == r;
        } else {
          assert nodes[..m][i] == nodes[i];
        }
      }
      if r in last {
        var j :| 0 <= j < |last| && last[j] == r;
        assert IsReportAt(nodes[m], j, r);
      }
    }
  }

  /** An undirected graph of n nodes has at most this many edges. */
  function MaxEdges(n: nat): nat {
    n * (n - 1) / 2
  }

  /** The division leaves no rest. */
  lemma {:induction false} MaxEdgesTwice(n: nat)
    ensures 2 * MaxEdges(n) == n * (n - 1)
  {
    if n > 0 {
      MaxEdgesTwice(n - 1);
      assert n * (n - 1) == (n - 1) * (n - 2) + 2 * (n - 1);
    }
  }

  predicate IsReportAt(node: Node, j: int, r: Report)
    requires IsNode(node) && 0 <= j < |node.neighborAddresses|
  {
    r == Report(node.address, node.neighborAddresses[j], node.edgeWeights[j])
  }

  /** Reading the reports node by node, each prefix read so far is a prefix of all of them. */
  lemma {:induction false} ReadSoFar(nodes: seq<Node>, i: nat, j: nat)
    requires AreNodes(nodes) && i < |nodes| && j <= |nodes[i].neighborAddresses|
    ensures AllReports(nodes[..i]) + NodeReports(nodes[i], j) <= AllReports(nodes)
    ensures j == |nodes[i].neighborAddresses| ==>
              AllReports(nodes[..i]) + NodeReports(nodes[i], j) == AllReports(nodes[..i + 1])
  {
    assert nodes[..i + 1][..i] == nodes[..i];
    var m := |nodes| - 1;
    if i < m {
      ReadSoFar(nodes[..m], i, j);
      assert nodes[..m][..i] == nodes[..i];
    } else {
      assert NodeReports(nodes[i], j) <= NodeReports(nodes[m], |nodes[m].neighborAddresses|);
    }
  }
}
