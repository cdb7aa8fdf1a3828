/** Paths between addresses over the edges both ends agree on, with no mention of indices. */
module AddressPaths {
  import opened Graphs
  import opened Reports
  import opened ReportCounts
  import opened AgreedGraph
  import opened TableLookup

  function LinkWeight(nodes: seq<Node>, a: int, b: int): int
    requires AreNodes(nodes)
  {
    AgreedWeight(AllReports(nodes), EdgeBetween(a, b))
  }

  predicate IsAddressPath(nodes: seq<Node>, p: seq<int>, a: int, b: int)
    requires AreNodes(nodes)
  {
    && |p| > 0 && p[0] == a && p[|p| - 1] == b
    && (forall i | 0 <= i < |p| :: p[i] in Addresses(nodes))
    && (forall i | 0 < i < |p| :: LinkWeight(nodes, p[i - 1], p[i]) != 0)
  }

  function AddressPathWeight(nodes: seq<Node>, p: seq<int>): int
    requires AreNodes(nodes)
  {
    if |p| <= 1 then 0
    else AddressPathWeight(nodes, p[..|p| - 1]) + LinkWeight(nodes, p[|p| - 2], p[|p| - 1])
  }

  /** The weight of a link, as the two nodes' own lists have it. */
  lemma LinkWeightIff(nodes: seq<Node>, a: int, b: int, w: int)
    requires AreNodes(nodes) && w != 0
    ensures LinkWeight(nodes, a, b) == w <==> IsAgreedLink(nodes, a, b, w)
  {
    AgreedLinkIff(nodes, a, b, w);
  }

  /** The weight of a path is the sum of the weights of its links: cut at any of its nodes, it is the sum of the weights
      of the two parts, and a single link weighs what the link weighs. */
  lemma {:induction false} PathWeightIsSum(nodes: seq<Node>, p: seq<int>, k: nat)
    requires AreNodes(nodes) && k < |p|
    ensures AddressPathWeight(nodes, p) == AddressPathWeight(nodes, p[..k + 1]) + AddressPathWeight(nodes, p[k..])
    ensures |p| == 2 ==> AddressPathWeight(nodes, p) == LinkWeight(nodes, p[0], p[1])
  {
    hide LinkWeight;
    if k == |p| - 1 {
      assert p[..k + 1] == p;
    } else {
      var q := p[..|p| - 1];
      PathWeightIsSum(nodes, q, k);
      assert q[..k + 1] == p[..k + 1] && q[k..] == p[k..][..|p| - k - 1];
    }
  }

  ghost predicate CanReach(nodes: seq<Node>, a: int, b: int)
    requires AreNodes(nodes)
  {
    exists p :: IsAddressPath(nodes, p, a, b)
  }

  /** p is a path of agreed edges, and none between its ends weighs less. */
  ghost predicate IsLightestPath(nodes: seq<Node>, p: seq<int>, a: int, b: int)
    requires AreNodes(nodes)
  {
    && IsAddressPath(nodes, p, a, b)
    && forall q | IsAddressPath(nodes, q, a, b) :: AddressPathWeight(nodes, p) <= AddressPathWeight(nodes, q)
  }

  // ----- from indices to addresses and back -----

  function Indices(p: seq<int>, addresses: seq<int>): (r: seq<int>)
    ensures |r| == |p|
  {
    seq(|p|, i requires 0 <= i < |p| => IndexOf(addresses, p[i]))
  }

  lemma {:induction false} RenamedWeight(nodes: seq<Node>, p: seq<int>)
    requires AreNodes(nodes) && IsPath(AgreedMatrix(nodes), p)
    ensures AddressPathWeight(nodes, Renamed(p, Addresses(nodes))) == PathWeight(AgreedMatrix(nodes), p)
  {
    hide AgreedWeight, EdgeBetween, AllReports;
    var g, q := AgreedMatrix(nodes), Renamed(p, Addresses(nodes));
    if |p| > 1 {
      assert IsEdge(g, p[|p| - 2], p[|p| - 1]);
      RenamedWeight(nodes, p[..|p| - 1]);
      assert q[..|q| - 1] == Renamed(p[..|p| - 1], Addresses(nodes));
    }
  }

  lemma RenamedIsAddressPath(nodes: seq<Node>, p: seq<int>, s: int, d: int)
    requires AreNodes(nodes) && IsPathBetween(AgreedMatrix(nodes), p, s, d)
    ensures IsAddressPath(nodes, Renamed(p, Addresses(nodes)), nodes[s].address, nodes[d].address)
  {
    var q := Renamed(p, Addresses(nodes));
    forall i | 0 <= i < |q| ensures q[i] in Addresses(nodes) {
      assert Addresses(nodes)[p[i]] == q[i];
    }
    forall i | 0 < i < |q| ensures LinkWeight(nodes, q[i - 1], q[i]) != 0 {
      assert IsEdge(AgreedMatrix(nodes), p[i - 1], p[i]);
    }
  }

  lemma IndicesArePath(nodes: seq<Node>, q: seq<int>, s: int, d: int)
    requires AreNodes(nodes) && NoDuplicates(Addresses(nodes)) && 0 <= s < |nodes| && 0 <= d < |nodes|
    requires IsAddressPath(nodes, q, nodes[s].address, nodes[d].address)
    ensures IsPathBetween(AgreedMatrix(nodes), Indices(q, Addresses(nodes)), s, d)
    ensures Renamed(Indices(q, Addresses(nodes)), Addresses(nodes)) == q
  {
    var g, p := AgreedMatrix(nodes), Indices(q, Addresses(nodes));
    forall i | 0 <= i < |p| ensures 0 <= p[i] < |g| && Addresses(nodes)[p[i]] == q[i] {
      assert q[i] in Addresses(nodes);
    }
    forall i | 0 < i < |p| ensures IsEdge(g, p[i - 1], p[i]) {
      assert LinkWeight(nodes, q[i - 1], q[i]) != 0;
    }
    assert Addresses(nodes)[p[0]] == Addresses(nodes)[s] && Addresses(nodes)[p[|p| - 1]] == Addresses(nodes)[d];
  }

  /** Reachability by addresses is reachability by indices. */
  lemma CanReachIffReachable(nodes: seq<Node>, s: int, d: int)
    requires AreNodes(nodes) && NoDuplicates(Addresses(nodes)) && 0 <= s < |nodes| && 0 <= d < |nodes|
    ensures CanReach(nodes, nodes[s].address, nodes[d].address) <==> Reachable(AgreedMatrix(nodes), s, d)
  {
    if q :| IsAddressPath(nodes, q, nodes[s].address, nodes[d].address) {
      IndicesArePath(nodes, q, s, d);
    }
    if p :| IsPathBetween(AgreedMatrix(nodes), p, s, d) {
      RenamedIsAddressPath(nodes, p, s, d);
    }
  }

  /** A least path by indices is a lightest path by addresses. */
  lemma LeastPathIsLightest(nodes: seq<Node>, p: seq<int>, s: int, d: int)
    requires AreNodes(nodes) && NoDuplicates(Addresses(nodes))
    requires IsPathBetween(AgreedMatrix(nodes), p, s, d)
    requires forall q | IsPathBetween(AgreedMatrix(nodes), q, s, d) ::
               PathWeight(AgreedMatrix(nodes), p) <= PathWeight(AgreedMatrix(nodes), q)
    ensures IsLightestPath(nodes, Renamed(p, Addresses(nodes)), nodes[s].address, nodes[d].address)
  {
    RenamedIsAddressPath(nodes, p, s, d);
    RenamedWeight(nodes, p);
    forall q | IsAddressPath(nodes, q, nodes[s].address, nodes[d].address)
      ensures AddressPathWeight(nodes, Renamed(p, Addresses(nodes))) <= AddressPathWeight(nodes, q)
    {
      IndicesArePath(nodes, q, s, d);
      RenamedWeight(nodes, Indices(q, Addresses(nodes)));
    }
  }
}
