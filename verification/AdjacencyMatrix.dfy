/** Building the adjacency matrix from the reports and the invalid edges
    (home_exam/routing_server/src/adjacency_matrix.c, home_exam/utils/src/common.c). */
module AdjacencyMatrix {
  import opened Graphs
  import opened Reports
  import opened AgreedGraph
  import opened Validation

  method GetIndexFromAddress(address: int, indexToAddress: array<int>) returns (ok: bool, index: int)
    ensures ok <==> address in indexToAddress[..]
    ensures ok ==> 0 <= index < indexToAddress.Length && indexToAddress[index] == address
    ensures ok ==> forall i | 0 <= i < index :: indexToAddress[i] != address
    ensures !ok ==> index == -1
  {
    index := -1;
    for i := 0 to indexToAddress.Length
      invariant forall j | 0 <= j < i :: indexToAddress[j] != address
    {
      if address == indexToAddress[i] {
        return true, i;
      }
    }
    return false, index;
  }

  ghost predicate IsAddressMap(nodes: seq<Node>, indexToAddress: array<int>)
    reads indexToAddress
  {
    AreNodes(nodes) && indexToAddress[..] == Addresses(nodes) && NoDuplicates(Addresses(nodes))
  }

  /** One node's reports (lines 24-43), on a zero row. */
  method FillRow(nodes: seq<Node>, indexToAddress: array<int>, nodeIdx: int, m: array2<int>) returns (ok: bool)
    requires IsAddressMap(nodes, indexToAddress) && 0 <= nodeIdx < |nodes|
    requires m.Length0 == m.Length1 == |nodes|
    requires forall j | 0 <= j < |nodes| :: m[nodeIdx, j] == 0
    modifies m
    ensures ok <==> forall k | 0 <= k < |nodes[nodeIdx].neighborAddresses| ::
              nodes[nodeIdx].neighborAddresses[k] in Addresses(nodes)
    ensures forall i, j | 0 <= i < |nodes| && 0 <= j < |nodes| && i != nodeIdx :: m[i, j] == old(m[i, j])
    ensures ok ==> forall j | 0 <= j < |nodes| ::
              m[nodeIdx, j] == LastWeight(nodes[nodeIdx], nodes[j].address, |nodes[nodeIdx].neighborAddresses|)
  {
    var node := nodes[nodeIdx];
    assert Addresses(nodes)[nodeIdx] == node.address;
    var firstIndex;
    ok, firstIndex := GetIndexFromAddress(node.address, indexToAddress);
    if !ok {
      assert false;
    }
    assert Addresses(nodes)[firstIndex] == Addresses(nodes)[nodeIdx];
    for k := 0 to |node.neighborAddresses|
      invariant forall l | 0 <= l < k :: node.neighborAddresses[l] in Addresses(nodes)
      invariant forall i, j | 0 <= i < |nodes| && 0 <= j < |nodes| && i != nodeIdx :: m[i, j] == old(m[i, j])
      invariant forall j | 0 <= j < |nodes| :: m[nodeIdx, j] == LastWeight(node, nodes[j].address, k)
    {
      var secondIndex;
      ok, secondIndex := GetIndexFromAddress(node.neighborAddresses[k], indexToAddress);
      if !ok {
        return;
      }
      m[firstIndex, secondIndex] := node.edgeWeights[k];
      forall j | 0 <= j < |nodes| ensures m[nodeIdx, j] == LastWeight(node, nodes[j].address, k + 1) {
        assert Addresses(nodes)[j] == Addresses(nodes)[secondIndex] <==> j == secondIndex;
      }
    }
    ok := true;
  }

  /** Removes the invalid edges (lines 47-69). */
  method ClearInvalid(nodes: seq<Node>, indexToAddress: array<int>, invalid: EdgeArray, m: array2<int>)
    returns (ok: bool)
    requires IsAddressMap(nodes, indexToAddress) && invalid.Valid()
    requires m.Length0 == m.Length1 == |nodes|
    requires forall i, j | 0 <= i < |nodes| && 0 <= j < |nodes| :: m[i, j] == EntryOf(nodes, [], i, j)
    modifies m
    ensures ok <==> forall e | e in invalid.Contents() :: e.low in Addresses(nodes) && e.high in Addresses(nodes)
    ensures ok ==> forall i, j | 0 <= i < |nodes| && 0 <= j < |nodes| ::
              m[i, j] == EntryOf(nodes, invalid.Contents(), i, j)
  {
    ghost var edges := invalid.Contents();
    for k := 0 to invalid.firstAvailablePosition
      invariant forall e | e in edges[..k] :: e.low in Addresses(nodes) && e.high in Addresses(nodes)
      invariant forall i, j | 0 <= i < |nodes| && 0 <= j < |nodes| :: m[i, j] == EntryOf(nodes, edges[..k], i, j)
    {
      var e := invalid.array_[k];
      assert edges[k] == e && edges[..k + 1] == edges[..k] + [e];
      var firstIndex, secondIndex;
      ok, firstIndex := GetIndexFromAddress(e.low, indexToAddress);
      if !ok {
        return;
      }
      ok, secondIndex := GetIndexFromAddress(e.high, indexToAddress);
      if !ok {
        return;
      }
      m[firstIndex, secondIndex] := 0;
      m[secondIndex, firstIndex] := 0;
      forall i, j | 0 <= i < |nodes| && 0 <= j < |nodes| ensures m[i, j] == EntryOf(nodes, edges[..k + 1], i, j) {
        EntryAfterOneMore(nodes, edges[..k], e, i, j, firstIndex, secondIndex);
      }
    }
    assert edges[..|edges|] == edges;
    ok := true;
  }

  lemma EntryAfterOneMore(nodes: seq<Node>, invalid: seq<Edge>, e: Edge, i: int, j: int, low: int, high: int)
    requires AreNodes(nodes) && NoDuplicates(Addresses(nodes)) && 0 <= i < |nodes| && 0 <= j < |nodes|
    requires 0 <= low < |nodes| && 0 <= high < |nodes|
    requires e == Edge(nodes[low].address, nodes[high].address)
    ensures EntryOf(nodes, invalid + [e], i, j) ==
              if (i == low && j == high) || (i == high && j == low) then 0 else EntryOf(nodes, invalid, i, j)
  {
    forall k, l | 0 <= k < |nodes| && 0 <= l < |nodes| && nodes[k].address == nodes[l].address ensures k == l {
      assert Addresses(nodes)[k] == Addresses(nodes)[l];
    }
  }

  /** Succeeds exactly when every reported neighbour, and every end of an invalid edge, is a known address. */
  method CreateAdjacencyMatrix(nodes: seq<Node>, indexToAddress: array<int>, invalid: EdgeArray)
    returns (ok: bool, m: array2<int>)
    requires IsAddressMap(nodes, indexToAddress) && invalid.Valid()
    ensures fresh(m) && m.Length0 == m.Length1 == |nodes|
    ensures ok <==>
              && NeighboursAreKnown(nodes)
              && forall e | e in invalid.Contents() :: e.low in Addresses(nodes) && e.high in Addresses(nodes)
    ensures ok ==> forall i, j | 0 <= i < |nodes| && 0 <= j < |nodes| ::
              m[i, j] == EntryOf(nodes, invalid.Contents(), i, j)
  {
    var n := |nodes|;
    m := new int[n, n]((_, _) => 0);
    for nodeIdx := 0 to n
      invariant forall i, k | 0 <= i < nodeIdx && 0 <= k < |nodes[i].neighborAddresses| ::
        nodes[i].neighborAddresses[k] in Addresses(nodes)
      invariant forall i, j | nodeIdx <= i < n && 0 <= j < n :: m[i, j] == 0
      invariant forall i, j | 0 <= i < nodeIdx && 0 <= j < n ::
        m[i, j] == LastWeight(nodes[i], nodes[j].address, |nodes[i].neighborAddresses|)
    {
      ok := FillRow(nodes, indexToAddress, nodeIdx, m);
      if !ok {
        return;
      }
    }
    ok := ClearInvalid(nodes, indexToAddress, invalid, m);
  }

  /** Fed by validation, the matrix is that of the agreed edges, and it fails only on an unknown neighbour. */
  lemma MatrixAgreesWithValidEdges(nodes: seq<Node>, invalid: seq<Edge>)
    requires AreNodes(nodes) && NoDuplicates(Addresses(nodes)) && IsDisagreed(invalid, AllReports(nodes))
    ensures forall i, j | 0 <= i < |nodes| && 0 <= j < |nodes| ::
              EntryOf(nodes, invalid, i, j) == AgreedMatrix(nodes)[i][j]
    ensures NeighboursAreKnown(nodes) ==>
              forall e | e in invalid :: e.low in Addresses(nodes) && e.high in Addresses(nodes)
  {
    forall i, j | 0 <= i < |nodes| && 0 <= j < |nodes|
      ensures EntryOf(nodes, invalid, i, j) == AgreedMatrix(nodes)[i][j]
    {
      EntryIsAgreed(nodes, invalid, i, j);
    }
    if NeighboursAreKnown(nodes) {
      forall e | e in invalid ensures e.low in Addresses(nodes) && e.high in Addresses(nodes) {
        ReportedEndsAreKnown(nodes, e);
      }
    }
  }
}
