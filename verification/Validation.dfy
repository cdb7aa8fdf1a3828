/** Checking that every edge was reported twice, by its two ends, with the same weight
    (home_exam/routing_server/src/validation.c). */
module Validation {
  import opened CInt
  import opened Graphs
  import opened Reports
  import opened AgreedGraph
  import opened ReportCounts

  datatype EdgeCounter = EdgeCounter(edge: Edge, encounters: int, addressOfFirstIndex: int, reportedWeight: int)

  /** An array whose slots before the first available position are in use. */
  class PrefixArray<T> {
    const array_: array<T>
    var firstAvailablePosition: nat

    ghost predicate Valid()
      reads this
    {
      firstAvailablePosition <= array_.Length
    }

    ghost function Contents(): (s: seq<T>)
      requires Valid()
      reads this, array_
      ensures |s| == firstAvailablePosition
    {
      array_[..firstAvailablePosition]
    }

    constructor (maxEdges: nat, unused: T)
      ensures Valid() && Contents() == [] && fresh(array_) && array_.Length == maxEdges
    {
      array_ := new T[maxEdges](_ => unused);
      firstAvailablePosition := 0;
    }
  }

  type EdgeArray = PrefixArray<Edge>

  type EdgeCounterArray = PrefixArray<EdgeCounter>

  // ----- what the two arrays hold after the reports rs -----

  predicate CounterMatches(c: EdgeCounter, reports: seq<Report>) {
    && |reports| > 0
    && c.encounters == |reports|
    && c.addressOfFirstIndex == reports[0].reporter
    && c.reportedWeight == reports[0].weight
  }

  ghost predicate CountersMatch(counters: seq<EdgeCounter>, rs: seq<Report>) {
    && |counters| == |FirstSeen(rs)|
    && forall k | 0 <= k < |counters| ::
         counters[k].edge == FirstSeen(rs)[k] && CounterMatches(counters[k], ReportsOf(rs, counters[k].edge))
  }

  ghost predicate InvalidMatches(invalid: seq<Edge>, rs: seq<Report>) {
    NoDuplicates(invalid) && forall e: Edge :: e in invalid <==> WrongAlready(ReportsOf(rs, e))
  }

  /** The reported edges that are not agreed on, each once. */
  ghost predicate IsDisagreed(invalid: seq<Edge>, rs: seq<Report>) {
    && NoDuplicates(invalid)
    && forall e: Edge :: e in invalid <==> e in FirstSeen(rs) && !Agreed(ReportsOf(rs, e))
  }

  /** Another sighting of a counted edge. */
  lemma SightingKeepsCounters(counters: seq<EdgeCounter>, rs: seq<Report>, r: Report, k: int)
    requires CountersMatch(counters, rs) && 0 <= k < |counters| && counters[k].edge == EdgeOf(r)
    ensures CountersMatch(counters[k := counters[k].(encounters := counters[k].encounters + 1)], rs + [r])
    ensures WrongAlready(ReportsOf(rs + [r], EdgeOf(r))) <==>
              counters[k].encounters + 1 > 2 || counters[k].addressOfFirstIndex == r.reporter
              || counters[k].reportedWeight != r.weight
  {
    FirstSeenIsReported(rs, EdgeOf(r));
    forall e: Edge ensures
      && ReportsOf(rs + [r], e) == ReportsOf(rs, e) + (if EdgeOf(r) == e then [r] else [])
      && FirstSeen(rs + [r]) == FirstSeen(rs)
    {
      assert FirstSeen(rs)[k] == EdgeOf(r);
      OneMore(rs, r, e);
    }
  }

  /** The first sighting of an edge. */
  lemma NewEdgeKeepsCounters(counters: seq<EdgeCounter>, rs: seq<Report>, r: Report)
    requires CountersMatch(counters, rs) && EdgeOf(r) !in FirstSeen(rs)
    ensures CountersMatch(counters + [EdgeCounter(EdgeOf(r), 1, r.reporter, r.weight)], rs + [r])
    ensures ReportsOf(rs + [r], EdgeOf(r)) == [r]
  {
    FirstSeenIsReported(rs, EdgeOf(r));
    forall e: Edge ensures
      && ReportsOf(rs + [r], e) == ReportsOf(rs, e) + (if EdgeOf(r) == e then [r] else [])
      && FirstSeen(rs + [r]) == FirstSeen(rs) + [EdgeOf(r)]
    {
      OneMore(rs, r, e);
    }
  }

  /** The invalid edges after one more report: the edge of the report is added if it is wrong by now. */
  lemma ReportKeepsInvalid(invalid: seq<Edge>, rs: seq<Report>, r: Report, invalid': seq<Edge>)
    requires InvalidMatches(invalid, rs)
    requires invalid' == if WrongAlready(ReportsOf(rs + [r], EdgeOf(r))) then Including(invalid, EdgeOf(r)) else invalid
    ensures InvalidMatches(invalid', rs + [r])
  {
    forall e: Edge ensures e in invalid' <==> WrongAlready(ReportsOf(rs + [r], e)) {
      OneMore(rs, r, e);
    }
  }

  /** What addInvalidEdge does when there is room. */
  function Including(invalid: seq<Edge>, e: Edge): seq<Edge> {
    if e in invalid then invalid else invalid + [e]
  }

  /** Invalid edges are among the counted ones, so there is always room for another. */
  lemma InvalidFits(invalid: seq<Edge>, seen: seq<Edge>, e: Edge)
    requires NoDuplicates(invalid) && NoDuplicates(seen)
    requires forall x | x in invalid :: x in seen
    requires e in seen && e !in invalid
    ensures |invalid| < |seen|
  {
    ElementCount(invalid);
    ElementCount(seen);
    var a, b := set x | x in invalid, set x | x in seen;
    assert a <= b - {e};
    SmallerSet(a, b - {e});
  }

  // ----- the functions of validation.c -----

  method IsEdgePresent(low: int, high: int, edges: EdgeArray) returns (present: bool)
    requires edges.Valid()
    ensures present <==> Edge(low, high) in edges.Contents()
  {
    for i := 0 to edges.firstAvailablePosition
      invariant Edge(low, high) !in edges.Contents()[..i]
    {
      if edges.array_[i].low == low && edges.array_[i].high == high {
        assert edges.Contents()[i] == Edge(low, high);
        return true;
      }
      assert edges.Contents()[..i + 1] == edges.Contents()[..i] + [edges.array_[i]];
    }
    return false;
  }

  /** Fails exactly when a new edge finds the array full. */
  method AddInvalidEdge(low: int, high: int, invalid: EdgeArray) returns (ok: bool)
    requires invalid.Valid()
    modifies invalid, invalid.array_
    ensures invalid.Valid()
    ensures ok <==> Edge(low, high) in old(invalid.Contents()) || |old(invalid.Contents())| < invalid.array_.Length
    ensures invalid.Contents() ==
              if ok then Including(old(invalid.Contents()), Edge(low, high)) else old(invalid.Contents())
  {
    var present := IsEdgePresent(low, high, invalid);
    if present {
      return true;
    }
    if invalid.firstAvailablePosition == invalid.array_.Length {
      return false;
    }
    invalid.array_[invalid.firstAvailablePosition] := Edge(low, high);
    invalid.firstAvailablePosition := invalid.firstAvailablePosition + 1;
    assert invalid.Contents() == old(invalid.Contents()) + [Edge(low, high)];
    return true;
  }

  /** The counter has already been incremented for this report. */
  method CheckIfEdgeIsValid(low: int, high: int, addressOfFirstIndex: int, edgeWeight: int, counter: EdgeCounter,
                            invalid: EdgeArray)
    returns (ok: bool)
    requires invalid.Valid()
    requires Edge(low, high) in invalid.Contents() || |invalid.Contents()| < invalid.array_.Length
    modifies invalid, invalid.array_
    ensures invalid.Valid() && ok
    ensures invalid.Contents() ==
              if counter.encounters > 2 || counter.addressOfFirstIndex == addressOfFirstIndex
                 || counter.reportedWeight != edgeWeight
              then Including(old(invalid.Contents()), Edge(low, high)) else old(invalid.Contents())
  {
    if counter.encounters > 2 {
      ok := AddInvalidEdge(low, high, invalid);
      return;
    }
    if counter.addressOfFirstIndex == addressOfFirstIndex {
      ok := AddInvalidEdge(low, high, invalid);
      return;
    }
    if counter.reportedWeight != edgeWeight {
      ok := AddInvalidEdge(low, high, invalid);
      return;
    }
    return true;
  }

  /** Fails exactly when the array is full. */
  method AddEdgeToEdgeCounterArray(low: int, high: int, addressOfFirstIndex: int, edgeWeight: int,
                                   counters: EdgeCounterArray)
    returns (ok: bool)
    requires counters.Valid()
    modifies counters, counters.array_
    ensures counters.Valid()
    ensures ok <==> |old(counters.Contents())| < counters.array_.Length
    ensures counters.Contents() == old(counters.Contents()) +
              if ok then [EdgeCounter(Edge(low, high), 1, addressOfFirstIndex, edgeWeight)] else []
  {
    if counters.firstAvailablePosition == counters.array_.Length {
      return false;
    }
    var idx := counters.firstAvailablePosition;
    counters.array_[idx] := EdgeCounter(Edge(low, high), 1, addressOfFirstIndex, edgeWeight);
    counters.firstAvailablePosition := idx + 1;
    assert counters.Contents() == old(counters.Contents()) + [counters.array_[idx]];
    return true;
  }

  ghost predicate Counting(counters: EdgeCounterArray, invalid: EdgeArray, rs: seq<Report>)
    reads counters, counters.array_, invalid, invalid.array_
  {
    && counters.Valid() && invalid.Valid()
    && counters.array_.Length <= invalid.array_.Length
    && CountersMatch(counters.Contents(), rs)
    && InvalidMatches(invalid.Contents(), rs)
  }

  /** Only reported edges are ever invalid, so there is room for each of them. */
  lemma InvalidHasRoom(invalid: seq<Edge>, rs: seq<Report>, e: Edge)
    requires NoDuplicates(invalid) && forall x | x in invalid :: ReportsOf(rs, x) != []
    requires e in FirstSeen(rs)
    ensures e in invalid || |invalid| < |FirstSeen(rs)|
  {
    forall x | x in invalid ensures x in FirstSeen(rs) {
      FirstSeenIsReported(rs, x);
    }
    FirstSeenIsReported(rs, e);
    if e !in invalid {
      InvalidFits(invalid, FirstSeen(rs), e);
    }
  }

  /** The search for the edge among the counters (lines 39-76), with the guard of line 42. */
  method FindCounter(e: Edge, maxEdges: int, counters: EdgeCounterArray) returns (outOfBounds: bool, hit: int)
    requires counters.Valid() && counters.array_.Length == maxEdges
    requires forall k, l | 0 <= k < l < |counters.Contents()| ::
               counters.Contents()[k].edge != counters.Contents()[l].edge
    ensures outOfBounds <==>
              && 0 < maxEdges == |counters.Contents()|
              && forall k | 0 <= k < maxEdges - 1 :: counters.Contents()[k].edge != e
    ensures !outOfBounds && hit != -1 ==> 0 <= hit < |counters.Contents()| && counters.Contents()[hit].edge == e
    ensures !outOfBounds && hit == -1 ==> forall k | 0 <= k < |counters.Contents()| :: counters.Contents()[k].edge != e
  {
    for counterIdx := 0 to counters.firstAvailablePosition
      invariant forall k | 0 <= k < counterIdx :: counters.Contents()[k].edge != e
      invariant counterIdx == maxEdges ==> maxEdges == 0
    {
      assert counters.Contents()[counterIdx] == counters.array_[counterIdx];
      if counterIdx == maxEdges - 1 {
        return true, -1;
      }
      if counters.array_[counterIdx].edge.low == e.low && counters.array_[counterIdx].edge.high == e.high {
        return false, counterIdx;
      }
    }
    return false, -1;
  }

  /** One report (lines 28-84). */
  method RecordReport(addressOfFirstIndex: int, neighborAddress: int, edgeWeight: int, maxEdges: int,
                      counters: EdgeCounterArray, invalid: EdgeArray, ghost rs: seq<Report>)
    returns (ok: bool)
    requires Counting(counters, invalid, rs) && counters.array_.Length == maxEdges
    modifies counters, counters.array_, invalid, invalid.array_
    ensures ok <==> CanRecord(rs, Report(addressOfFirstIndex, neighborAddress, edgeWeight), maxEdges)
    ensures ok ==> Counting(counters, invalid, rs + [Report(addressOfFirstIndex, neighborAddress, edgeWeight)])
  {
    hide FirstSeen, ReportsOf, CounterMatches;
    ghost var r, edges := Report(addressOfFirstIndex, neighborAddress, edgeWeight), invalid.Contents();
    var low := if addressOfFirstIndex < neighborAddress then addressOfFirstIndex else neighborAddress;
    var high := if addressOfFirstIndex > neighborAddress then addressOfFirstIndex else neighborAddress;
    FirstSeenIsReported(rs, EdgeOf(r));
    var outOfBounds, hit := FindCounter(Edge(low, high), maxEdges, counters);
    if outOfBounds {
      return false;
    }
    if hit != -1 {
      assert FirstSeen(rs)[hit] == EdgeOf(r);
      SightingKeepsCounters(counters.Contents(), rs, r, hit);
      InvalidHasRoom(edges, rs, EdgeOf(r));
      var counter := counters.array_[hit].(encounters := counters.array_[hit].encounters + 1);
      counters.array_[hit] := counter;
      assert counters.Contents() == old(counters.Contents())[hit := counter];
      ok := CheckIfEdgeIsValid(low, high, addressOfFirstIndex, edgeWeight, counter, invalid);
    } else {
      assert EdgeOf(r) !in FirstSeen(rs);
      NewEdgeKeepsCounters(counters.Contents(), rs, r);
      ok := AddEdgeToEdgeCounterArray(low, high, addressOfFirstIndex, edgeWeight, counters);
    }
    ReportKeepsInvalid(edges, rs, r, invalid.Contents());
  }

  /** The edges found invalid once the first k counters are checked for a single report. */
  ghost predicate DualChecked(invalid: seq<Edge>, rs: seq<Report>, k: int)
    requires 0 <= k <= |FirstSeen(rs)|
  {
    && NoDuplicates(invalid)
    && forall e: Edge :: e in invalid <==>
         WrongAlready(ReportsOf(rs, e)) || (e in FirstSeen(rs)[..k] && |ReportsOf(rs, e)| == 1)
  }

  /** Marks the edges that were reported only once. */
  method CheckDualReport(counters: EdgeCounterArray, invalid: EdgeArray, ghost rs: seq<Report>) returns (ok: bool)
    requires Counting(counters, invalid, rs)
    modifies invalid, invalid.array_
    ensures ok && invalid.Valid() && IsDisagreed(invalid.Contents(), rs)
  {
    hide DualChecked, FirstSeen, ReportsOf;
    NothingDualChecked(invalid.Contents(), rs);
    for k := 0 to counters.firstAvailablePosition
      invariant counters.Valid() && CountersMatch(counters.Contents(), rs)
      invariant invalid.Valid() && DualChecked(invalid.Contents(), rs, k)
    {
      assert counters.Contents()[k] == counters.array_[k];
      var e := counters.array_[k].edge;
      DualCheckHasRoom(invalid.Contents(), rs, k, e);
      DualCheckStep(invalid.Contents(), rs, k);
      if counters.array_[k].encounters < 2 {
        ok := AddInvalidEdge(e.low, e.high, invalid);
        if !ok {
          assert false;
        }
      }
    }
    DualCheckedIsDisagreed(invalid.Contents(), rs);
    return true;
  }

  lemma DualCheckStep(invalid: seq<Edge>, rs: seq<Report>, k: int)
    requires 0 <= k < |FirstSeen(rs)| && DualChecked(invalid, rs, k)
    ensures var e := FirstSeen(rs)[k];
            DualChecked(if |ReportsOf(rs, e)| < 2 then Including(invalid, e) else invalid, rs, k + 1)
  {
    FirstSeenIsReported(rs, FirstSeen(rs)[k]);
    assert FirstSeen(rs)[..k + 1] == FirstSeen(rs)[..k] + [FirstSeen(rs)[k]];
  }

  lemma NothingDualChecked(invalid: seq<Edge>, rs: seq<Report>)
    requires InvalidMatches(invalid, rs)
    ensures DualChecked(invalid, rs, 0)
  {
  }

  lemma DualCheckHasRoom(invalid: seq<Edge>, rs: seq<Report>, k: int, e: Edge)
    requires 0 <= k < |FirstSeen(rs)| && DualChecked(invalid, rs, k) && e in FirstSeen(rs)
    ensures e in invalid || |invalid| < |FirstSeen(rs)|
  {
    InvalidHasRoom(invalid, rs, e);
  }

  lemma DualCheckedIsDisagreed(invalid: seq<Edge>, rs: seq<Report>)
    requires DualChecked(invalid, rs, |FirstSeen(rs)|)
    ensures IsDisagreed(invalid, rs)
  {
    assert FirstSeen(rs)[..|FirstSeen(rs)|] == FirstSeen(rs);
    forall e: Edge ensures e in invalid <==> e in FirstSeen(rs) && !Agreed(ReportsOf(rs, e)) {
      FirstSeenIsReported(rs, e);
    }
  }

  /** The reports of one node (lines 26-85). */
  method RecordNode(nodes: seq<Node>, addressIdx: int, maxEdges: int, counters: EdgeCounterArray, invalid: EdgeArray)
    returns (ok: bool)
    requires AreNodes(nodes) && 0 <= addressIdx < |nodes|
    requires counters.array_.Length == maxEdges
    requires Counting(counters, invalid, AllReports(nodes[..addressIdx]))
    requires Recordable(AllReports(nodes[..addressIdx]), maxEdges)
    modifies counters, counters.array_, invalid, invalid.array_
    ensures ok ==> Recordable(AllReports(nodes[..addressIdx + 1]), maxEdges)
    ensures ok ==> Counting(counters, invalid, AllReports(nodes[..addressIdx + 1]))
    ensures !ok ==> !Recordable(AllReports(nodes), maxEdges)
  {
    hide Counting, CanRecord;
    var node := nodes[addressIdx];
    ghost var before := AllReports(nodes[..addressIdx]);
    assert before + NodeReports(node, 0) == before;
    for neighborIdx := 0 to |node.neighborAddresses|
      invariant Recordable(before + NodeReports(node, neighborIdx), maxEdges)
      invariant Counting(counters, invalid, before + NodeReports(node, neighborIdx))
    {
      ghost var rs := before + NodeReports(node, neighborIdx);
      ghost var r := Report(node.address, node.neighborAddresses[neighborIdx], node.edgeWeights[neighborIdx]);
      assert before + NodeReports(node, neighborIdx + 1) == rs + [r];
      assert (rs + [r])[..|rs|] == rs;
      ok := RecordReport(node.address, node.neighborAddresses[neighborIdx], node.edgeWeights[neighborIdx],
                         maxEdges, counters, invalid, rs);
      if !ok {
        ReadSoFar(nodes, addressIdx, neighborIdx + 1);
        RejectedPrefix(AllReports(nodes), rs + [r], maxEdges);
        return;
      }
    }
    ReadSoFar(nodes, addressIdx, |node.neighborAddresses|);
    ok := true;
  }

  lemma RejectedPrefix(all: seq<Report>, rs: seq<Report>, maxEdges: int)
    requires rs <= all && !Recordable(rs, maxEdges)
    ensures !Recordable(all, maxEdges)
  {
    assert all[..|rs|] == rs;
    if Recordable(all, maxEdges) {
      RecordablePrefix(all, |rs|, maxEdges);
      assert false;
    }
  }

  /** Succeeds exactly when all reports find room, and then the invalid edges are the reported ones that were not
      reported exactly twice, by two different ends, with equal weight. */
  method CheckAllNodesReceived(nodes: seq<Node>, invalid: EdgeArray) returns (ok: bool)
    requires AreNodes(nodes) && |nodes| * (|nodes| - 1) <= INT_MAX
    requires invalid.Valid() && invalid.Contents() == [] && invalid.array_.Length == MaxEdges(|nodes|)
    modifies invalid, invalid.array_
    ensures ok <==> Recordable(AllReports(nodes), MaxEdges(|nodes|))
    ensures NoDuplicates(Addresses(nodes)) && EveryEntryIsAnswered(nodes) ==>
              (ok <==> |nodes| < 2 || exists i, j :: 0 <= i < j < |nodes| && !ListsAddressOf(nodes, i, j))
    ensures ok ==> invalid.Valid() && IsDisagreed(invalid.Contents(), AllReports(nodes))
  {
    hide MaxEdges, EveryEntryIsAnswered, ListsAddressOf;
    if NoDuplicates(Addresses(nodes)) && EveryEntryIsAnswered(nodes) {
      AnsweredReportsPassIff(nodes);
    }
    var n := |nodes|;
    var maxEdges := MaxEdges(n);
    var counters := new PrefixArray<EdgeCounter>(maxEdges, EdgeCounter(Edge(0, 0), 0, 0, 0));
    for addressIdx := 0 to n
      invariant Recordable(AllReports(nodes[..addressIdx]), maxEdges)
      invariant Counting(counters, invalid, AllReports(nodes[..addressIdx]))
    {
      hide Counting;
      ok := RecordNode(nodes, addressIdx, maxEdges, counters, invalid);
      if !ok {
        return;
      }
    }
    assert nodes[..n] == nodes;
    ok := CheckDualReport(counters, invalid, AllReports(nodes));
  }
}
