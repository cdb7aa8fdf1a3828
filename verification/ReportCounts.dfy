/** What the reports say in terms of the nodes' own lists: when an edge is agreed on, how many edges there can be, and
    which networks the check of the reports lets through. */
module ReportCounts {
  import opened Graphs
  import opened Reports
  import opened AgreedGraph

  // ----- where a report of an edge stands -----

  /** Entry x of node i's list reports the edge between a and b. */
  predicate Lists(nodes: seq<Node>, i: int, x: int, a: int, b: int)
    requires AreNodes(nodes)
  {
    && 0 <= i < |nodes| && 0 <= x < |nodes[i].neighborAddresses|
    && ((nodes[i].address == a && nodes[i].neighborAddresses[x] == b)
        || (nodes[i].address == b && nodes[i].neighborAddresses[x] == a))
  }

  /** Entry x of node i's list and entry y of node j's list, and no other entry of any list, report the edge between
      the different addresses a of i and b of j, both with weight w. */
  ghost predicate AnswerEachOther(nodes: seq<Node>, i: int, x: int, j: int, y: int, a: int, b: int, w: int)
    requires AreNodes(nodes)
  {
    && a != b
    && Lists(nodes, i, x, a, b) && nodes[i].address == a && nodes[i].edgeWeights[x] == w
    && Lists(nodes, j, y, a, b) && nodes[j].address == b && nodes[j].edgeWeights[y] == w
    && forall k, z | Lists(nodes, k, z, a, b) :: (k == i && z == x) || (k == j && z == y)
  }

  ghost predicate IsAgreedLink(nodes: seq<Node>, a: int, b: int, w: int)
    requires AreNodes(nodes)
  {
    exists i, x, j, y :: AnswerEachOther(nodes, i, x, j, y, a, b, w)
  }

  /** (i, x) for entry x of node i's list, in the order of the reports. */
  function Places(nodes: seq<Node>): seq<(int, int)> {
    if nodes == [] then []
    else
      var m := |nodes| - 1;
      Places(nodes[..m]) + seq(|nodes[m].neighborAddresses|, x requires 0 <= x < |nodes[m].neighborAddresses| => (m, x))
  }

  lemma {:induction false} PlacesOfReports(nodes: seq<Node>)
    requires AreNodes(nodes)
    ensures |Places(nodes)| == |AllReports(nodes)| && NoDuplicates(Places(nodes))
    ensures forall m | 0 <= m < |Places(nodes)| ::
              var (i, x) := Places(nodes)[m];
              && 0 <= i < |nodes| && 0 <= x < |nodes[i].neighborAddresses|
              && IsReportAt(nodes[i], x, AllReports(nodes)[m])
  {
    if nodes != [] {
      PlacesOfReports(nodes[..|nodes| - 1]);
    }
  }

  lemma {:induction false} EveryPlaceIsThere(nodes: seq<Node>, i: int, x: int)
    requires 0 <= i < |nodes| && 0 <= x < |nodes[i].neighborAddresses|
    ensures (i, x) in Places(nodes)
  {
    var m := |nodes| - 1;
    if i == m {
      var last := seq(|nodes[m].neighborAddresses|, x requires 0 <= x < |nodes[m].neighborAddresses| => (m, x));
      assert last[x] == (i, x);
    } else {
      EveryPlaceIsThere(nodes[..m], i, x);
    }
  }

  /** The positions of the reports of e. */
  function IndicesOf(rs: seq<Report>, e: Edge): (ks: seq<int>)
    ensures |ks| == |ReportsOf(rs, e)|
  {
    if rs == [] then []
    else
      var m := |rs| - 1;
      IndicesOf(rs[..m], e) + (if EdgeOf(rs[m]) == e then [m] else [])
  }

  /** ks are the positions in rs of the reports of e, which are picked. */
  predicate ArePositions(rs: seq<Report>, e: Edge, ks: seq<int>, picked: seq<Report>) {
    && NoDuplicates(ks) && |ks| == |picked|
    && (forall l | 0 <= l < |ks| :: 0 <= ks[l] < |rs| && picked[l] == rs[ks[l]])
    && (forall k | 0 <= k < |rs| :: k in ks <==> EdgeOf(rs[k]) == e)
  }

  lemma OneMorePosition(rs: seq<Report>, r: Report, e: Edge, ks: seq<int>, picked: seq<Report>)
    requires ArePositions(rs, e, ks, picked)
    ensures if EdgeOf(r) == e then ArePositions(rs + [r], e, ks + [|rs|], picked + [r])
            else ArePositions(rs + [r], e, ks, picked)
  {
    assert forall k | 0 <= k < |rs| :: (rs + [r])[k] == rs[k];
  }

  lemma {:induction false} IndicesOfReports(rs: seq<Report>, e: Edge)
    ensures ArePositions(rs, e, IndicesOf(rs, e), ReportsOf(rs, e))
  {
    if rs != [] {
      var m := |rs| - 1;
      IndicesOfReports(rs[..m], e);
      assert rs == rs[..m] + [rs[m]];
      hide ArePositions;
      OneMorePosition(rs[..m], rs[m], e, IndicesOf(rs[..m], e), ReportsOf(rs[..m], e));
    }
  }

  lemma ReportsOfEdge(nodes: seq<Node>, m: int, a: int, b: int)
    requires AreNodes(nodes) && 0 <= m < |Places(nodes)|
    ensures |Places(nodes)| == |AllReports(nodes)|
    ensures m in IndicesOf(AllReports(nodes), EdgeBetween(a, b)) <==>
            Lists(nodes, Places(nodes)[m].0, Places(nodes)[m].1, a, b)
  {
    PlacesOfReports(nodes);
    IndicesOfReports(AllReports(nodes), EdgeBetween(a, b));
  }

  /** Two entries that answer each other are the only two reports of their edge. */
  lemma AnsweredIsAgreed(nodes: seq<Node>, i: int, x: int, j: int, y: int, a: int, b: int, w: int)
    requires AreNodes(nodes) && AnswerEachOther(nodes, i, x, j, y, a, b, w)
    ensures Agreed(ReportsOf(AllReports(nodes), EdgeBetween(a, b)))
    ensures AgreedWeight(AllReports(nodes), EdgeBetween(a, b)) == w
  {
    hide AllReports, Places, IndicesOf, ReportsOf, EdgeBetween;
    var rs, e, ps := AllReports(nodes), EdgeBetween(a, b), Places(nodes);
    var ks, reports := IndicesOf(rs, e), ReportsOf(rs, e);
    PlacesOfReports(nodes);
    IndicesOfReports(rs, e);
    EveryPlaceIsThere(nodes, i, x);
    EveryPlaceIsThere(nodes, j, y);
    var m :| 0 <= m < |ps| && ps[m] == (i, x);
    var l :| 0 <= l < |ps| && ps[l] == (j, y);
    forall k: int ensures k in ks <==> k == m || k == l {
      if 0 <= k < |ps| {
        ReportsOfEdge(nodes, k, a, b);
      }
    }
    assert (set k | k in ks) == {m, l};
    ElementCount(ks);
    assert ks[0] in ks && ks[1] in ks && ks[0] != ks[1];
  }

  /** The edge between a and b is agreed on with weight w exactly when one entry of the node at a and one of the node
      at b report it with that weight, and no other entry of any list reports it. */
  lemma AgreedLinkIff(nodes: seq<Node>, a: int, b: int, w: int)
    requires AreNodes(nodes)
    ensures var reports := ReportsOf(AllReports(nodes), EdgeBetween(a, b));
            IsAgreedLink(nodes, a, b, w) <==> Agreed(reports) && reports[0].weight == w
    ensures w != 0 ==> (IsAgreedLink(nodes, a, b, w) <==> AgreedWeight(AllReports(nodes), EdgeBetween(a, b)) == w)
  {
    var rs, e, ps := AllReports(nodes), EdgeBetween(a, b), Places(nodes);
    var ks, reports := IndicesOf(rs, e), ReportsOf(rs, e);
    if i, x, j, y :| AnswerEachOther(nodes, i, x, j, y, a, b, w) {
      AnsweredIsAgreed(nodes, i, x, j, y, a, b, w);
    }
    if Agreed(reports) && reports[0].weight == w {
      AgreedIsAnswered(nodes, a, b);
    }
  }

  lemma AgreedIsAnswered(nodes: seq<Node>, a: int, b: int)
    requires AreNodes(nodes) && Agreed(ReportsOf(AllReports(nodes), EdgeBetween(a, b)))
    ensures IsAgreedLink(nodes, a, b, ReportsOf(AllReports(nodes), EdgeBetween(a, b))[0].weight)
  {
    hide AllReports, Places, IndicesOf, ReportsOf;
    var rs, e, ps := AllReports(nodes), EdgeBetween(a, b), Places(nodes);
    var ks, reports := IndicesOf(rs, e), ReportsOf(rs, e);
    PlacesOfReports(nodes);
    IndicesOfReports(rs, e);
    var (m, l) := if reports[0].reporter == a then (ks[0], ks[1]) else (ks[1], ks[0]);
    assert m in ks && l in ks && EdgeOf(rs[m]) == e && EdgeOf(rs[l]) == e;
    ReportsOfEdge(nodes, m, a, b);
    ReportsOfEdge(nodes, l, a, b);
    var (i, x) := ps[m];
    var (j, y) := ps[l];
    forall k, z | Lists(nodes, k, z, a, b) ensures (k == i && z == x) || (k == j && z == y) {
      EveryPlaceIsThere(nodes, k, z);
      var q :| 0 <= q < |ps| && ps[q] == (k, z);
      ReportsOfEdge(nodes, q, a, b);
      assert q == ks[0] || q == ks[1];
    }
    assert AnswerEachOther(nodes, i, x, j, y, a, b, reports[0].weight);
  }

  // ----- how many edges there can be -----

  /** The edges between the last address and those before it. */
  function PairsWithLast(a: seq<int>): (es: seq<Edge>)
    requires a != []
    ensures |es| == |a| - 1 && forall i | 0 <= i < |es| :: es[i] == EdgeBetween(a[i], a[|a| - 1])
  {
    seq(|a| - 1, i requires 0 <= i < |a| - 1 => EdgeBetween(a[i], a[|a| - 1]))
  }

  /** The edges between any two of the addresses. */
  function Pairs(a: seq<int>): seq<Edge> {
    if a == [] then [] else Pairs(a[..|a| - 1]) + PairsWithLast(a)
  }

  predicate IsPair(a: seq<int>, e: Edge, i: int, j: int) {
    0 <= i < j < |a| && e == EdgeBetween(a[i], a[j])
  }

  lemma {:induction false} PairIsThere(a: seq<int>, e: Edge, i: int, j: int)
    requires IsPair(a, e, i, j)
    ensures e in Pairs(a)
  {
    if j == |a| - 1 {
      assert PairsWithLast(a)[i] == e;
    } else {
      PairIsThere(a[..|a| - 1], e, i, j);
    }
  }

  lemma {:induction false} PairsAre(a: seq<int>, e: Edge) returns (i: int, j: int)
    requires e in Pairs(a)
    ensures IsPair(a, e, i, j)
  {
    if e in Pairs(a[..|a| - 1]) {
      i, j := PairsAre(a[..|a| - 1], e);
    } else {
      i :| 0 <= i < |a| - 1 && PairsWithLast(a)[i] == e;
      j := |a| - 1;
    }
  }

  lemma DistinctParts<T>(s: seq<T>, t: seq<T>)
    requires NoDuplicates(s) && NoDuplicates(t) && forall x | x in s :: x !in t
    ensures NoDuplicates(s + t)
  {
    forall i, j | 0 <= i < j < |s + t| ensures (s + t)[i] != (s + t)[j] {
      if i < |s| <= j {
        assert s[i] in s && t[j - |s|] in t;
      }
    }
  }

  lemma PairsWithLastAreNew(a: seq<int>, e: Edge)
    requires a != [] && NoDuplicates(a) && e in Pairs(a[..|a| - 1])
    ensures e !in PairsWithLast(a)
  {
    var m := |a| - 1;
    var i, j := PairsAre(a[..m], e);
    assert e == EdgeBetween(a[i], a[j]) && a[i] != a[m] && a[j] != a[m];
    forall k | 0 <= k < m ensures PairsWithLast(a)[k] != e {
      assert PairsWithLast(a)[k] == EdgeBetween(a[k], a[m]);
    }
  }

  /** n distinct addresses have n(n-1)/2 edges between them. */
  lemma {:induction false} PairsCount(a: seq<int>)
    requires NoDuplicates(a)
    ensures NoDuplicates(Pairs(a)) && 2 * |Pairs(a)| == OrderedPairs(|a|)
  {
    if a != [] {
      PairsCount(a[..|a| - 1]);
      assert NoDuplicates(PairsWithLast(a));
      forall e | e in Pairs(a[..|a| - 1]) ensures e !in PairsWithLast(a) {
        PairsWithLastAreNew(a, e);
      }
      DistinctParts(Pairs(a[..|a| - 1]), PairsWithLast(a));
      OrderedPairsGrow(|a|);
    }
  }

  lemma OrderedPairsGrow(n: nat)
    requires n > 0
    ensures OrderedPairs(n) == OrderedPairs(n - 1) + 2 * (n - 1)
  {
  }

  /** The ordered pairs of n things. */
  function OrderedPairs(n: nat): int {
    n * (n - 1)
  }

  lemma OrderedPairsSign(n: nat)
    ensures n < 2 ==> OrderedPairs(n) == 0
    ensures n >= 2 ==> OrderedPairs(n) > 0
  {
  }

  // ----- which networks pass -----

  /** Every entry of every list is answered by one entry with the same weight, in the list of the node it names. */
  ghost predicate EveryEntryIsAnswered(nodes: seq<Node>)
    requires AreNodes(nodes)
  {
    forall i, x | 0 <= i < |nodes| && 0 <= x < |nodes[i].neighborAddresses| ::
      IsAgreedLink(nodes, nodes[i].address, nodes[i].neighborAddresses[x], nodes[i].edgeWeights[x])
  }

  predicate ListsAddressOf(nodes: seq<Node>, i: int, j: int)
    requires 0 <= i < |nodes| && 0 <= j < |nodes|
  {
    nodes[j].address in nodes[i].neighborAddresses
  }

  predicate SomePairIsUnlinked(nodes: seq<Node>) {
    exists i, j :: 0 <= i < j < |nodes| && !ListsAddressOf(nodes, i, j)
  }

  lemma SeenEdgeIsAnswered(nodes: seq<Node>, e: Edge)
    requires AreNodes(nodes) && EveryEntryIsAnswered(nodes) && e in FirstSeen(AllReports(nodes))
    ensures Agreed(ReportsOf(AllReports(nodes), e)) && e in Pairs(Addresses(nodes))
  {
    var rs := AllReports(nodes);
    FirstSeenIsReported(rs, e);
    var r := ReportsOf(rs, e)[0];
    ReportsOfMembers(rs, e, r);
    AllReportsMembers(nodes, r);
    var i, x :| 0 <= i < |nodes| && 0 <= x < |nodes[i].neighborAddresses| && IsReportAt(nodes[i], x, r);
    hide AllReports, FirstSeen, ReportsOf, Pairs;
    assert IsAgreedLink(nodes, r.reporter, r.neighbour, r.weight);
    AgreedLinkIff(nodes, r.reporter, r.neighbour, r.weight);
    AgreedLinkIsPair(nodes, r.reporter, r.neighbour, r.weight);
  }

  lemma AgreedLinkIsPair(nodes: seq<Node>, a: int, b: int, w: int)
    requires AreNodes(nodes) && IsAgreedLink(nodes, a, b, w)
    ensures EdgeBetween(a, b) in Pairs(Addresses(nodes))
  {
    var k, y, l, z :| AnswerEachOther(nodes, k, y, l, z, a, b, w);
    var (u, v) := if k < l then (k, l) else (l, k);
    PairIsThere(Addresses(nodes), EdgeBetween(a, b), u, v);
  }

  lemma SeenIffListed(nodes: seq<Node>, i: int, j: int)
    requires AreNodes(nodes) && EveryEntryIsAnswered(nodes) && NoDuplicates(Addresses(nodes))
    requires 0 <= i < |nodes| && 0 <= j < |nodes|
    ensures EdgeBetween(nodes[i].address, nodes[j].address) in FirstSeen(AllReports(nodes)) <==>
            ListsAddressOf(nodes, i, j)
  {
    var e := EdgeBetween(nodes[i].address, nodes[j].address);
    FirstSeenIsReported(AllReports(nodes), e);
    if e in FirstSeen(AllReports(nodes)) {
      SeenEdgeIsAnswered(nodes, e);
      AgreedEdgeIsReportedBy(nodes, i, nodes[j].address);
    }
    if nodes[j].address in nodes[i].neighborAddresses {
      ReportedWeightIsAgreed(nodes, i, nodes[j].address);
    }
  }

  /** Distinct members of a duplicate-free sequence are all of them exactly when they are as many. */
  lemma AllMembersIff<T>(s: seq<T>, t: seq<T>)
    requires NoDuplicates(s) && NoDuplicates(t) && forall x | x in s :: x in t
    ensures |s| <= |t|
    ensures |s| == |t| <==> forall x | x in t :: x in s
  {
    ElementCount(s);
    ElementCount(t);
    var a, b := set x | x in s, set x | x in t;
    assert a <= b;
    SmallerSet(a, b);
    assert |b - a| == |b| - |a|;
    if |s| == |t| {
      assert b - a == {};
      forall x | x in t ensures x in s {
        assert x in b && x !in b - a;
      }
    }
    if forall x | x in t :: x in s {
      assert b - a == {};
    }
  }

  lemma AllPairsSeenIff(nodes: seq<Node>)
    requires AreNodes(nodes) && EveryEntryIsAnswered(nodes) && NoDuplicates(Addresses(nodes))
    ensures (forall e | e in Pairs(Addresses(nodes)) :: e in FirstSeen(AllReports(nodes))) <==>
            !SomePairIsUnlinked(nodes)
  {
    hide EveryEntryIsAnswered, FirstSeen, NoDuplicates, Pairs;
    var seen, pairs, a := FirstSeen(AllReports(nodes)), Pairs(Addresses(nodes)), Addresses(nodes);
    if i, j :| 0 <= i < j < |nodes| && !ListsAddressOf(nodes, i, j) {
      SeenIffListed(nodes, i, j);
      PairIsThere(a, EdgeBetween(a[i], a[j]), i, j);
    } else {
      forall e | e in pairs ensures e in seen {
        var i, j := PairsAre(a, e);
        SeenIffListed(nodes, i, j);
      }
    }
  }

  /** When every entry is answered, all pairs are seen exactly when none is unlinked. */
  lemma SeenCount(nodes: seq<Node>)
    requires AreNodes(nodes) && EveryEntryIsAnswered(nodes) && NoDuplicates(Addresses(nodes))
    ensures 2 * |FirstSeen(AllReports(nodes))| <= OrderedPairs(|nodes|)
    ensures 2 * |FirstSeen(AllReports(nodes))| < OrderedPairs(|nodes|) <==> SomePairIsUnlinked(nodes)
  {
    hide EveryEntryIsAnswered, FirstSeen, NoDuplicates, SomePairIsUnlinked, Pairs, AllReports;
    var seen, pairs := FirstSeen(AllReports(nodes)), Pairs(Addresses(nodes));
    FirstSeenIsDistinct(AllReports(nodes));
    PairsCount(Addresses(nodes));
    forall e | e in seen ensures e in pairs {
      SeenEdgeIsAnswered(nodes, e);
    }
    AllMembersIff(seen, pairs);
    AllPairsSeenIff(nodes);
  }

  lemma PassByCount(nodes: seq<Node>)
    requires AreNodes(nodes)
    ensures var rs := AllReports(nodes);
            var seen, all := |FirstSeen(rs)|, OrderedPairs(|nodes|);
            Recordable(rs, MaxEdges(|nodes|)) <==>
              rs == [] || 2 * seen < all || (2 * seen == all && |ReportsOf(rs, FirstSeen(rs)[seen - 1])| == 1)
  {
    hide MaxEdges, ReportsOf;
    RecordableIff(AllReports(nodes), MaxEdges(|nodes|));
    MaxEdgesTwice(|nodes|);
  }

  /** Whatever the reports say: they find room exactly when fewer than n(n-1)/2 edges are reported, or just so many and
      the one reported last of them for the first time is never reported again. */
  lemma ReportsPassIff(nodes: seq<Node>)
    requires AreNodes(nodes)
    ensures var rs := AllReports(nodes);
            var seen, all := |FirstSeen(rs)|, |nodes| * (|nodes| - 1);
            Recordable(rs, MaxEdges(|nodes|)) <==>
              rs == [] || 2 * seen < all || (2 * seen == all && |ReportsOf(rs, FirstSeen(rs)[seen - 1])| == 1)
  {
    hide MaxEdges, ReportsOf, FirstSeen, Recordable;
    PassByCount(nodes);
  }

  /** A network of distinct addresses in which every entry is answered finds room for all its reports if and only if
      some two nodes are not linked, or there are no two nodes. */
  lemma AnsweredReportsPassIff(nodes: seq<Node>)
    requires AreNodes(nodes) && NoDuplicates(Addresses(nodes)) && EveryEntryIsAnswered(nodes)
    ensures Recordable(AllReports(nodes), MaxEdges(|nodes|)) <==> |nodes| < 2 || SomePairIsUnlinked(nodes)
  {
    hide EveryEntryIsAnswered, NoDuplicates, SomePairIsUnlinked, AllReports, OrderedPairs, MaxEdges, ReportsOf,
         Recordable;
    var seen, all := FirstSeen(AllReports(nodes)), OrderedPairs(|nodes|);
    SeenCount(nodes);
    PassByCount(nodes);
    OrderedPairsSign(|nodes|);
    if seen != [] {
      SeenEdgeIsAnswered(nodes, seen[|seen| - 1]);
    }
  }
}
