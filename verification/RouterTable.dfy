/** The router array and the operations that change it in place, and the search along its links
    (obligatory_assignment/src/router.c). */
module RouterTable {
  import opened Bytes
  import opened Flags
  import opened Graphs
  import opened Routers
  import opened RouterPaths

  /** findFreeNeighbor: the first free slot. */
  method FindFreeNeighbor(ns: Slots) returns (ok: bool, hitIdx: int)
    ensures ok <==> FreeSlot(ns) < MAX_NEIGHBORS
    ensures hitIdx == if ok then FreeSlot(ns) else -1
  {
    hitIdx := -1;
    for i := 0 to MAX_NEIGHBORS
      invariant hitIdx == -1 && FreeSlot(ns) == FirstFrom(ns, -1, i)
    {
      if ns[i] == -1 {
        return true, i;
      }
    }
    return false, hitIdx;
  }

  /** The loop of setFlag over the four bits of the value (lines 158-163), from the least significant one on. */
  method ReverseValue(value: int) returns (reversedValue: seq<Bit>)
    requires 0 <= value < 16
    ensures reversedValue == Reversed(Bits(value, 4))
  {
    reversedValue := [0, 0, 0, 0];
    for i := 0 to 4
      invariant |reversedValue| == 4
      invariant forall j | 0 <= j < i :: reversedValue[3 - j] == Bits(value, 4)[j]
    {
      reversedValue := reversedValue[3 - i := Bits(value, 4)[i]];
    }
  }

  /** The N routers in use are the first `count` of the array; shrinking it with realloc only lowers `count`. */
  class RouterArray {
    var routers: array<Router>
    var count: nat

    ghost predicate Valid()
      reads this
    {
      count <= routers.Length
    }

    ghost function Contents(): (rs: seq<Router>)
      requires Valid()
      reads this, routers
      ensures |rs| == count
    {
      routers[..count]
    }

    constructor (rs: seq<Router>)
      ensures Valid() && Contents() == rs && fresh(routers)
    {
      routers := new Router[|rs|](i requires 0 <= i < |rs| => rs[i]);
      count := |rs|;
    }

    method FindRouterId(routerId: int) returns (ok: bool, hitIdx: int)
      requires Valid()
      ensures hitIdx == FindId(Contents(), routerId) && (ok <==> Exists(Contents(), routerId))
      ensures ok ==> 0 <= hitIdx < count && routers[hitIdx].routerId == routerId
      ensures forall i | 0 <= i < if ok then hitIdx else count :: routers[i].routerId != routerId
      ensures !ok ==> hitIdx == -1
    {
      hitIdx := -1;
      for i := 0 to count
        invariant hitIdx == -1 && FindId(Contents(), routerId) == FindIdFrom(Contents(), routerId, i)
        invariant forall j | 0 <= j < i :: routers[j].routerId != routerId
      {
        assert Contents()[i] == routers[i];
        if routers[i].routerId == routerId {
          return true, i;
        }
      }
      return false, hitIdx;
    }

    method AddLink(fromRouter: Byte, toRouter: Byte) returns (ok: bool)
      requires Valid()
      modifies routers
      ensures Valid()
      ensures ok <==> AfterAddLink(old(Contents()), fromRouter, toRouter).Some?
      ensures Contents() == if ok then AfterAddLink(old(Contents()), fromRouter, toRouter).value else old(Contents())
    {
      var routerIdx;
      ok, routerIdx := FindRouterId(fromRouter);
      if !ok {
        return;
      }
      var neighborIdx;
      ok, neighborIdx := FindFreeNeighbor(routers[routerIdx].neighbors);
      if !ok {
        return;
      }
      SetNeighbor(routerIdx, neighborIdx, toRouter);
    }

    /** Numbers are taken apart into bits where the code has shifts and masks. */
    method SetFlag(routerId: int, flag: int, value: int) returns (ok: bool)
      requires Valid()
      modifies routers
      ensures Valid()
      ensures ok <==> AfterSetFlag(old(Contents()), routerId, flag, value).Some?
      ensures Contents() == if ok then AfterSetFlag(old(Contents()), routerId, flag, value).value else old(Contents())
      ensures ok ==>
                var rs, k := old(Contents()), FindId(old(Contents()), routerId);
                && 0 <= k && Contents() == rs[k := rs[k].(flag := Contents()[k].flag)]
                && (flag != 4 ==> Bits(Contents()[k].flag, 8) == Bits(rs[k].flag, 8)[flag := value])
                && (flag == 4 ==> ModificationNumber(Contents()[k].flag) == value
                                  && Bits(Contents()[k].flag, 8)[..4] == Bits(rs[k].flag, 8)[..4])
    {
      hide Bits, FromBits, Reversed, Shifted;
      if flag < 0 || flag > 4 || flag == 3 {
        return false;
      }
      if flag < 3 && (value < 0 || value > 1) {
        return false;
      }
      if value < 0 || value > 15 {
        return false;
      }
      var hitIdx;
      ok, hitIdx := FindRouterId(routerId);
      if !ok {
        return;
      }
      var n := routers[hitIdx].flag;
      if flag < 3 {
        SetBitIsRead(n, flag, value);
        n := ByteOf(Bits(n, 8)[flag := value]);
      } else {
        var reversedValue := ReverseValue(value);
        MaskAndAdd(n, value);
        SetModificationNumberIsRead(n, value);
        n := FromBits(Bits(n, 8)[..4] + [0, 0, 0, 0]) + FromBits(Shifted(reversedValue, 4));
      }
      routers[hitIdx] := routers[hitIdx].(flag := n);
    }

    method SetModel(routerId: int, name: seq<Byte>) returns (ok: bool)
      requires Valid()
      modifies routers
      ensures Valid()
      ensures ok <==> AfterSetModel(old(Contents()), routerId, name).Some?
      ensures Contents() == if ok then AfterSetModel(old(Contents()), routerId, name).value else old(Contents())
    {
      var hitIdx;
      ok, hitIdx := FindRouterId(routerId);
      if ok {
        routers[hitIdx] := routers[hitIdx].(model := Some(name));
      }
    }

    /** routerArray[r].neighbors[i] = value */
    method SetNeighbor(r: int, i: int, value: int)
      requires Valid() && 0 <= r < count && 0 <= i < MAX_NEIGHBORS
      modifies routers
      ensures var rs := old(Contents()); Contents() == rs[r := rs[r].(neighbors := rs[r].neighbors[i := value])]
    {
      routers[r] := routers[r].(neighbors := routers[r].neighbors[i := value]);
    }

    /** Deletes the first reference to routerId from router r (lines 187-223). */
    method DeleteReference(r: int, routerId: int)
      requires Valid() && 0 <= r < count && routerId != -1
      modifies routers
      ensures var rs := old(Contents());
              Contents() == rs[r := rs[r].(neighbors := WithoutLink(rs[r].neighbors, routerId))]
    {
      ghost var ns := routers[r].neighbors;
      for i := 0 to MAX_NEIGHBORS
        invariant Contents() == old(Contents())
        invariant forall j | 0 <= j < i :: ns[j] != -1 && ns[j] != routerId
        invariant FreeSlot(ns) >= i && FirstFrom(ns, routerId, 0) >= i
      {
        assert Contents()[r] == routers[r];
        if routers[r].neighbors[i] == -1 {
          FirstFromIs(ns, -1, 0, i);
          assert WithoutLink(ns, routerId) == ns;
          return;
        }
        if routers[r].neighbors[i] == routerId {
          FirstFromIs(ns, routerId, 0, i);
          FillHole(r, i, routerId);
          return;
        }
      }
      assert WithoutLink(ns, routerId) == ns;
    }

    /** The hole at slot i is filled with the last neighbour (lines 192-220). */
    method FillHole(r: int, i: int, routerId: int)
      requires Valid() && 0 <= r < count && 0 <= i < MAX_NEIGHBORS && routerId != -1
      requires FirstFrom(routers[r].neighbors, routerId, 0) == i < FreeSlot(routers[r].neighbors)
      modifies routers
      ensures var rs := old(Contents());
              Contents() == rs[r := rs[r].(neighbors := WithoutLink(rs[r].neighbors, routerId))]
    {
      ghost var ns := routers[r].neighbors;
      if (i == 0 && routers[r].neighbors[1] == -1) || i == MAX_NEIGHBORS - 1 {
        if i == 0 {
          FirstFromIs(ns, -1, 0, 1);
        }
        SetNeighbor(r, i, -1);
        assert WithoutLink(ns, routerId) == ns[i := -1];
      } else {
        var lastNeighbor := MAX_NEIGHBORS;
        if routers[r].neighbors[MAX_NEIGHBORS - 1] == -1 {
          var ok;
          ok, lastNeighbor := FindFreeNeighbor(routers[r].neighbors);
          if !ok {
            assert false;
          }
        }
        lastNeighbor := lastNeighbor - 1;
        SetNeighbor(r, i, routers[r].neighbors[lastNeighbor]);
        SetNeighbor(r, lastNeighbor, -1);
      }
    }

    /** Whether realloc of the last router away returns a null pointer is up to the C library. */
    method DeleteRouter(routerId: int, reallocToZeroIsNull: bool) returns (ok: bool)
      requires Valid()
      modifies this, routers
      ensures Valid() && routers == old(routers)
      ensures !Exists(old(Contents()), routerId) ==> !ok && Contents() == old(Contents())
      ensures Exists(old(Contents()), routerId) ==>
                && 0 <= routerId < 256
                && Contents() == AfterDelete(old(Contents()), routerId)
                && (ok <==> !(|Contents()| == 0 && reallocToZeroIsNull))
    {
      hide WithoutLink;
      var hitIdx;
      ok, hitIdx := FindRouterId(routerId);
      if !ok {
        return;
      }
      assert Contents()[hitIdx].routerId == routerId;
      DeleteReferences(routerId);
      count := count - 1;
      routers[hitIdx] := routers[hitIdx].(model := None);
      if !((hitIdx == 0 && count == 1) || hitIdx == count) {
        routers[hitIdx] := routers[count];
      }
      return !(count == 0 && reallocToZeroIsNull);
    }

    /** The loop over all routers (lines 186-224). */
    method DeleteReferences(routerId: Byte)
      requires Valid()
      modifies routers
      ensures Contents() == WithoutLinks(old(Contents()), routerId)
    {
      for r := 0 to count
        invariant |Contents()| == |old(Contents())|
        invariant forall q | 0 <= q < r :: Contents()[q] == WithoutLinks(old(Contents()), routerId)[q]
        invariant forall q | r <= q < count :: Contents()[q] == old(Contents())[q]
      {
        DeleteReference(r, routerId);
      }
    }

    // ----- search -----

    /** Succeeds with exists 1 only when a walk leads from one router to the other, and with 0 only when none does and
        every walk from the first router stays among existing ones; it fails only when some walk leads to an id that no
        router has. If no walk leads to the target, that decides; otherwise the order of the links does. */
    method ExistsRoute(fromRouterId: int, toRouterId: int) returns (ok: bool, exists_: int)
      requires Valid()
      ensures ok ==> exists_ == if Reaches(Contents(), fromRouterId, toRouterId) then 1 else 0
      ensures !ok ==> ReachesNowhere(Contents(), fromRouterId)
      ensures ok && exists_ == 0 ==> !ReachesNowhere(Contents(), fromRouterId)
      ensures !Reaches(Contents(), fromRouterId, toRouterId) ==> (ok <==> !ReachesNowhere(Contents(), fromRouterId))
      ensures Connected(Contents()) && Exists(Contents(), fromRouterId) ==> ok
    {
      hide Connected;
      var visited := new int[count](_ => -1);
      ghost var used;
      ok, exists_, used := DFS(fromRouterId, toRouterId, -1, visited, 0);
      if !ok {
        if Connected(Contents()) && Exists(Contents(), fromRouterId) {
          ConnectedNeverFails(Contents(), fromRouterId);
          assert false;
        }
        return;
      }
      if exists_ == -1 {
        exists_ := 0;
        NotVisitedNotReached(Contents(), visited[..used], fromRouterId, toRouterId);
        ClosedVisitStaysOnRouters(Contents(), visited[..used], fromRouterId);
      }
    }

    /** The recursive search. The first `used` slots of visited hold the ids visited so far; the number of free slots
        falls with every call that recurses. */
    method DFS(fromRouterId: int, toRouterId: int, exists0: int, visited: array<int>, ghost used: nat)
      returns (ok: bool, exists_: int, ghost used': nat)
      requires Valid() && IsVisited(Contents(), visited, used)
      requires exists0 == -1 || exists0 == 1
      modifies visited
      ensures ok ==> exists_ == -1 || exists_ == 1
      ensures ok ==> IsVisited(Contents(), visited, used') && old(visited[..used]) <= visited[..used']
      ensures ok && exists_ == 1 ==> exists0 == 1 || Reaches(Contents(), fromRouterId, toRouterId)
      ensures ok && exists_ == -1 ==>
                && fromRouterId in visited[..used']
                && toRouterId !in visited[..used'][used..]
                && IsClosedFrom(Contents(), visited[..used'], used)
      ensures !ok ==> ReachesNowhere(Contents(), fromRouterId)
      decreases visited.Length - used
    {
      hide Reaches, IsLink, Neighbours;
      exists_ := exists0;
      used' := used;
      if exists_ == 1 || fromRouterId == toRouterId {
        exists_ := 1;
        ReachesItself(Contents(), fromRouterId);
        return true, exists_, used';
      }

      var nextFreeVisited := 0;
      while nextFreeVisited < count
        invariant nextFreeVisited <= used
        invariant forall k | 0 <= k < nextFreeVisited :: visited[k] != fromRouterId
      {
        if visited[nextFreeVisited] == -1 {
          break;
        } else if visited[nextFreeVisited] == fromRouterId {
          assert visited[..used][nextFreeVisited] == fromRouterId;
          return true, exists_, used';
        }
        nextFreeVisited := nextFreeVisited + 1;
      }
      // The second scan (lines 343-347) starts at the free slot the first one stopped at, or at the end.
      if nextFreeVisited < count && visited[nextFreeVisited] != -1 {
        assert false;
      }
      assert nextFreeVisited == used;
      NotFoundIsNowhere(Contents(), fromRouterId);
      if nextFreeVisited == count {
        AllVisited(Contents(), visited[..used], fromRouterId);
        return false, exists_, used';
      }
      visited[nextFreeVisited] := fromRouterId;
      used' := used + 1;

      var hitIdx;
      ok, hitIdx := FindRouterId(fromRouterId);
      if !ok {
        return;
      }
      assert Contents()[hitIdx] == routers[hitIdx];
      ok, exists_, used' := SearchNeighbours(hitIdx, fromRouterId, toRouterId, visited, used);
    }

    /** The loop of DFS over the neighbours (lines 361-373). */
    method SearchNeighbours(hitIdx: int, fromRouterId: int, toRouterId: int, visited: array<int>, ghost used: nat)
      returns (ok: bool, exists_: int, ghost used': nat)
      requires Valid() && IsVisited(Contents(), visited, used + 1)
      requires hitIdx == FindId(Contents(), fromRouterId) && 0 <= hitIdx && visited[used] == fromRouterId
      requires fromRouterId != toRouterId
      modifies visited
      ensures ok ==> exists_ == -1 || exists_ == 1
      ensures ok ==> IsVisited(Contents(), visited, used') && old(visited[..used + 1]) <= visited[..used']
      ensures ok && exists_ == 1 ==> Reaches(Contents(), fromRouterId, toRouterId)
      ensures ok && exists_ == -1 ==>
                && fromRouterId in visited[..used']
                && toRouterId !in visited[..used'][used..]
                && IsClosedFrom(Contents(), visited[..used'], used)
      ensures !ok ==> ReachesNowhere(Contents(), fromRouterId)
      decreases visited.Length - used, 0
    {
      ghost var rs := Contents();
      exists_ := -1;
      used' := used + 1;
      ghost var start, seen := visited[..used + 1], visited[..used + 1];
      SearchStart(rs, hitIdx, start, used, toRouterId);
      hide Reaches, ReachesNowhere, IsClosedFrom, IsVisited, IsSearched, Neighbours, IsLink;
      for i := 0 to MAX_NEIGHBORS
        invariant exists_ == -1 && used' == |seen| <= visited.Length && seen == visited[..used']
        invariant IsVisited(rs, visited, used') && start <= seen
        invariant IsSearched(rs, rs[hitIdx].neighbors, seen, used, i, toRouterId)
      {
        assert routers[hitIdx] == rs[hitIdx];
        if routers[hitIdx].neighbors[i] == -1 {
          SearchDone(rs, hitIdx, fromRouterId, seen, used, i, toRouterId);
          return true, exists_, used';
        }
        ghost var next, before := rs[hitIdx].neighbors[i], seen;
        SearchedIsLink(rs, hitIdx, fromRouterId, seen, used, i, toRouterId);
        ok, exists_, used' := DFS(routers[hitIdx].neighbors[i], toRouterId, exists_, visited, used');
        if !ok {
          NowhereThroughLink(rs, fromRouterId, next);
          return;
        }
        if exists_ == 1 {
          LinkThenReaches(rs, fromRouterId, next, toRouterId);
          return;
        }
        VisitedBounds(rs, visited, used');
        seen := visited[..used'];
        SearchStep(rs, rs[hitIdx].neighbors, before, seen, used, i, toRouterId);
      }
      SearchDone(rs, hitIdx, fromRouterId, seen, used, MAX_NEIGHBORS, toRouterId);
      ok := true;
    }
  }

  // ----- what the search keeps -----

  /** The visited slots are a block of distinct ids of existing routers, followed by free slots. */
  ghost predicate IsVisited(rs: seq<Router>, visited: array<int>, used: nat)
    reads visited
  {
    && used <= visited.Length == |rs|
    && NoDuplicates(visited[..used])
    && (forall k | 0 <= k < used :: Exists(rs, visited[k]))
    && (forall k | used <= k < visited.Length :: visited[k] == -1)
  }

  /** Every link of the routers visited from position i on leads to a visited router. */
  ghost predicate IsClosedFrom(rs: seq<Router>, visited: seq<int>, i: nat) {
    forall k, b | i <= k < |visited| && IsLink(rs, visited[k], b) :: b in visited
  }

  /** A walk from a ends at an id that no router has. */
  ghost predicate ReachesNowhere(rs: seq<Router>, a: int) {
    exists x :: Reaches(rs, a, x) && !Exists(rs, x)
  }

  lemma NotFoundIsNowhere(rs: seq<Router>, a: int)
    ensures !Exists(rs, a) ==> ReachesNowhere(rs, a)
  {
    ReachesItself(rs, a);
  }

  lemma NowhereThroughLink(rs: seq<Router>, a: int, b: int)
    requires IsLink(rs, a, b) && ReachesNowhere(rs, b)
    ensures ReachesNowhere(rs, a)
  {
    var x :| Reaches(rs, b, x) && !Exists(rs, x);
    LinkThenReaches(rs, a, b, x);
  }

  function Ids(rs: seq<Router>): (s: set<int>)
    ensures |s| <= |rs|
    ensures forall i | 0 <= i < |rs| :: rs[i].routerId in s
  {
    if rs == [] then {}
    else
      assert forall i | 0 <= i < |rs| - 1 :: rs[..|rs| - 1][i] == rs[i];
      Ids(rs[..|rs| - 1]) + {rs[|rs| - 1].routerId as int}
  }

  /** A full visited array holds every existing id: the branch without free slots is for a missing router only. */
  lemma AllVisited(rs: seq<Router>, visited: seq<int>, id: int)
    requires |visited| == |rs| && NoDuplicates(visited) && forall k | 0 <= k < |visited| :: Exists(rs, visited[k])
    requires id !in visited
    ensures !Exists(rs, id)
  {
    ElementCount(visited);
    var vs := set x | x in visited;
    if Exists(rs, id) {
      assert rs[FindId(rs, id)].routerId in Ids(rs);
      forall x | x in vs ensures x in Ids(rs) {
        assert rs[FindId(rs, x)].routerId in Ids(rs);
      }
      SmallerSet(vs + {id}, Ids(rs));
      assert false;
    }
  }

  lemma VisitedBounds(rs: seq<Router>, visited: array<int>, used: nat)
    requires IsVisited(rs, visited, used)
    ensures used <= visited.Length == |rs|
  {
  }

  /** The first i neighbours ns have been searched without meeting the target; seen[used] is their router. */
  ghost predicate IsSearched(rs: seq<Router>, ns: Slots, seen: seq<int>, used: nat, i: nat, to: int) {
    && used < |seen| && i <= FreeSlot(ns)
    && (forall j | 0 <= j < i :: ns[j] in seen)
    && to !in seen[used..]
    && IsClosedFrom(rs, seen, used + 1)
  }

  lemma SearchStart(rs: seq<Router>, k: int, seen: seq<int>, used: nat, to: int)
    requires 0 <= k < |rs| && |seen| == used + 1 && seen[used] != to
    ensures IsSearched(rs, rs[k].neighbors, seen, used, 0, to)
  {
  }

  lemma SearchedIsLink(rs: seq<Router>, k: int, a: int, seen: seq<int>, used: nat, i: nat, to: int)
    requires 0 <= k < |rs| && k == FindId(rs, a) && i < MAX_NEIGHBORS && rs[k].neighbors[i] != -1
    requires IsSearched(rs, rs[k].neighbors, seen, used, i, to)
    ensures IsLink(rs, a, rs[k].neighbors[i])
  {
    assert Links(rs[k].neighbors)[i] == rs[k].neighbors[i];
  }

  /** What the search of one more neighbour adds to the visited slots. */
  lemma SearchStep(rs: seq<Router>, ns: Slots, before: seq<int>, after: seq<int>, used: nat, i: nat, to: int)
    requires IsSearched(rs, ns, before, used, i, to) && before <= after
    requires i < MAX_NEIGHBORS && ns[i] != -1 && ns[i] in after
    requires IsClosedFrom(rs, after, |before|) && to !in after[|before|..]
    ensures IsSearched(rs, ns, after, used, i + 1, to)
  {
    forall x | x in before ensures x in after {
      var j :| 0 <= j < |before| && before[j] == x;
      assert after[j] == x;
    }
    forall k, b | used + 1 <= k < |after| && IsLink(rs, after[k], b) ensures b in after {
      if k < |before| {
        assert before[k] == after[k];
        assert b in before;
      }
    }
    assert after[used..] == before[used..] + after[|before|..];
  }

  /** Once its neighbours are all searched, the router's own slot is closed too. */
  lemma SearchDone(rs: seq<Router>, k: int, a: int, seen: seq<int>, used: nat, i: nat, to: int)
    requires 0 <= k < |rs| && k == FindId(rs, a)
    requires IsSearched(rs, rs[k].neighbors, seen, used, i, to) && seen[used] == a
    requires i == MAX_NEIGHBORS || rs[k].neighbors[i] == -1
    ensures IsClosedFrom(rs, seen, used) && a in seen && to !in seen[used..]
  {
    assert FreeSlot(rs[k].neighbors) == i;
  }

  /** A search that visited a closed set without meeting the target proves there is no walk. */
  lemma NotVisitedNotReached(rs: seq<Router>, visited: seq<int>, a: int, to: int)
    requires a in visited && to !in visited && IsClosedFrom(rs, visited, 0)
    ensures !Reaches(rs, a, to)
  {
    var ids := set x | x in visited;
    forall b, c | b in ids && IsLink(rs, b, c) ensures c in ids {
      var k :| 0 <= k < |visited| && visited[k] == b;
      assert IsLink(rs, visited[k], c);
    }
    forall p | IsWalkBetween(rs, p, a, to) ensures false {
      ClosedSetConfinesWalk(rs, ids, p);
    }
  }

  /** A search that visited a closed set of existing routers proves that every walk stays among them. */
  lemma ClosedVisitStaysOnRouters(rs: seq<Router>, visited: seq<int>, a: int)
    requires a in visited && IsClosedFrom(rs, visited, 0)
    requires forall k | 0 <= k < |visited| :: Exists(rs, visited[k])
    ensures !ReachesNowhere(rs, a)
  {
    forall x | !Exists(rs, x) ensures !Reaches(rs, a, x) {
      NotVisitedNotReached(rs, visited, a, x);
    }
  }

  /** When the first router exists and every link leads to an existing router, the search cannot fail. */
  lemma ConnectedNeverFails(rs: seq<Router>, a: int)
    requires Connected(rs) && Exists(rs, a)
    ensures !ReachesNowhere(rs, a)
  {
    forall x | Reaches(rs, a, x) ensures Exists(rs, x) {
      var p :| IsWalkBetween(rs, p, a, x);
      WalkEndsAtRouter(rs, p);
    }
  }

  lemma WalkEndsAtRouter(rs: seq<Router>, p: seq<int>)
    requires Connected(rs) && IsWalk(rs, p) && Exists(rs, p[0])
    ensures Exists(rs, p[|p| - 1])
  {
    if |p| > 1 {
      assert IsLink(rs, p[|p| - 2], p[|p| - 1]);
      NeighboursAreDistinct(rs, p[|p| - 2]);
    }
  }
}
