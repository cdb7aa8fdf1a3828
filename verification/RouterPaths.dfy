/** Walks along the links between routers, what deleting a router and adding a link do to them. */
module RouterPaths {
  import opened Bytes
  import opened Graphs
  import opened Routers

  predicate IsLink(rs: seq<Router>, a: int, b: int) {
    b in Neighbours(rs, a)
  }

  predicate IsWalk(rs: seq<Router>, p: seq<int>) {
    |p| > 0 && forall i | 0 < i < |p| :: IsLink(rs, p[i - 1], p[i])
  }

  predicate IsWalkBetween(rs: seq<Router>, p: seq<int>, a: int, b: int) {
    IsWalk(rs, p) && p[0] == a && p[|p| - 1] == b
  }

  /** A directed walk leads from a to b; the one-node walk leads from a to itself. */
  ghost predicate Reaches(rs: seq<Router>, a: int, b: int) {
    exists p :: IsWalkBetween(rs, p, a, b)
  }

  ghost predicate ReachesAvoiding(rs: seq<Router>, a: int, b: int, x: int) {
    exists p :: IsWalkBetween(rs, p, a, b) && x !in p
  }

  lemma ReachesItself(rs: seq<Router>, a: int)
    ensures Reaches(rs, a, a)
  {
    assert IsWalkBetween(rs, [a], a, a);
  }

  lemma LinkThenReaches(rs: seq<Router>, a: int, b: int, c: int)
    requires IsLink(rs, a, b) && Reaches(rs, b, c)
    ensures Reaches(rs, a, c)
  {
    var p :| IsWalkBetween(rs, p, b, c);
    var q := [a] + p;
    forall i | 0 < i < |q| ensures IsLink(rs, q[i - 1], q[i]) {
      if i > 1 {
        assert IsLink(rs, p[i - 2], p[i - 1]);
      }
    }
    assert IsWalkBetween(rs, q, a, c);
  }

  /** No walk leaves a set of routers that is closed under links. */
  lemma {:induction false} ClosedSetConfinesWalk(rs: seq<Router>, ids: set<int>, p: seq<int>)
    requires IsWalk(rs, p) && p[0] in ids
    requires forall a, b | a in ids && IsLink(rs, a, b) :: b in ids
    ensures p[|p| - 1] in ids
  {
    if |p| > 1 {
      ClosedSetConfinesWalk(rs, ids, p[..|p| - 1]);
      assert IsLink(rs, p[|p| - 2], p[|p| - 1]);
    }
  }

  // ----- deletion -----

  /** Every router that is left after a deletion has its old neighbours less one link to the deleted router. */
  lemma NeighboursAfterDelete(rs: seq<Router>, id: Byte, a: int)
    requires WellFormed(rs) && Exists(rs, id)
    ensures multiset(Neighbours(AfterDelete(rs, id), a)) ==
              if Exists(AfterDelete(rs, id), a) then multiset(Neighbours(rs, a)) - multiset{id as int} else multiset{}
  {
    var ss := AfterDelete(rs, id);
    DeleteKeepsWellFormed(rs, id);
    if Exists(ss, a) {
      if KeepsWrongRouter(rs, id) {
        assert FindId(ss, a) == FindId(rs, a) == 0;
        WithoutLinkRemovesOne(rs[0].neighbors, id);
      } else {
        DeleteRemovesRouterIff(rs, id);
        DeleteKeepsOthers(rs, id, a);
      }
    }
  }

  /** No link to the deleted id remains exactly when none of the routers that are left had linked it twice. */
  lemma DeleteClearsLinksIff(rs: seq<Router>, id: Byte)
    requires WellFormed(rs) && Exists(rs, id)
    ensures (forall a: int :: !IsLink(AfterDelete(rs, id), a, id)) <==>
            (forall a | Exists(AfterDelete(rs, id), a) :: multiset(Neighbours(rs, a))[id] <= 1)
  {
    var ss := AfterDelete(rs, id);
    forall a: int ensures IsLink(ss, a, id) <==> Exists(ss, a) && multiset(Neighbours(rs, a))[id] > 1 {
      NeighboursAfterDelete(rs, id, a);
      assert IsLink(ss, a, id) <==> (id as int) in multiset(Neighbours(ss, a));
    }
  }

  const LINKED_TWICE: Slots := [3, 3, -1, -1, -1, -1, -1, -1, -1, -1]

  lemma LinkedTwiceLinks()
    ensures IsPacked(LINKED_TWICE) && Links(LINKED_TWICE) == [3, 3]
    ensures IsPacked(NO_NEIGHBORS) && Links(NO_NEIGHBORS) == []
  {
    FreeSlotIs(LINKED_TWICE, 2);
    FreeSlotIs(NO_NEIGHBORS, 0);
  }

  /** Router 1 links router 3 twice: one of the two links is left when 3 is deleted. */
  lemma SecondLinkIsLeft()
    ensures var rs := [Router(1, 0, None, LINKED_TWICE), Router(2, 0, None, NO_NEIGHBORS),
                       Router(3, 0, None, NO_NEIGHBORS)];
            WellFormed(rs) && Exists(rs, 3) && IsLink(AfterDelete(rs, 3), 1, 3) && !Exists(AfterDelete(rs, 3), 3)
  {
    hide Links, IsPacked, WithoutLink, AfterDelete;
    var rs := [Router(1, 0, None, LINKED_TWICE), Router(2, 0, None, NO_NEIGHBORS), Router(3, 0, None, NO_NEIGHBORS)];
    LinkedTwiceLinks();
    FindIdIs(rs, 0);
    FindIdIs(rs, 2);
    DeleteRemovesRouterIff(rs, 3);
    DeleteKeepsOthers(rs, 3, 1);
    NeighboursAfterDelete(rs, 3, 1);
    assert multiset(Neighbours(rs, 1))[3] == 2;
    assert 3 in multiset(Neighbours(AfterDelete(rs, 3), 1));
  }

  lemma NeighboursAfterCleanDelete(rs: seq<Router>, id: Byte, a: int)
    requires WellFormed(rs) && Exists(rs, id) && !KeepsWrongRouter(rs, id)
    ensures multiset(Neighbours(AfterDelete(rs, id), a)) ==
              if a == id then multiset{} else multiset(Neighbours(rs, a)) - multiset{id as int}
  {
    hide AfterDelete, AllPacked, Links;
    NeighboursAfterDelete(rs, id, a);
    if a == id {
      DeleteRemovesRouterIff(rs, id);
    } else {
      DeleteKeepsOthers(rs, id, a);
    }
  }

  /** Exactly the links from and to the deleted router go. */
  lemma DeleteRemovesItsLinks(rs: seq<Router>, id: Byte, a: int, b: int)
    requires WellFormed(rs) && Connected(rs) && Exists(rs, id) && !KeepsWrongRouter(rs, id)
    ensures IsLink(AfterDelete(rs, id), a, b) <==> IsLink(rs, a, b) && a != id && b != id
  {
    hide AfterDelete, WellFormed, Connected, Neighbours, Exists, KeepsWrongRouter, NoDuplicates;
    NeighboursAfterCleanDelete(rs, id, a);
    NeighboursAreDistinct(rs, a);
    DuplicateFreeCount(Neighbours(rs, a), id);
    assert IsLink(rs, a, b) <==> b in multiset(Neighbours(rs, a));
    assert IsLink(AfterDelete(rs, id), a, b) <==> b in multiset(Neighbours(AfterDelete(rs, id), a));
  }

  lemma NeighboursAreDistinct(rs: seq<Router>, a: int)
    requires Connected(rs)
    ensures NoDuplicates(Neighbours(rs, a))
    ensures forall b | b in Neighbours(rs, a) :: Exists(rs, b)
  {
  }

  /** After a deletion, v is reached from u exactly when it was reached before without passing the deleted router. */
  lemma DeleteKeepsAvoidingWalks(rs: seq<Router>, id: Byte, u: int, v: int)
    requires WellFormed(rs) && Connected(rs) && Exists(rs, id) && !KeepsWrongRouter(rs, id) && u != id
    ensures Reaches(AfterDelete(rs, id), u, v) <==> ReachesAvoiding(rs, u, v, id)
  {
    var ss := AfterDelete(rs, id);
    if p :| IsWalkBetween(ss, p, u, v) {
      forall i | 0 < i < |p| ensures IsLink(rs, p[i - 1], p[i]) && p[i] != id {
        assert IsLink(ss, p[i - 1], p[i]);
        DeleteRemovesItsLinks(rs, id, p[i - 1], p[i]);
      }
      assert IsWalkBetween(rs, p, u, v) && id !in p;
    }
    if p :| IsWalkBetween(rs, p, u, v) && id !in p {
      forall i | 0 < i < |p| ensures IsLink(ss, p[i - 1], p[i]) {
        assert IsLink(rs, p[i - 1], p[i]);
        DeleteRemovesItsLinks(rs, id, p[i - 1], p[i]);
      }
      assert IsWalkBetween(ss, p, u, v);
    }
  }

  lemma ConnectedIff(rs: seq<Router>)
    requires DistinctIds(rs)
    ensures Connected(rs) <==>
              forall a: int :: NoDuplicates(Neighbours(rs, a)) && forall b | b in Neighbours(rs, a) :: Exists(rs, b)
  {
    if forall a: int :: NoDuplicates(Neighbours(rs, a)) && forall b | b in Neighbours(rs, a) :: Exists(rs, b) {
      forall i | 0 <= i < |rs| ensures
        NoDuplicates(Links(rs[i].neighbors)) && forall x | x in Links(rs[i].neighbors) :: Exists(rs, x)
      {
        FindIdIs(rs, i);
        assert Neighbours(rs, rs[i].routerId) == Links(rs[i].neighbors);
      }
    }
  }

  lemma DeleteKeepsConnected(rs: seq<Router>, id: Byte)
    requires WellFormed(rs) && Connected(rs) && Exists(rs, id) && !KeepsWrongRouter(rs, id)
    ensures WellFormed(AfterDelete(rs, id)) && Connected(AfterDelete(rs, id))
  {
    var ss := AfterDelete(rs, id);
    DeleteKeepsWellFormed(rs, id);
    forall a: int
      ensures NoDuplicates(Neighbours(ss, a)) && forall b | b in Neighbours(ss, a) :: Exists(ss, b)
    {
      NeighboursAreDistinct(rs, a);
      NeighboursAfterCleanDelete(rs, id, a);
      forall x: int ensures multiset(Neighbours(ss, a))[x] <= 1 {
        DuplicateFreeCount(Neighbours(rs, a), x);
      }
      CountsAreDuplicateFree(Neighbours(ss, a));
      forall b | b in Neighbours(ss, a) ensures Exists(ss, b) {
        assert IsLink(ss, a, b);
        DeleteRemovesItsLinks(rs, id, a, b);
        DeleteKeepsOthers(rs, id, b);
      }
    }
    ConnectedIff(ss);
  }

  // ----- adding a link -----

  /** Only the one router changes, and its neighbours gain the new one at the end. */
  lemma AddLinkAppends(rs: seq<Router>, from: Byte, to: Byte)
    requires WellFormed(rs)
    ensures AfterAddLink(rs, from, to).None? <==> !Exists(rs, from) || |Neighbours(rs, from)| == MAX_NEIGHBORS
    ensures AfterAddLink(rs, from, to).Some? ==>
              var ss := AfterAddLink(rs, from, to).value;
              && WellFormed(ss) && |ss| == |rs|
              && (forall a: int :: FindId(ss, a) == FindId(rs, a))
              && (forall a: int :: Neighbours(ss, a) == Neighbours(rs, a) + if a == from then [to as int] else [])
  {
    if Exists(rs, from) {
      var k := FindId(rs, from);
      WithLinkAppends(rs[k].neighbors, to);
      if AfterAddLink(rs, from, to).Some? {
        var ss := AfterAddLink(rs, from, to).value;
        assert forall i | 0 <= i < |rs| :: ss[i].routerId == rs[i].routerId;
        forall a: int
          ensures FindId(ss, a) == FindId(rs, a)
          ensures Neighbours(ss, a) == Neighbours(rs, a) + if a == from then [to as int] else []
        {
          SameIdsSameIndex(rs, ss, a);
        }
      }
    }
  }

  lemma SameIdsSameIndex(rs: seq<Router>, ss: seq<Router>, a: int)
    requires |ss| == |rs| && forall i | 0 <= i < |rs| :: ss[i].routerId == rs[i].routerId
    ensures FindId(ss, a) == FindId(rs, a)
  {
  }

  lemma AddLinkKeepsConnected(rs: seq<Router>, from: Byte, to: Byte)
    requires WellFormed(rs) && Connected(rs) && Exists(rs, to) && !IsLink(rs, from, to)
    requires AfterAddLink(rs, from, to).Some?
    ensures Connected(AfterAddLink(rs, from, to).value)
  {
    var ss := AfterAddLink(rs, from, to).value;
    AddLinkAppends(rs, from, to);
    forall a: int
      ensures NoDuplicates(Neighbours(ss, a)) && forall b | b in Neighbours(ss, a) :: Exists(ss, b)
    {
      NeighboursAreDistinct(rs, a);
    }
    ConnectedIff(ss);
  }
}
