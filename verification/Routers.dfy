/** Routers as values: their neighbour slots, the directed graph they form, and what each operation does to them. */
module Routers {
  import opened Bytes
  import opened Flags
  import opened Graphs

  const MAX_NEIGHBORS := 10

  /** A neighbour array; -1 marks a free slot. */
  type Slots = s: seq<int> | |s| == MAX_NEIGHBORS witness [-1, -1, -1, -1, -1, -1, -1, -1, -1, -1]

  datatype Option<+T> = None | Some(value: T)

  /** model is None for a null pointer; otherwise the bytes of the string before its terminator. */
  datatype Router = Router(routerId: Byte, flag: Byte, model: Option<seq<Byte>>, neighbors: Slots)

  const NO_NEIGHBORS: Slots := [-1, -1, -1, -1, -1, -1, -1, -1, -1, -1]

  // ----- neighbour slots -----

  function FreeSlot(ns: seq<int>): nat {
    FirstFrom(ns, -1, 0)
  }

  /** The neighbours: the slots before the first free one. */
  function Links(ns: seq<int>): seq<int> {
    ns[..FreeSlot(ns)]
  }

  /** No neighbour is stored after a free slot. */
  predicate IsPacked(ns: seq<int>) {
    forall i | FreeSlot(ns) <= i < |ns| :: ns[i] == -1
  }

  /** addLink on one router: the first free slot is taken, if there is one. */
  function WithLink(ns: Slots, to: int): Option<Slots> {
    if FreeSlot(ns) == MAX_NEIGHBORS then None else Some(ns[FreeSlot(ns) := to])
  }

  /** deleteRouter on one router: the first link to id is replaced by the last link. */
  function WithoutLink(ns: Slots, id: int): Slots
    requires id != -1
  {
    var i, free := FirstFrom(ns, id, 0), FreeSlot(ns);
    if i >= free then ns
    else if (i == 0 && ns[1] == -1) || i == MAX_NEIGHBORS - 1 then ns[i := -1]
    else
      var last := if ns[MAX_NEIGHBORS - 1] == -1 then free - 1 else MAX_NEIGHBORS - 1;
      ns[i := ns[last]][last := -1]
  }

  /** A packed array is its links followed by free slots, so equal links mean equal arrays. */
  lemma PackedIsItsLinks(ns: Slots, ms: Slots)
    requires IsPacked(ns) && IsPacked(ms) && Links(ns) == Links(ms)
    ensures ns == ms
  {
    forall i | 0 <= i < MAX_NEIGHBORS ensures ns[i] == ms[i] {
      if i < FreeSlot(ns) {
        assert ns[i] == Links(ns)[i] == Links(ms)[i];
      }
    }
  }

  lemma FreeSlotIs(ns: seq<int>, k: nat)
    requires k <= |ns| && (forall i | 0 <= i < k :: ns[i] != -1) && (k < |ns| ==> ns[k] == -1)
    ensures FreeSlot(ns) == k
  {
  }

  /** Adding a link to a packed array appends it. */
  lemma WithLinkAppends(ns: Slots, to: int)
    requires IsPacked(ns) && to != -1
    ensures WithLink(ns, to).None? <==> |Links(ns)| == MAX_NEIGHBORS
    ensures WithLink(ns, to).Some? ==>
              IsPacked(WithLink(ns, to).value) && Links(WithLink(ns, to).value) == Links(ns) + [to]
  {
    if WithLink(ns, to).Some? {
      var ms := WithLink(ns, to).value;
      FreeSlotIs(ms, FreeSlot(ns) + 1);
    }
  }

  /** s with the element at i replaced by the last one. */
  function SwappedOut(s: seq<int>, i: int): (t: seq<int>)
    requires 0 <= i < |s|
    ensures |t| == |s| - 1
    ensures forall j | 0 <= j < |t| :: t[j] == s[if j == i then |s| - 1 else j]
  {
    var last := |s| - 1;
    if i == last then s[..last] else s[..i] + ([s[last]] + s[i + 1..last])
  }

  /** Moving the last element into the place of another removes just that one. */
  lemma SwapOutRemovesOne(s: seq<int>, i: int)
    requires 0 <= i < |s|
    ensures multiset(SwappedOut(s, i)) == multiset(s) - multiset{s[i]}
  {
    var last := |s| - 1;
    if i == last {
      WithoutLast(s, s[..last], s[i]);
    } else {
      WithoutMiddle(s, SwappedOut(s, i), s[..i], s[i], s[i + 1..last], s[last]);
    }
  }

  lemma WithoutLast(s: seq<int>, before: seq<int>, x: int)
    requires s == before + [x]
    ensures multiset(before) == multiset(s) - multiset{x}
  {
  }

  lemma WithoutMiddle(s: seq<int>, t: seq<int>, before: seq<int>, x: int, after: seq<int>, y: int)
    requires s == before + ([x] + (after + [y])) && t == before + ([y] + after)
    ensures multiset(t) == multiset(s) - multiset{x}
  {
    var a, b := multiset(before), multiset(after);
    assert multiset(t) == a + multiset{y} + b;
    assert multiset(s) == a + multiset{x} + b + multiset{y};
  }

  lemma WithoutLinkSwapsOut(ns: Slots, id: int)
    requires IsPacked(ns) && id != -1 && FirstFrom(ns, id, 0) < FreeSlot(ns)
    ensures var links, i := Links(ns), FirstFrom(ns, id, 0);
            && IsPacked(WithoutLink(ns, id))
            && Links(WithoutLink(ns, id)) == SwappedOut(links, i)
  {
    var ms, i, free := WithoutLink(ns, id), FirstFrom(ns, id, 0), FreeSlot(ns);
    FreeSlotIs(ms, free - 1);
    assert forall j | 0 <= j < free - 1 :: ms[j] == ns[if j == i then free - 1 else j];
  }

  /** Removing a link takes one occurrence out of the links and keeps the rest, in some order. */
  lemma WithoutLinkRemovesOne(ns: Slots, id: int)
    requires IsPacked(ns) && id != -1
    ensures IsPacked(WithoutLink(ns, id))
    ensures multiset(Links(WithoutLink(ns, id))) == multiset(Links(ns)) - multiset{id}
  {
    if FirstFrom(ns, id, 0) < FreeSlot(ns) {
      assert Links(ns)[FirstFrom(ns, id, 0)] == id;
      hide WithoutLink, Links, IsPacked;
      WithoutLinkSwapsOut(ns, id);
      SwapOutRemovesOne(Links(ns), FirstFrom(ns, id, 0));
    } else {
      assert id !in Links(ns);
    }
  }

  lemma WithoutLinkAddsNone(ns: Slots, id: int, x: int)
    requires IsPacked(ns) && id != -1 && x in Links(WithoutLink(ns, id))
    ensures x in Links(ns)
  {
    WithoutLinkRemovesOne(ns, id);
    assert x in multiset(Links(WithoutLink(ns, id)));
    assert x in multiset(Links(ns));
  }

  /** No link to id remains exactly when there was at most one. */
  lemma WithoutLinkRemovesAllIff(ns: Slots, id: int)
    requires IsPacked(ns) && id != -1
    ensures id !in Links(WithoutLink(ns, id)) <==> multiset(Links(ns))[id] <= 1
  {
    WithoutLinkRemovesOne(ns, id);
    assert id in Links(WithoutLink(ns, id)) <==> id in multiset(Links(WithoutLink(ns, id)));
  }

  lemma {:induction false} DuplicateFreeCount(s: seq<int>, x: int)
    ensures NoDuplicates(s) ==> multiset(s)[x] <= 1
  {
    if |s| > 0 && NoDuplicates(s) {
      DuplicateFreeCount(s[1..], x);
      assert s == [s[0]] + s[1..];
      if s[0] == x {
        assert x !in s[1..];
      }
    }
  }

  lemma {:induction false} CountsAreDuplicateFree(s: seq<int>)
    requires forall x: int :: multiset(s)[x] <= 1
    ensures NoDuplicates(s)
  {
    if |s| > 0 {
      assert s == [s[0]] + s[1..];
      forall x: int ensures multiset(s[1..])[x] <= 1 {
        assert multiset(s)[x] <= 1;
      }
      CountsAreDuplicateFree(s[1..]);
      assert multiset(s)[s[0]] <= 1;
      assert s[0] !in s[1..];
    }
  }

  // ----- the array of routers -----

  /** The first router with this id, or -1. */
  function FindId(rs: seq<Router>, id: int): (k: int)
    ensures -1 <= k < |rs|
    ensures k >= 0 ==> rs[k].routerId == id && forall j | 0 <= j < k :: rs[j].routerId != id
    ensures k == -1 ==> forall j | 0 <= j < |rs| :: rs[j].routerId != id
  {
    FindIdFrom(rs, id, 0)
  }

  function FindIdFrom(rs: seq<Router>, id: int, i: nat): (k: int)
    requires i <= |rs|
    ensures k == -1 || i <= k < |rs|
    ensures k >= 0 ==> rs[k].routerId == id && forall j | i <= j < k :: rs[j].routerId != id
    ensures k == -1 ==> forall j | i <= j < |rs| :: rs[j].routerId != id
    decreases |rs| - i
  {
    if i == |rs| then -1 else if rs[i].routerId == id then i else FindIdFrom(rs, id, i + 1)
  }

  predicate Exists(rs: seq<Router>, id: int) {
    FindId(rs, id) != -1
  }

  /** The neighbours of the router with this id. */
  function Neighbours(rs: seq<Router>, id: int): seq<int> {
    if Exists(rs, id) then Links(rs[FindId(rs, id)].neighbors) else []
  }

  predicate DistinctIds(rs: seq<Router>) {
    forall i, j | 0 <= i < j < |rs| :: rs[i].routerId != rs[j].routerId
  }

  predicate AllPacked(rs: seq<Router>) {
    forall i | 0 <= i < |rs| :: IsPacked(rs[i].neighbors) && forall x | x in Links(rs[i].neighbors) :: 0 <= x < 256
  }

  /** What every operation keeps. */
  predicate WellFormed(rs: seq<Router>) {
    DistinctIds(rs) && AllPacked(rs)
  }

  /** No router is linked twice, and every link leads to a router that exists. */
  ghost predicate Connected(rs: seq<Router>) {
    forall i | 0 <= i < |rs| ::
      NoDuplicates(Links(rs[i].neighbors)) && forall x | x in Links(rs[i].neighbors) :: Exists(rs, x)
  }

  lemma FindIdIs(rs: seq<Router>, k: int)
    requires DistinctIds(rs) && 0 <= k < |rs|
    ensures FindId(rs, rs[k].routerId) == k
  {
  }

  // ----- addLink -----

  function AfterAddLink(rs: seq<Router>, from: Byte, to: Byte): Option<seq<Router>> {
    var k := FindId(rs, from);
    if k == -1 then None
    else
      match WithLink(rs[k].neighbors, to)
      case None => None
      case Some(ns) => Some(rs[k := rs[k].(neighbors := ns)])
  }

  // ----- setFlag and setModel -----

  function AfterSetFlag(rs: seq<Router>, id: int, which: int, value: int): Option<seq<Router>> {
    var k := FindId(rs, id);
    if !IsFlagValue(which, value) || k == -1 then None
    else Some(rs[k := rs[k].(flag := WithFlag(rs[k].flag, which, value))])
  }

  /** name is the bytes of the string before its terminator. */
  function AfterSetModel(rs: seq<Router>, id: int, name: seq<Byte>): Option<seq<Router>> {
    var k := FindId(rs, id);
    if k == -1 then None else Some(rs[k := rs[k].(model := Some(name))])
  }

  /** addLink changes one slot: the first free one of the first router with the id. It needs such a router with a free
      slot. */
  lemma AfterAddLinkIs(rs: seq<Router>, from: Byte, to: Byte)
    ensures AfterAddLink(rs, from, to).Some? <==>
              exists k, f :: 0 <= k < |rs| && rs[k].routerId == from
                             && (forall i | 0 <= i < k :: rs[i].routerId != from)
                             && 0 <= f < 10 && rs[k].neighbors[f] == -1
    ensures AfterAddLink(rs, from, to).Some? ==>
              var ss := AfterAddLink(rs, from, to).value;
              && |ss| == |rs|
              && forall i, j {:trigger ss[i].neighbors[j]} | 0 <= i < |rs| && 0 <= j < 10 ::
                   && ss[i] == rs[i].(neighbors := ss[i].neighbors)
                   && ss[i].neighbors[j] ==
                        if && rs[i].routerId == from && (forall l | 0 <= l < i :: rs[l].routerId != from)
                           && rs[i].neighbors[j] == -1 && (forall l | 0 <= l < j :: rs[i].neighbors[l] != -1)
                        then to
                        else rs[i].neighbors[j]
  {
    var k := FindId(rs, from);
    if k != -1 {
      var f := FreeSlot(rs[k].neighbors);
      if f < MAX_NEIGHBORS {
        assert rs[k].neighbors[f] == -1;
      }
    }
  }

  /** setFlag changes the flag of the first router with the id, and nothing else: one of the lowest three bits becomes
      the value, or the upper four become its mirrored bits. */
  lemma AfterSetFlagIs(rs: seq<Router>, id: int, which: int, value: int)
    ensures AfterSetFlag(rs, id, which, value).Some? <==>
              && ((0 <= which <= 2 && 0 <= value <= 1) || (which == 4 && 0 <= value <= 15))
              && exists i :: 0 <= i < |rs| && rs[i].routerId == id
    ensures AfterSetFlag(rs, id, which, value).Some? ==>
              var ss := AfterSetFlag(rs, id, which, value).value;
              && |ss| == |rs|
              && forall i | 0 <= i < |rs| ::
                   if rs[i].routerId == id && (forall j | 0 <= j < i :: rs[j].routerId != id) then
                     var n: int, n': int := rs[i].flag, ss[i].flag;
                     && ss[i] == rs[i].(flag := n')
                     && n' == if which == 0 then n - n % 2 + value
                              else if which == 1 then n - 2 * (n / 2 % 2) + 2 * value
                              else if which == 2 then n - 4 * (n / 4 % 2) + 4 * value
                              else n % 16 + 128 * (value % 2) + 64 * (value / 2 % 2) + 32 * (value / 4 % 2)
                                   + 16 * (value / 8)
                   else ss[i] == rs[i]
  {
    var k := FindId(rs, id);
    if IsFlagValue(which, value) && k != -1 {
      FlagArithmetic(rs[k].flag, which, value);
    }
  }

  /** setModel changes the model of the first router with the id, and nothing else. */
  lemma AfterSetModelIs(rs: seq<Router>, id: int, name: seq<Byte>)
    ensures AfterSetModel(rs, id, name).Some? <==> exists i :: 0 <= i < |rs| && rs[i].routerId == id
    ensures AfterSetModel(rs, id, name).Some? ==>
              var ss := AfterSetModel(rs, id, name).value;
              && |ss| == |rs|
              && forall i | 0 <= i < |rs| ::
                   ss[i] == if rs[i].routerId == id && (forall j | 0 <= j < i :: rs[j].routerId != id)
                            then rs[i].(model := Some(name))
                            else rs[i]
  {
  }

  // ----- deleteRouter -----

  function WithoutLinks(rs: seq<Router>, id: Byte): (r: seq<Router>)
    ensures |r| == |rs|
    ensures forall i | 0 <= i < |rs| :: r[i] == rs[i].(neighbors := WithoutLink(rs[i].neighbors, id))
  {
    seq(|rs|, i requires 0 <= i < |rs| => rs[i].(neighbors := WithoutLink(rs[i].neighbors, id)))
  }

  /** Line 234 asks after the count was decremented, so the first of two routers counts as the only one. */
  predicate KeepsWrongRouter(rs: seq<Router>, id: int) {
    |rs| == 2 && FindId(rs, id) == 0
  }

  /** The routers left after deleting an existing id: the links to it go, its string is freed, and the last router
      takes its place. */
  function AfterDelete(rs: seq<Router>, id: Byte): seq<Router>
    requires Exists(rs, id)
  {
    var k, last, ss := FindId(rs, id), |rs| - 1, WithoutLinks(rs, id);
    var freed := ss[k := ss[k].(model := None)];
    if KeepsWrongRouter(rs, id) || k == last then freed[..last] else freed[k := freed[last]][..last]
  }

  /** Slot by slot: the last neighbour moves into the place of the first link to the id, and leaves a free slot. */
  lemma WithoutLinkIs(ns: Slots, id: int, h: int, m: int)
    requires id != -1 && 0 <= h < m <= 10 && ns[h] == id && forall j | 0 <= j < h :: ns[j] != id
    requires forall j | 0 <= j < 10 :: ns[j] == -1 <==> m <= j
    ensures forall j | 0 <= j < 10 ::
              WithoutLink(ns, id)[j] == if j == m - 1 then -1 else if j == h then ns[m - 1] else ns[j]
  {
    FreeSlotIs(ns, m);
    FirstFromIs(ns, id, 0, h);
  }

  lemma WithoutNoLink(ns: Slots, id: int)
    requires id != -1 && id !in Links(ns)
    ensures WithoutLink(ns, id) == ns
  {
    forall j | 0 <= j < FreeSlot(ns) ensures ns[j] != id {
      assert Links(ns)[j] == ns[j];
    }
  }

  /** The places after a deletion: the last router takes the place of the deleted one, except that of two routers the
      first one stays and only loses its model. Ids, flags and the other models go along. */
  lemma AfterDeleteIs(rs: seq<Router>, id: Byte, k: int)
    requires 0 <= k < |rs| && rs[k].routerId == id && forall j | 0 <= j < k :: rs[j].routerId != id
    ensures var ss := AfterDelete(rs, id);
            && |ss| == |rs| - 1
            && forall i | 0 <= i < |ss| ::
                 var o := if i == k && !(|rs| == 2 && k == 0) then rs[|rs| - 1] else rs[i];
                 && ss[i].routerId == o.routerId && ss[i].flag == o.flag
                 && ss[i].model == (if i == k && |rs| == 2 && k == 0 then None else o.model)
                 && ss[i].neighbors == WithoutLink(o.neighbors, id)
  {
    hide WithoutLink;
    assert FindId(rs, id) == k;
  }

  /** Whatever is deleted, ids stay distinct and lists packed. */
  lemma DeleteKeepsWellFormed(rs: seq<Router>, id: Byte)
    requires WellFormed(rs) && Exists(rs, id)
    ensures WellFormed(AfterDelete(rs, id)) && |AfterDelete(rs, id)| == |rs| - 1
  {
    hide Links, IsPacked, FindId, WithoutLink;
    forall i | 0 <= i < |rs|
      ensures IsPacked(WithoutLink(rs[i].neighbors, id))
      ensures forall x | x in Links(WithoutLink(rs[i].neighbors, id)) :: 0 <= x < 256
    {
      WithoutLinkRemovesOne(rs[i].neighbors, id);
      forall x | x in Links(WithoutLink(rs[i].neighbors, id)) ensures 0 <= x < 256 {
        WithoutLinkAddsNone(rs[i].neighbors, id, x);
      }
    }
  }

  /** The router is gone afterwards, unless it was the first of two. */
  lemma DeleteRemovesRouterIff(rs: seq<Router>, id: Byte)
    requires DistinctIds(rs) && Exists(rs, id)
    ensures !Exists(AfterDelete(rs, id), id) <==> !KeepsWrongRouter(rs, id)
  {
  }

  /** Such a pair exists: deleting 1 leaves 1 and loses 2. */
  lemma DeletingFirstOfTwoLosesTheOther()
    ensures var rs := [Router(1, 0, Some([65]), NO_NEIGHBORS), Router(2, 0, Some([66]), NO_NEIGHBORS)];
            Exists(rs, 1) && AfterDelete(rs, 1) == [Router(1, 0, None, NO_NEIGHBORS)]
  {
  }

  /** In all other cases every other router is still there, with its flag and model, and its links are the old ones
      less one link to the deleted router. */
  lemma DeleteKeepsOthers(rs: seq<Router>, id: Byte, other: int)
    requires WellFormed(rs) && Exists(rs, id) && !KeepsWrongRouter(rs, id) && other != id
    ensures Exists(AfterDelete(rs, id), other) <==> Exists(rs, other)
    ensures Exists(rs, other) ==>
              var r, r' := rs[FindId(rs, other)], AfterDelete(rs, id)[FindId(AfterDelete(rs, id), other)];
              && r'.flag == r.flag && r'.model == r.model
              && multiset(Links(r'.neighbors)) == multiset(Links(r.neighbors)) - multiset{id as int}
  {
    var ss, k, last := AfterDelete(rs, id), FindId(rs, id), |rs| - 1;
    DeleteKeepsWellFormed(rs, id);
    if Exists(rs, other) {
      var o := FindId(rs, other);
      var o' := if o == last then k else o;
      WithoutLinkRemovesOne(rs[o].neighbors, id);
      assert ss[o'] == rs[o].(neighbors := WithoutLink(rs[o].neighbors, id));
      FindIdIs(ss, o');
    }
  }
}
