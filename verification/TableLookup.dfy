/** Renaming the tables from indices to addresses, and looking rows up in them
    (home_exam/routing_server/src/routing_server_communication.c, home_exam/node/src/node_communication.c). */
module TableLookup {
  import opened Graphs
  import opened Tables
  import opened RoutingTables

  /** What both searches return when no row matches (node_communication.c:241, 508). */
  const NOT_FOUND := -1

  predicate RowsInRange(t: Table, n: int) {
    forall k | 0 <= k < |t| :: 0 <= t[k].destination < n && 0 <= t[k].nextHop < n
  }

  predicate TablesInRange(tables: seq<Table>) {
    forall s | 0 <= s < |tables| :: RowsInRange(tables[s], |tables|)
  }

  function Translated(t: Table, addresses: seq<int>): (r: Table)
    requires RowsInRange(t, |addresses|)
    ensures |r| == |t|
  {
    seq(|t|, k requires 0 <= k < |t| => Row(addresses[t[k].destination], addresses[t[k].nextHop]))
  }

  function TranslatedAll(tables: seq<Table>, addresses: seq<int>): (r: seq<Table>)
    requires TablesInRange(tables) && |addresses| == |tables|
    ensures |r| == |tables|
  {
    seq(|tables|, s requires 0 <= s < |tables| => Translated(tables[s], addresses))
  }

  method TranslateTableFromIdxToAddress(tables: RoutingTableArray, s: int, indexToAddress: array<int>)
    returns (rows: array<Row>)
    requires tables.Valid() && 0 <= s < tables.n && RowsInRange(tables.TableOf(s), indexToAddress.Length)
    ensures fresh(rows) && rows[..] == Translated(tables.TableOf(s), indexToAddress[..])
    ensures rows.Length == tables.nRows[s]
    ensures forall k | 0 <= k < rows.Length ::
              && rows[k].destination == indexToAddress[tables.rows[s, k].destination]
              && rows[k].nextHop == indexToAddress[tables.rows[s, k].nextHop]
  {
    rows := new Row[tables.nRows[s]];
    for row := 0 to rows.Length
      invariant forall k | 0 <= k < row :: rows[k] == Translated(tables.TableOf(s), indexToAddress[..])[k]
    {
      assert tables.TableOf(s)[row] == tables.rows[s, row];
      rows[row] := Row(indexToAddress[tables.rows[s, row].destination], indexToAddress[tables.rows[s, row].nextHop]);
    }
  }

  /** The forwarder's search (node_communication.c:241-247) stops at the first row. */
  method FindForwardHop(rows: array<Row>, destination: int) returns (nextHop: int)
    ensures nextHop == FirstMatch(rows[..], destination)
    ensures (forall k | 0 <= k < rows.Length :: rows[k].destination != destination) ==> nextHop == -1
    ensures forall k | 0 <= k < rows.Length && rows[k].destination == destination
                       && (forall l | 0 <= l < k :: rows[l].destination != destination) :: nextHop == rows[k].nextHop
  {
    nextHop := -1;
    for i := 0 to rows.Length
      invariant forall k | 0 <= k < i :: rows[k].destination != destination
      invariant nextHop == -1 && FirstMatch(rows[..], destination) == FirstMatch(rows[i..], destination)
    {
      assert rows[i..][0] == rows[i] && rows[i..][1..] == rows[i + 1..];
      if rows[i].destination == destination {
        nextHop := rows[i].nextHop;
        return;
      }
    }
  }

  /** The sender's search (node_communication.c:508-513) runs to the end and keeps the last row. */
  method FindSendHop(rows: array<Row>, destination: int) returns (nextHop: int)
    ensures nextHop == LastMatch(rows[..], destination)
    ensures (forall k | 0 <= k < rows.Length :: rows[k].destination != destination) ==> nextHop == -1
    ensures forall k | 0 <= k < rows.Length && rows[k].destination == destination
                       && (forall l | k < l < rows.Length :: rows[l].destination != destination) ::
              nextHop == rows[k].nextHop
  {
    nextHop := -1;
    ghost var last := -1;
    for row := 0 to rows.Length
      invariant -1 <= last < row && (last == -1 ==> nextHop == -1)
      invariant last >= 0 ==> rows[last].destination == destination && nextHop == rows[last].nextHop
      invariant forall l | last < l < row :: rows[l].destination != destination
      invariant nextHop == LastMatch(rows[..row], destination)
    {
      assert rows[..row + 1][..row] == rows[..row];
      if rows[row].destination == destination {
        nextHop := rows[row].nextHop;
        last := row;
      }
    }
    assert rows[..rows.Length] == rows[..];
  }

  /** Looking up an address in the translated table gives the address of the index table's next hop. As -1 stands for
      "not found", a lookup that finds the address -1 cannot be told from one that finds nothing. */
  lemma {:induction false} TranslationPreservesLookup(t: Table, addresses: seq<int>, d: int)
    requires RowsInRange(t, |addresses|) && NoDuplicates(addresses) && 0 <= d < |addresses|
    ensures HasRow(t, d) ==> 0 <= FirstMatch(t, d) < |addresses|
    ensures FirstMatch(Translated(t, addresses), addresses[d]) ==
              if HasRow(t, d) then addresses[FirstMatch(t, d)] else -1
    ensures -1 !in addresses ==>
              (FirstMatch(Translated(t, addresses), addresses[d]) == -1 <==> !HasRow(t, d))
  {
    if t != [] {
      assert Translated(t, addresses)[1..] == Translated(t[1..], addresses);
      TranslationPreservesLookup(t[1..], addresses, d);
      assert HasRow(t, d) <==> t[0].destination == d || HasRow(t[1..], d) by {
        if k :| 0 < k < |t| && t[k].destination == d {
          assert t[1..][k - 1].destination == d;
        }
      }
    }
  }

  lemma TranslationKeepsUnique(t: Table, addresses: seq<int>)
    requires RowsInRange(t, |addresses|) && NoDuplicates(addresses) && UniqueDestinations(t)
    ensures UniqueDestinations(Translated(t, addresses))
  {
  }

  /** After translation too, the sender's and the forwarder's searches agree. */
  lemma SearchesAgreeAfterTranslation(t: Table, addresses: seq<int>, destination: int)
    requires RowsInRange(t, |addresses|) && NoDuplicates(addresses) && UniqueDestinations(t)
    ensures FirstMatch(Translated(t, addresses), destination) == LastMatch(Translated(t, addresses), destination)
  {
    TranslationKeepsUnique(t, addresses);
    FirstAndLastMatchAgree(Translated(t, addresses), destination);
  }

  // ----- walks between addresses -----

  function IndexOf(addresses: seq<int>, a: int): (i: int)
    ensures a in addresses ==> 0 <= i < |addresses| && addresses[i] == a
    ensures a !in addresses ==> i == -1
  {
    if addresses == [] then -1
    else if addresses[|addresses| - 1] == a then |addresses| - 1
    else IndexOf(addresses[..|addresses| - 1], a)
  }

  function Before(a: int, w: Walk): Walk {
    match w
    case Stuck => Stuck
    case Reached(rest) => Reached([a] + rest)
  }

  /** k lookups of d by forwarders, starting at the node with address a; tables[i] is the table of addresses[i].
      A lookup that gives -1 ends the walk (node_communication.c:248-254), even if some node has that address. */
  function Forward(addresses: seq<int>, tables: seq<Table>, a: int, d: int, k: nat): Walk
    requires |addresses| == |tables|
    decreases k
  {
    if a !in addresses then Stuck
    else if k == 0 then Reached([a])
    else ForwardFrom(addresses, tables, a, FirstMatch(tables[IndexOf(addresses, a)], d), d, k)
  }

  function ForwardFrom(addresses: seq<int>, tables: seq<Table>, a: int, nextHop: int, d: int, k: nat): Walk
    requires |addresses| == |tables| && k > 0
    decreases k, 0
  {
    if nextHop == NOT_FOUND then Stuck
    else Before(a, Forward(addresses, tables, nextHop, d, k - 1))
  }

  /** The same when a is the sender: its own lookup keeps the last row (and ends the walk on -1 in line 514), the
      others stop at the first. */
  function Send(addresses: seq<int>, tables: seq<Table>, a: int, d: int, k: nat): Walk
    requires |addresses| == |tables|
  {
    if a !in addresses then Stuck
    else if k == 0 then Reached([a])
    else ForwardFrom(addresses, tables, a, LastMatch(tables[IndexOf(addresses, a)], d), d, k)
  }

  function Renamed(p: seq<int>, addresses: seq<int>): (r: seq<int>)
    requires InRange(p, |addresses|)
    ensures |r| == |p|
  {
    seq(|p|, i requires 0 <= i < |p| => addresses[p[i]])
  }

  lemma {:induction false} FollowStaysInRange(tables: seq<Table>, s: int, d: int, k: nat)
    requires Follow(tables, s, d, k).Reached?
    ensures |Follow(tables, s, d, k).nodes| == k + 1 && InRange(Follow(tables, s, d, k).nodes, |tables|)
    decreases k
  {
    if k > 0 {
      FollowStaysInRange(tables, FirstMatch(tables[s], d), d, k - 1);
    }
  }

  lemma RenamedParts(p: seq<int>, rest: seq<int>, addresses: seq<int>, s: int)
    requires 0 <= s < |addresses| && InRange(rest, |addresses|) && p == [s] + rest
    ensures InRange(p, |addresses|)
    ensures Renamed(p, addresses) == [addresses[s]] + Renamed(rest, addresses)
    ensures Renamed(p, addresses)[1..] == Renamed(rest, addresses)
  {
  }

  lemma LookupAtNode(addresses: seq<int>, tables: seq<Table>, s: int, d: int)
    requires TablesInRange(tables) && |addresses| == |tables| && NoDuplicates(addresses)
    requires 0 <= s < |tables| && 0 <= d < |tables| && 0 <= FirstMatch(tables[s], d) < |tables|
    ensures addresses[s] in addresses && IndexOf(addresses, addresses[s]) == s
    ensures FirstMatch(TranslatedAll(tables, addresses)[s], addresses[d]) == addresses[FirstMatch(tables[s], d)]
  {
    assert addresses[IndexOf(addresses, addresses[s])] == addresses[s];
    TranslationPreservesLookup(tables[s], addresses, d);
    if !HasRow(tables[s], d) {
      NoRowNoMatch(tables[s], d);
    }
  }

  lemma RenamedHead(p: seq<int>, addresses: seq<int>)
    requires |p| > 0 && InRange(p, |addresses|)
    ensures Renamed(p, addresses) == [addresses[p[0]]] + Renamed(p, addresses)[1..]
  {
  }

  /** A walk by indices is, address for address, the walk by the translated tables, unless it comes to a node with the
      address -1: then it ends there. */
  lemma {:induction false} ForwardIsRenamedFollow(addresses: seq<int>, tables: seq<Table>, s: int, d: int, k: nat)
    requires TablesInRange(tables) && |addresses| == |tables| && NoDuplicates(addresses)
    requires 0 <= d < |tables| && Follow(tables, s, d, k).Reached?
    ensures 0 <= s < |tables| && InRange(Follow(tables, s, d, k).nodes, |addresses|)
    ensures |Follow(tables, s, d, k).nodes| == k + 1
    ensures Forward(addresses, TranslatedAll(tables, addresses), addresses[s], addresses[d], k) ==
              var p := Renamed(Follow(tables, s, d, k).nodes, addresses);
              if -1 in p[1..] then Stuck else Reached(p)
    decreases k
  {
    hide TablesInRange, NoDuplicates, IndexOf, FirstMatch, Translated, TranslatedAll, Renamed;
    var p := Follow(tables, s, d, k).nodes;
    FollowStaysInRange(tables, s, d, k);
    if k > 0 {
      var h := FirstMatch(tables[s], d);
      var rest := Follow(tables, h, d, k - 1).nodes;
      ForwardIsRenamedFollow(addresses, tables, h, d, k - 1);
      LookupAtNode(addresses, tables, s, d);
      RenamedParts(p, rest, addresses, s);
      RenamedHead(rest, addresses);
    } else {
      RenamedParts(p, [], addresses, s);
      assert addresses[s] in addresses;
    }
  }

  /** Fewer lookups pass the first part of the same nodes. */
  lemma {:induction false} FollowPrefix(tables: seq<Table>, s: int, d: int, k: nat, j: nat)
    requires j <= k && Follow(tables, s, d, k).Reached?
    ensures |Follow(tables, s, d, k).nodes| == k + 1
    ensures Follow(tables, s, d, j) == Reached(Follow(tables, s, d, k).nodes[..j + 1])
    decreases k
  {
    if k > 0 {
      FollowPrefix(tables, FirstMatch(tables[s], d), d, k - 1, if j > 0 then j - 1 else 0);
    }
  }

  lemma {:induction false} ForwardPrefix(addresses: seq<int>, tables: seq<Table>, a: int, d: int, k: nat, j: nat)
    requires |addresses| == |tables| && j <= k && Forward(addresses, tables, a, d, k).Reached?
    ensures |Forward(addresses, tables, a, d, k).nodes| == k + 1
    ensures Forward(addresses, tables, a, d, j) == Reached(Forward(addresses, tables, a, d, k).nodes[..j + 1])
    decreases k
  {
    if k > 0 {
      var h := FirstMatch(tables[IndexOf(addresses, a)], d);
      ForwardPrefix(addresses, tables, h, d, k - 1, if j > 0 then j - 1 else 0);
    }
  }

  lemma SendIsForward(addresses: seq<int>, tables: seq<Table>, a: int, d: int, k: nat)
    requires |addresses| == |tables| && forall i | 0 <= i < |tables| :: UniqueDestinations(tables[i])
    ensures Send(addresses, tables, a, d, k) == Forward(addresses, tables, a, d, k)
  {
    if a in addresses {
      FirstAndLastMatchAgree(tables[IndexOf(addresses, a)], d);
    }
  }

  /** After its first node a walk never passes the address -1. */
  lemma {:induction false} SentWalkAvoidsNotFound(addresses: seq<int>, tables: seq<Table>, a: int, d: int, k: nat)
    requires |addresses| == |tables| && a != NOT_FOUND && Send(addresses, tables, a, d, k).Reached?
    ensures NOT_FOUND !in Send(addresses, tables, a, d, k).nodes
  {
    if k > 0 {
      var h := LastMatch(tables[IndexOf(addresses, a)], d);
      ForwardAvoidsNotFound(addresses, tables, h, d, k - 1);
    }
  }

  lemma {:induction false} ForwardAvoidsNotFound(addresses: seq<int>, tables: seq<Table>, a: int, d: int, k: nat)
    requires |addresses| == |tables| && a != NOT_FOUND && Forward(addresses, tables, a, d, k).Reached?
    ensures NOT_FOUND !in Forward(addresses, tables, a, d, k).nodes
    decreases k
  {
    if k > 0 {
      var h := FirstMatch(tables[IndexOf(addresses, a)], d);
      ForwardAvoidsNotFound(addresses, tables, h, d, k - 1);
    }
  }

  /** Three nodes in a row, the middle one with the address -1: by indices the tables lead from the first to the last,
      by addresses the first lookup already fails. */
  lemma WalkEndsAtMinusOne()
    ensures var tables := [[Row(1, 1), Row(2, 1)], [Row(2, 2)], []];
            var addresses := [1, -1, 3];
            && TablesInRange(tables) && NoDuplicates(addresses)
            && Follow(tables, 0, 2, 2) == Reached([0, 1, 2])
            && Forward(addresses, TranslatedAll(tables, addresses), 1, 3, 2) == Stuck
  {
    var tables := [[Row(1, 1), Row(2, 1)], [Row(2, 2)], []];
    var addresses := [1, -1, 3];
    assert FirstMatch(tables[0][1..], 2) == 1;
    assert Follow(tables, 1, 2, 1) == Reached([1, 2]);
    assert Follow(tables, 0, 2, 2) == Reached([0, 1, 2]);
    ForwardIsRenamedFollow(addresses, tables, 0, 2, 2);
    assert Renamed([0, 1, 2], addresses)[1..][0] == -1;
  }
}
