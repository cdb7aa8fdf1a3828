/** The commands of the router program as values, and what whole runs of them keep
    (obligatory_assignment/src/command.c, runCommand). */
module Commands {
  import opened Bytes
  import opened Routers
  import opened RouterPaths

  datatype Command =
    | Print(id: int)
    | SetFlag(id: int, which: int, value: int)
    | SetModel(id: int, name: seq<Byte>)
    | AddLink(from: Byte, to: Byte)
    | DeleteRouter(id: int)
    | ExistRoute(from: Byte, to: Byte)
    | Unknown

  /** The routers after a command that succeeds, or None if it fails. An exist_route that succeeds changes nothing; it
      may also fail, when a walk leads to an id that no router has. Deleting the last router fails where realloc to no
      bytes returns a null pointer. */
  function AfterCommand(rs: seq<Router>, c: Command, reallocToZeroIsNull: bool): Option<seq<Router>> {
    match c
    case Print(id) => if Exists(rs, id) then Some(rs) else None
    case SetFlag(id, which, value) => AfterSetFlag(rs, id, which, value)
    case SetModel(id, name) => AfterSetModel(rs, id, name)
    case AddLink(from, to) => AfterAddLink(rs, from, to)
    case DeleteRouter(id) =>
      if !Exists(rs, id) || (|rs| == 1 && reallocToZeroIsNull) then None else Some(AfterDelete(rs, id))
    case ExistRoute(from, to) => Some(rs)
    case Unknown => None
  }

  /** The routers after all the commands, or None if one of them fails: the program stops at the first that does. */
  function Run(rs: seq<Router>, cs: seq<Command>, reallocToZeroIsNull: bool): Option<seq<Router>> {
    if cs == [] then Some(rs)
    else
      match Run(rs, cs[..|cs| - 1], reallocToZeroIsNull)
      case None => None
      case Some(ss) => AfterCommand(ss, cs[|cs| - 1], reallocToZeroIsNull)
  }

  /** A run of no commands ends in what it started with, and a run of one command more in what that command makes of
      the result of the run before it. */
  lemma RunOneMore(rs: seq<Router>, cs: seq<Command>, c: Command, reallocToZeroIsNull: bool)
    ensures Run(rs, [], reallocToZeroIsNull) == Some(rs)
    ensures Run(rs, cs + [c], reallocToZeroIsNull) ==
              if Run(rs, cs, reallocToZeroIsNull).None? then None
              else AfterCommand(Run(rs, cs, reallocToZeroIsNull).value, c, reallocToZeroIsNull)
  {
    assert (cs + [c])[..|cs|] == cs;
  }

  /** A run that comes to its end has come to the end of its first part. */
  lemma {:induction false} RunPrefix(rs: seq<Router>, cs: seq<Command>, k: nat, reallocToZeroIsNull: bool)
    requires k <= |cs| && Run(rs, cs, reallocToZeroIsNull).Some?
    ensures Run(rs, cs[..k], reallocToZeroIsNull).Some?
  {
    if k == |cs| {
      assert cs[..k] == cs;
    } else {
      RunPrefix(rs, cs[..|cs| - 1], k, reallocToZeroIsNull);
      assert cs[..|cs| - 1][..k] == cs[..k];
    }
  }

  /** The same ids with the same neighbours, in the same places. */
  predicate SameLinks(rs: seq<Router>, ss: seq<Router>) {
    && |ss| == |rs|
    && forall i | 0 <= i < |rs| :: ss[i].routerId == rs[i].routerId && ss[i].neighbors == rs[i].neighbors
  }

  lemma SameLinksSameGraph(rs: seq<Router>, ss: seq<Router>)
    requires SameLinks(rs, ss)
    ensures WellFormed(rs) ==> WellFormed(ss)
    ensures Connected(rs) ==> Connected(ss)
  {
    forall a: int ensures FindId(ss, a) == FindId(rs, a) {
      SameIdsSameIndex(rs, ss, a);
    }
  }

  // ----- what every run keeps -----

  lemma {:induction false} RunKeepsCount(rs: seq<Router>, cs: seq<Command>, reallocToZeroIsNull: bool)
    requires Run(rs, cs, reallocToZeroIsNull).Some?
    ensures |Run(rs, cs, reallocToZeroIsNull).value| <= |rs|
  {
    if cs != [] {
      RunKeepsCount(rs, cs[..|cs| - 1], reallocToZeroIsNull);
    }
  }

  lemma CommandKeepsWellFormed(rs: seq<Router>, c: Command, reallocToZeroIsNull: bool)
    requires WellFormed(rs) && AfterCommand(rs, c, reallocToZeroIsNull).Some?
    ensures WellFormed(AfterCommand(rs, c, reallocToZeroIsNull).value)
    ensures |AfterCommand(rs, c, reallocToZeroIsNull).value| <= |rs|
  {
    hide WellFormed;
    match c
    case AddLink(from, to) => AddLinkAppends(rs, from, to);
    case DeleteRouter(id) => DeleteKeepsWellFormed(rs, id);
    case Unknown =>
    case _ => SameLinksSameGraph(rs, AfterCommand(rs, c, reallocToZeroIsNull).value);
  }

  /** Every run keeps ids distinct and lists packed, whatever the commands. */
  lemma {:induction false} RunKeepsWellFormed(rs: seq<Router>, cs: seq<Command>, reallocToZeroIsNull: bool)
    requires WellFormed(rs) && Run(rs, cs, reallocToZeroIsNull).Some?
    ensures WellFormed(Run(rs, cs, reallocToZeroIsNull).value)
  {
    if cs != [] {
      RunKeepsWellFormed(rs, cs[..|cs| - 1], reallocToZeroIsNull);
      CommandKeepsWellFormed(Run(rs, cs[..|cs| - 1], reallocToZeroIsNull).value, cs[|cs| - 1], reallocToZeroIsNull);
    }
  }

  /** Links only to existing and not yet linked routers, and never deletes the first of two routers. */
  predicate IsCareful(rs: seq<Router>, c: Command) {
    match c
    case AddLink(from, to) => Exists(rs, to) && !IsLink(rs, from, to)
    case DeleteRouter(id) => !KeepsWrongRouter(rs, id)
    case _ => true
  }

  predicate IsCarefulRun(rs: seq<Router>, cs: seq<Command>, reallocToZeroIsNull: bool)
    requires Run(rs, cs, reallocToZeroIsNull).Some?
  {
    cs == [] || (IsCarefulRun(rs, cs[..|cs| - 1], reallocToZeroIsNull)
                 && IsCareful(Run(rs, cs[..|cs| - 1], reallocToZeroIsNull).value, cs[|cs| - 1]))
  }

  lemma CarefulCommandKeepsConnected(rs: seq<Router>, c: Command, reallocToZeroIsNull: bool)
    requires WellFormed(rs) && Connected(rs) && IsCareful(rs, c) && AfterCommand(rs, c, reallocToZeroIsNull).Some?
    ensures Connected(AfterCommand(rs, c, reallocToZeroIsNull).value)
  {
    hide WellFormed, Connected, IsLink;
    match c
    case AddLink(from, to) => AddLinkKeepsConnected(rs, from, to);
    case DeleteRouter(id) => DeleteKeepsConnected(rs, id);
    case Unknown =>
    case _ => SameLinksSameGraph(rs, AfterCommand(rs, c, reallocToZeroIsNull).value);
  }

  /** Every careful run also keeps lists duplicate-free and every link on an existing router. */
  lemma {:induction false} CarefulRunKeepsConnected(rs: seq<Router>, cs: seq<Command>, reallocToZeroIsNull: bool)
    requires WellFormed(rs) && Connected(rs)
    requires Run(rs, cs, reallocToZeroIsNull).Some? && IsCarefulRun(rs, cs, reallocToZeroIsNull)
    ensures Connected(Run(rs, cs, reallocToZeroIsNull).value)
  {
    if cs != [] {
      CarefulRunKeepsConnected(rs, cs[..|cs| - 1], reallocToZeroIsNull);
      RunKeepsWellFormed(rs, cs[..|cs| - 1], reallocToZeroIsNull);
      CarefulCommandKeepsConnected(Run(rs, cs[..|cs| - 1], reallocToZeroIsNull).value, cs[|cs| - 1],
                                   reallocToZeroIsNull);
    }
  }
}
