/** A whole session of the router program: load a file, run the commands, store the routers
    (obligatory_assignment/src/router_operation.c). */
module RouterSession {
  import opened Bytes
  import opened Routers
  import opened RouterPaths
  import opened RouterTable
  import opened Commands
  import opened FileFormat
  import opened FileLayout
  import opened FileRoundTrip
  import opened RouterFile

  // ----- the program -----

  /** An exist_route that can fail: a walk from its first router leads to an id that no router has. */
  ghost predicate SearchCanFail(rs: seq<Router>, c: Command) {
    c.ExistRoute? && ReachesNowhere(rs, c.from)
  }

  predicate HasIdAt(rs: seq<Router>, i: int, id: int)
    requires 0 <= i < |rs|
  {
    rs[i].routerId == id
  }

  /** Success means the given result; failure that there is none, and nothing has changed. */
  predicate ChangesTo(before: seq<Router>, ok: bool, after: seq<Router>, result: Option<seq<Router>>) {
    if ok then result == Some(after) else result == None && after == before
  }

  /** Each command does what its operation does, and fails when that fails. */
  method RunCommand(table: RouterArray, c: Command, reallocToZeroIsNull: bool) returns (ok: bool)
    requires table.Valid()
    modifies table, table.routers
    ensures table.Valid() && table.routers == old(table.routers)
    ensures ok ==> AfterCommand(old(table.Contents()), c, reallocToZeroIsNull) == Some(table.Contents())
    ensures !ok ==> AfterCommand(old(table.Contents()), c, reallocToZeroIsNull).None?
                    || SearchCanFail(old(table.Contents()), c)
    ensures c.Print? ==>
              (ok <==> exists i :: 0 <= i < |old(table.Contents())| && HasIdAt(old(table.Contents()), i, c.id))
    ensures c.Unknown? ==> !ok
    ensures c.Print? || c.ExistRoute? || c.Unknown? ==> table.Contents() == old(table.Contents())
    ensures c.ExistRoute? && !ok ==> ReachesNowhere(old(table.Contents()), c.from)
    ensures c.ExistRoute? && !Reaches(old(table.Contents()), c.from, c.to) ==>
              (ok <==> !ReachesNowhere(old(table.Contents()), c.from))
    ensures c.SetFlag? ==>
              ChangesTo(old(table.Contents()), ok, table.Contents(),
                        AfterSetFlag(old(table.Contents()), c.id, c.which, c.value))
    ensures c.SetModel? ==>
              ChangesTo(old(table.Contents()), ok, table.Contents(), AfterSetModel(old(table.Contents()), c.id, c.name))
    ensures c.AddLink? ==>
              ChangesTo(old(table.Contents()), ok, table.Contents(), AfterAddLink(old(table.Contents()), c.from, c.to))
    ensures c.DeleteRouter? && Exists(old(table.Contents()), c.id) ==>
              && table.Contents() == AfterDelete(old(table.Contents()), c.id)
              && (ok <==> |table.Contents()| > 0 || !reallocToZeroIsNull)
    ensures c.DeleteRouter? && !Exists(old(table.Contents()), c.id) ==> !ok && table.Contents() == old(table.Contents())
  {
    match c
    case Print(id) =>
      var hitIdx;
      ok, hitIdx := table.FindRouterId(id);
      assert ok ==> HasIdAt(table.Contents(), hitIdx, id);
    case SetFlag(id, which, value) =>
      ok := table.SetFlag(id, which, value);
    case SetModel(id, name) =>
      ok := table.SetModel(id, name);
    case AddLink(from, to) =>
      ok := table.AddLink(from, to);
    case DeleteRouter(id) =>
      ok := table.DeleteRouter(id, reallocToZeroIsNull);
    case ExistRoute(from, to) =>
      var exists_;
      ok, exists_ := table.ExistsRoute(from, to);
    case Unknown =>
      ok := false;
  }

  /** Some exist_route of the run can fail when its turn comes. */
  ghost predicate SomeSearchCanFail(rs: seq<Router>, cs: seq<Command>, reallocToZeroIsNull: bool) {
    exists k :: 0 <= k < |cs| && SearchCanFailAt(rs, cs, reallocToZeroIsNull, k)
  }

  ghost predicate SearchCanFailAt(rs: seq<Router>, cs: seq<Command>, reallocToZeroIsNull: bool, k: nat)
    requires k < |cs|
  {
    && Run(rs, cs[..k], reallocToZeroIsNull).Some?
    && SearchCanFail(Run(rs, cs[..k], reallocToZeroIsNull).value, cs[k])
  }

  /** The loop over the commands: it stops at the first one that fails. */
  method RunCommands(table: RouterArray, cs: seq<Command>, reallocToZeroIsNull: bool) returns (ok: bool)
    requires table.Valid()
    modifies table, table.routers
    ensures table.Valid() && table.routers == old(table.routers)
    ensures ok ==> Run(old(table.Contents()), cs, reallocToZeroIsNull) == Some(table.Contents())
    ensures !ok ==> Run(old(table.Contents()), cs, reallocToZeroIsNull).None?
                    || SomeSearchCanFail(old(table.Contents()), cs, reallocToZeroIsNull)
    ensures (forall k | 0 <= k < |cs| :: !cs[k].ExistRoute?) ==>
              (ok <==> Run(old(table.Contents()), cs, reallocToZeroIsNull).Some?)
  {
    hide ReachesNowhere, AfterCommand;
    ghost var rs := table.Contents();
    for i := 0 to |cs|
      invariant table.Valid() && table.routers == old(table.routers)
      invariant Run(rs, cs[..i], reallocToZeroIsNull) == Some(table.Contents())
    {
      assert cs[..i + 1][..i] == cs[..i];
      ok := RunCommand(table, cs[i], reallocToZeroIsNull);
      if !ok {
        if Run(rs, cs, reallocToZeroIsNull).Some? {
          RunPrefix(rs, cs, i + 1, reallocToZeroIsNull);
          assert SearchCanFailAt(rs, cs, reallocToZeroIsNull, i) && cs[i].ExistRoute?;
        }
        return;
      }
    }
    assert cs[..|cs|] == cs;
    ok := true;
  }

  lemma ResultCount(data: seq<Byte>, cs: seq<Command>, reallocToZeroIsNull: bool)
    requires Parse(data).Some? && Run(Parse(data).value, cs, reallocToZeroIsNull).Some?
    ensures |Run(Parse(data).value, cs, reallocToZeroIsNull).value| < 0x1_0000_0000
  {
    var bs, lines := ReadFileParts(data);
    AddAllKeepsRest(bs, lines);
    RunKeepsCount(Parse(data).value, cs, reallocToZeroIsNull);
  }

  /** main from loading to storing. A session that ends well has stored exactly what its commands make of the loaded
      routers; nothing is stored when loading, a command, or the writing of a model without bytes to write fails. Models
      are read with strlen on storing, so by then every router must have one, and its length byte must not wrap to 0. */
  method RunProgram(data: seq<Byte>, cs: seq<Command>, reallocToZeroIsNull: bool) returns (ok: bool, stored: seq<Byte>)
    requires Parse(data).Some? && Run(Parse(data).value, cs, reallocToZeroIsNull).Some? ==>
               ArePrintable(Run(Parse(data).value, cs, reallocToZeroIsNull).value)
    ensures ok ==>
              && Parse(data).Some? && Run(Parse(data).value, cs, reallocToZeroIsNull).Some?
              && var ss := Run(Parse(data).value, cs, reallocToZeroIsNull).value;
                 && HaveModels(ss) && |ss| < 0x1_0000_0000 && stored == Serialize(ss)
                 && exists at, lineAt :: IsFileOf(stored, ss, at, lineAt)
    ensures !ok ==>
              || Parse(data).None?
              || SomeSearchCanFail(Parse(data).value, cs, reallocToZeroIsNull)
              || Run(Parse(data).value, cs, reallocToZeroIsNull).None?
              || !HaveModels(Run(Parse(data).value, cs, reallocToZeroIsNull).value)
    ensures (forall k | 0 <= k < |cs| :: !cs[k].ExistRoute?) ==>
              (ok <==> && Parse(data).Some? && Run(Parse(data).value, cs, reallocToZeroIsNull).Some?
                       && forall i | 0 <= i < |Run(Parse(data).value, cs, reallocToZeroIsNull).value| ::
                            |Run(Parse(data).value, cs, reallocToZeroIsNull).value[i].model.value| % 256 != 0)
  {
    hide HaveModels, Serialize, Run, Parse, SomeSearchCanFail, IsFileOf, IsReadFrom, AddAll;
    stored := [];
    var table;
    ok, table := ReadBinaryFile(data);
    if !ok {
      return;
    }
    ok := RunCommands(table, cs, reallocToZeroIsNull);
    if !ok {
      return;
    }
    ResultCount(data, cs, reallocToZeroIsNull);
    ok, stored := WriteBinaryFile(table);
  }

  // ----- what comes back from a stored session -----

  /** Routers that can be stored and loaded without loss. */
  predicate IsStorable(rs: seq<Router>) {
    AreWritable(rs) && HaveModelLengths(rs)
  }

  /** A string of 1 to 254 bytes. */
  predicate IsStorableName(name: seq<Byte>) {
    IsNulFree(name) && 1 <= |name| <= 254
  }

  lemma StorableIff(rs: seq<Router>)
    ensures IsStorable(rs) <==>
            && WellFormed(rs) && |rs| < 0x1_0000_0000
            && forall i | 0 <= i < |rs| :: rs[i].model.Some? && IsStorableName(rs[i].model.value)
  {
  }

  /** The command does not delete the first of two routers, which would stay behind with its string freed, and gives no
      router a model that does not fit. */
  predicate IsSafe(rs: seq<Router>, c: Command) {
    && (c.DeleteRouter? ==> !KeepsWrongRouter(rs, c.id))
    && (c.SetModel? ==> IsStorableName(c.name))
  }

  predicate IsSafeRun(rs: seq<Router>, cs: seq<Command>, reallocToZeroIsNull: bool)
    requires Run(rs, cs, reallocToZeroIsNull).Some?
  {
    cs == [] || (IsSafeRun(rs, cs[..|cs| - 1], reallocToZeroIsNull)
                 && IsSafe(Run(rs, cs[..|cs| - 1], reallocToZeroIsNull).value, cs[|cs| - 1]))
  }

  /** A command that succeeds keeps the routers storable exactly when it is safe. */
  lemma CommandKeepsStorableIff(rs: seq<Router>, c: Command, reallocToZeroIsNull: bool)
    requires IsStorable(rs) && AfterCommand(rs, c, reallocToZeroIsNull).Some?
    ensures IsStorable(AfterCommand(rs, c, reallocToZeroIsNull).value) <==> IsSafe(rs, c)
  {
    var ss := AfterCommand(rs, c, reallocToZeroIsNull).value;
    StorableIff(rs);
    StorableIff(ss);
    CommandKeepsWellFormed(rs, c, reallocToZeroIsNull);
    hide WellFormed, WithoutLink, IsStorable, IsStorableName;
    if c.DeleteRouter? && KeepsWrongRouter(rs, c.id) {
      assert ss[0].model == None;
    }
    if c.SetModel? {
      assert ss[FindId(rs, c.id)].model == Some(c.name);
    }
  }

  lemma {:induction false} SafeRunKeepsStorable(rs: seq<Router>, cs: seq<Command>, reallocToZeroIsNull: bool)
    requires IsStorable(rs)
    requires Run(rs, cs, reallocToZeroIsNull).Some? && IsSafeRun(rs, cs, reallocToZeroIsNull)
    ensures IsStorable(Run(rs, cs, reallocToZeroIsNull).value)
  {
    if cs != [] {
      var before := cs[..|cs| - 1];
      SafeRunKeepsStorable(rs, before, reallocToZeroIsNull);
      CommandKeepsStorableIff(Run(rs, before, reallocToZeroIsNull).value, cs[|cs| - 1], reallocToZeroIsNull);
    }
  }

  predicate HaveNulFreeModels(rs: seq<Router>) {
    forall i | 0 <= i < |rs| && rs[i].model.Some? :: IsNulFree(rs[i].model.value)
  }

  /** The names are C strings. */
  predicate NamesAreNulFree(cs: seq<Command>) {
    forall i | 0 <= i < |cs| && cs[i].SetModel? :: IsNulFree(cs[i].name)
  }

  lemma {:induction false} RunKeepsNulFree(rs: seq<Router>, cs: seq<Command>, reallocToZeroIsNull: bool)
    requires HaveNulFreeModels(rs) && NamesAreNulFree(cs) && Run(rs, cs, reallocToZeroIsNull).Some?
    ensures HaveNulFreeModels(Run(rs, cs, reallocToZeroIsNull).value)
  {
    if cs != [] {
      RunKeepsNulFree(rs, cs[..|cs| - 1], reallocToZeroIsNull);
      CommandKeepsNulFree(Run(rs, cs[..|cs| - 1], reallocToZeroIsNull).value, cs[|cs| - 1], reallocToZeroIsNull);
    }
  }

  lemma CommandKeepsNulFree(rs: seq<Router>, c: Command, reallocToZeroIsNull: bool)
    requires HaveNulFreeModels(rs) && (c.SetModel? ==> IsNulFree(c.name))
    requires AfterCommand(rs, c, reallocToZeroIsNull).Some?
    ensures HaveNulFreeModels(AfterCommand(rs, c, reallocToZeroIsNull).value)
  {
    hide IsNulFree, WithoutLink;
  }

  /** Whatever commands a session runs to its end, what it stores is loaded again as exactly its result if and only if
      every router then has a model of 1 to 254 bytes. */
  lemma SessionIsStoredIff(data: seq<Byte>, rs: seq<Router>, cs: seq<Command>, reallocToZeroIsNull: bool,
                           ss: seq<Router>)
    requires Parse(data) == Some(rs) && DistinctIds(rs) && NamesAreNulFree(cs)
    requires Run(rs, cs, reallocToZeroIsNull) == Some(ss) && ArePrintable(ss)
    ensures AreWritable(ss)
    ensures (HaveModels(ss) && Parse(Serialize(ss)) == Some(ss)) <==>
            forall i | 0 <= i < |ss| :: 1 <= |ss[i].model.value| <= 254
  {
    hide Parse, Serialize, HaveModels, WellFormed, Run;
    ResavingNormalises(data, rs);
    ResultCount(data, cs, reallocToZeroIsNull);
    RunKeepsNulFree(rs, cs, reallocToZeroIsNull);
    RunKeepsWellFormed(rs, cs, reallocToZeroIsNull);
    RoundTripIff(ss);
  }

  /** In particular a session of safe commands on a file without empty models is stored and comes back. */
  lemma SafeSessionIsStored(data: seq<Byte>, rs: seq<Router>, cs: seq<Command>, reallocToZeroIsNull: bool)
    requires Parse(data) == Some(rs) && DistinctIds(rs)
    requires forall i | 0 <= i < |rs| :: rs[i].model.Some? && rs[i].model.value != []
    requires Run(rs, cs, reallocToZeroIsNull).Some? && IsSafeRun(rs, cs, reallocToZeroIsNull)
    ensures var ss := Run(rs, cs, reallocToZeroIsNull).value;
            && AreWritable(ss) && HaveModels(ss)
            && Parse(Serialize(ss)) == Some(ss)
  {
    hide Parse, Serialize, WellFormed, Run;
    ResavingNormalises(data, rs);
    RoundTripIff(rs);
    SafeRunKeepsStorable(rs, cs, reallocToZeroIsNull);
    RoundTripIff(Run(rs, cs, reallocToZeroIsNull).value);
  }

  lemma RunOfTwo(rs: seq<Router>, c: Command, d: Command, reallocToZeroIsNull: bool)
    ensures Run(rs, [c, d], reallocToZeroIsNull) ==
              match AfterCommand(rs, c, reallocToZeroIsNull)
              case None => None
              case Some(ss) => AfterCommand(ss, d, reallocToZeroIsNull)
  {
    assert [c][..0] == [] && Run(rs, [c], reallocToZeroIsNull) == AfterCommand(rs, c, reallocToZeroIsNull);
    assert [c, d][..1] == [c];
  }

  /** A run that is not safe can come back all the same: a model given later makes good for the freed one. */
  lemma FreedModelCanBeReplaced()
    ensures var rs := [Router(1, 0, Some([65]), NO_NEIGHBORS), Router(2, 0, Some([66]), NO_NEIGHBORS)];
            && !IsSafe(rs, DeleteRouter(1))
            && Run(rs, [DeleteRouter(1), SetModel(1, [67])], false) == Some([Router(1, 0, Some([67]), NO_NEIGHBORS)])
  {
    hide AfterDelete, WithoutLink;
    var rs := [Router(1, 0, Some([65]), NO_NEIGHBORS), Router(2, 0, Some([66]), NO_NEIGHBORS)];
    DeletingFirstOfTwoLosesTheOther();
    assert FindId(rs, 1) == 0;
    var freed := Router(1, 0, None, NO_NEIGHBORS);
    assert AfterCommand(rs, DeleteRouter(1), false) == Some([freed]);
    assert FindId([freed], 1) == 0 && [freed][0 := freed.(model := Some([67]))] == [freed.(model := Some([67]))];
    assert AfterSetModel([freed], 1, [67]) == Some([freed.(model := Some([67]))]);
    RunOfTwo(rs, DeleteRouter(1), SetModel(1, [67]), false);
  }
}
