/** Writing routers and reading them back, and rewriting a file that was read. */
module FileRoundTrip {
  import opened Bytes
  import opened Routers
  import opened RouterPaths
  import opened FileFormat

  predicate IsNulFree(s: seq<Byte>) {
    forall i | 0 <= i < |s| :: s[i] != 0
  }

  /** As much of the model as the eight-bit length byte lets through. */
  function WrittenModel(model: seq<Byte>): seq<Byte> {
    model[..|model| % 256]
  }

  /** The router as it is read back, before its links are added. */
  function Bare(r: Router): Router
    requires r.model.Some?
  {
    Router(r.routerId, r.flag, Some(WrittenModel(r.model.value)), NO_NEIGHBORS)
  }

  function Bares(rs: seq<Router>): (qs: seq<Router>)
    requires ArePrintable(rs)
    ensures |qs| == |rs|
  {
    seq(|rs|, i requires 0 <= i < |rs| => Bare(rs[i]))
  }

  /** The routers with their models as they are read back. */
  function Cut(rs: seq<Router>): (qs: seq<Router>)
    requires ArePrintable(rs)
    ensures |qs| == |rs|
  {
    seq(|rs|, i requires 0 <= i < |rs| => rs[i].(model := Some(WrittenModel(rs[i].model.value))))
  }

  /** Routers the program can hold: well-formed, with NUL-free models. */
  predicate AreWritable(rs: seq<Router>) {
    && WellFormed(rs) && |rs| < 0x1_0000_0000 && ArePrintable(rs)
    && forall i | 0 <= i < |rs| :: IsNulFree(rs[i].model.value)
  }

  lemma Le32RoundTrip(n: nat)
    requires n < 0x1_0000_0000
    ensures FromLe32(Le32(n)) == n
  {
    var a, b := n / 256, n / 65536;
    assert n == 256 * a + n % 256 && a == 256 * b + a % 256;
    assert b == 256 * (n / 16777216) + b % 256;
  }

  lemma CStringOfNulFree(s: seq<Byte>)
    requires IsNulFree(s)
    ensures CString(s) == s
  {
    assert FirstFrom(s, 0, 0) == |s|;
  }

  lemma WrittenRouterIsRead(r: Router, rest: seq<Byte>)
    requires IsPrintable(r) && HasModel(r) && IsNulFree(r.model.value)
    ensures ParseRouter(RouterBytes(r) + rest) == Some((Bare(r), rest))
  {
    var m, k := r.model.value, (LengthByte(r.model.value) as int) - 1;
    assert k == |m| % 256;
    var bytes := RouterBytes(r) + rest;
    assert bytes[3..k + 3] == m[..k];
    assert bytes[k + 3..] == rest;
    CStringOfNulFree(m[..k]);
  }

  lemma {:induction false} WrittenRoutersAreRead(rs: seq<Router>, rest: seq<Byte>)
    requires ArePrintable(rs) && HaveModels(rs) && forall i | 0 <= i < |rs| :: IsNulFree(rs[i].model.value)
    ensures ParseRouters(RouterLinesBytes(rs) + rest, |rs|) == Some((Bares(rs), rest))
  {
    hide RouterBytes, ParseRouter, Bare, HasModel;
    if rs == [] {
      assert RouterLinesBytes(rs) + rest == rest;
    } else {
      var tail := RouterLinesBytes(rs[1..]) + rest;
      var bytes := RouterLinesBytes(rs) + rest;
      assert bytes[0] == NEWLINE;
      assert bytes[1..] == RouterBytes(rs[0]) + tail;
      WrittenRouterIsRead(rs[0], tail);
      WrittenRoutersAreRead(rs[1..], rest);
      assert [Bare(rs[0])] + Bares(rs[1..]) == Bares(rs);
    }
  }

  /** What reading a written file comes down to: adding its lines to the bare routers. */
  lemma WrittenFileIsRead(rs: seq<Router>)
    requires AreWritable(rs) && HaveModels(rs)
    ensures LinkLines(Serialize(rs)) == Some(LinesOf(rs))
    ensures Parse(Serialize(rs)) == AddAll(Bares(rs), LinesOf(rs))
  {
    var data, links := Serialize(rs), LineBytes(LinesOf(rs)) + [NEWLINE];
    assert data[..4] == Le32(|rs|);
    assert data[4..] == RouterLinesBytes(rs) + links;
    Le32RoundTrip(|rs|);
    WrittenRoutersAreRead(rs, links);
    WrittenLinesAreRead(LinesOf(rs));
    ReadingIsAddingLines(links, Bares(rs));
  }

  // ----- the lines written give back the neighbours -----

  lemma {:induction false} TargetsOfBoth(xs: seq<Line>, ys: seq<Line>, a: int)
    ensures Targets(xs + ys, a) == Targets(xs, a) + Targets(ys, a)
  {
    if xs == [] {
      assert xs + ys == ys;
    } else {
      var zs, head := xs + ys, if xs[0].0 == a then [xs[0].1 as int] else [];
      assert zs[0] == xs[0] && zs[1..] == xs[1..] + ys;
      TargetsOfBoth(xs[1..], ys, a);
      assert Targets(zs, a) == head + (Targets(xs[1..], a) + Targets(ys, a));
    }
  }

  lemma {:induction false} TargetsOfLinesTo(from: Byte, targets: seq<int>, a: int)
    requires forall i | 0 <= i < |targets| :: 0 <= targets[i] < 256
    ensures Targets(LinesTo(from, targets), a) == if a == from then targets else []
  {
    if targets != [] {
      var lines := LinesTo(from, targets);
      assert lines[0] == (from, targets[0]) && lines[1..] == LinesTo(from, targets[1..]);
      TargetsOfLinesTo(from, targets[1..], a);
      assert targets == [targets[0]] + targets[1..];
    }
  }

  lemma NeighboursOfTail(rs: seq<Router>, a: int)
    requires rs != [] && DistinctIds(rs)
    ensures Neighbours(rs, a) ==
              if a == rs[0].routerId then Links(rs[0].neighbors) else Neighbours(rs[1..], a)
    ensures a == rs[0].routerId ==> Neighbours(rs[1..], a) == []
  {
    if a == rs[0].routerId {
      FindIdIs(rs, 0);
    } else if Exists(rs[1..], a) {
      var k := FindId(rs[1..], a);
      assert rs[k + 1] == rs[1..][k];
      FindIdIs(rs, k + 1);
    } else {
      assert forall j | 0 <= j < |rs| - 1 :: rs[1..][j] == rs[j + 1];
    }
  }

  lemma {:induction false} WrittenTargetsAreNeighbours(rs: seq<Router>, a: int)
    requires WellFormed(rs)
    ensures Targets(LinesOf(rs), a) == Neighbours(rs, a)
  {
    if rs != [] {
      var r := rs[0];
      assert WellFormed(rs[1..]);
      WrittenTargetsAreNeighbours(rs[1..], a);
      TargetsOfBoth(LinesTo(r.routerId, Links(r.neighbors)), LinesOf(rs[1..]), a);
      assert forall i | 0 <= i < |Links(r.neighbors)| :: Links(r.neighbors)[i] in Links(r.neighbors);
      TargetsOfLinesTo(r.routerId, Links(r.neighbors), a);
      NeighboursOfTail(rs, a);
    }
  }

  predicate HasId(rs: seq<Router>, id: int) {
    exists k :: 0 <= k < |rs| && rs[k].routerId == id
  }

  lemma {:induction false} WrittenLinesStartAtRouters(rs: seq<Router>)
    ensures forall i | 0 <= i < |LinesOf(rs)| :: HasId(rs, LinesOf(rs)[i].0)
  {
    if rs != [] {
      WrittenLinesStartAtRouters(rs[1..]);
      var head, tail := LinesTo(rs[0].routerId, Links(rs[0].neighbors)), LinesOf(rs[1..]);
      LinesToStart(rs[0].routerId, Links(rs[0].neighbors));
      forall i | 0 <= i < |LinesOf(rs)| ensures HasId(rs, LinesOf(rs)[i].0) {
        if i < |head| {
          assert rs[0].routerId == LinesOf(rs)[i].0;
        } else {
          assert LinesOf(rs)[i] == tail[i - |head|];
          var k :| 0 <= k < |rs[1..]| && rs[1..][k].routerId == tail[i - |head|].0;
          assert rs[k + 1] == rs[1..][k];
        }
      }
    }
  }

  lemma BaresAreWellFormed(rs: seq<Router>)
    requires ArePrintable(rs) && DistinctIds(rs)
    ensures WellFormed(Bares(rs))
    ensures forall a: int :: Neighbours(Bares(rs), a) == [] && FindId(Bares(rs), a) == FindId(rs, a)
  {
    assert FreeSlot(NO_NEIGHBORS) == 0;
    forall a: int ensures FindId(Bares(rs), a) == FindId(rs, a) {
      SameIdsSameIndex(rs, Bares(rs), a);
    }
  }

  /** Adding the written lines to the bare routers gives the routers back. */
  lemma LinesRebuildNeighbours(rs: seq<Router>)
    requires ArePrintable(rs) && WellFormed(rs)
    ensures AddAll(Bares(rs), LinesOf(rs)) == Some(Cut(rs))
  {
    var bs, lines := Bares(rs), LinesOf(rs);
    BaresAreWellFormed(rs);
    forall i | 0 <= i < |lines| ensures Exists(bs, lines[i].0) {
      WrittenLinesStartAtRouters(rs);
      var k :| 0 <= k < |rs| && rs[k].routerId == lines[i].0;
      assert bs[k].routerId == lines[i].0;
    }
    forall a: int ensures Targets(lines, a) == Neighbours(rs, a) && |Neighbours(rs, a)| <= MAX_NEIGHBORS {
      WrittenTargetsAreNeighbours(rs, a);
    }
    AddAllSucceeds(bs, lines);
    AddAllGains(bs, lines);
    RebuiltIsCut(rs, AddAll(bs, lines).value, lines);
  }

  lemma RebuiltIsCut(rs: seq<Router>, ss: seq<Router>, lines: seq<Line>)
    requires ArePrintable(rs) && WellFormed(rs) && WellFormed(ss) && Gains(Bares(rs), ss, lines)
    requires forall a: int :: Neighbours(Bares(rs), a) == [] && Targets(lines, a) == Neighbours(rs, a)
    ensures ss == Cut(rs)
  {
    forall i | 0 <= i < |rs| ensures ss[i] == Cut(rs)[i] {
      var a := rs[i].routerId;
      FindIdIs(rs, i);
      assert ss[i] == Bares(rs)[i].(neighbors := ss[i].neighbors);
      FindIdIs(ss, i);
      assert Neighbours(ss, a) == Neighbours(rs, a);
      PackedIsItsLinks(ss[i].neighbors, rs[i].neighbors);
    }
  }

  /** Reading a written file gives the routers back, neighbours in order, with the models the length byte let
      through. */
  lemma WriteThenRead(rs: seq<Router>)
    requires AreWritable(rs) && HaveModels(rs)
    ensures Parse(Serialize(rs)) == Some(Cut(rs))
  {
    WrittenFileIsRead(rs);
    LinesRebuildNeighbours(rs);
  }

  predicate HaveModelLengths(rs: seq<Router>)
    requires ArePrintable(rs)
  {
    forall i | 0 <= i < |rs| :: 1 <= |rs[i].model.value| <= 254
  }

  lemma CutIsSameIff(rs: seq<Router>)
    requires ArePrintable(rs)
    ensures HaveModels(rs) && Cut(rs) == rs <==> HaveModelLengths(rs)
  {
    forall i | 0 <= i < |rs|
      ensures HasModel(rs[i]) && Cut(rs)[i] == rs[i] <==> 1 <= |rs[i].model.value| <= 254
    {
      var m := rs[i].model.value;
      assert m[..|m|] == m;
    }
    if HaveModelLengths(rs) {
      assert Cut(rs) == rs;
    }
    if HaveModels(rs) && Cut(rs) == rs {
      forall i | 0 <= i < |rs| ensures 1 <= |rs[i].model.value| <= 254 {
        assert HasModel(rs[i]) && Cut(rs)[i] == rs[i];
      }
    }
  }

  /** The round trip works exactly when every model has between 1 and 254 bytes. */
  lemma RoundTripIff(rs: seq<Router>)
    requires AreWritable(rs)
    ensures (HaveModels(rs) && Parse(Serialize(rs)) == Some(rs)) <==> HaveModelLengths(rs)
  {
    hide Parse, Serialize, HaveModels, HaveModelLengths, Cut;
    CutIsSameIff(rs);
    if HaveModels(rs) {
      WriteThenRead(rs);
    }
  }

  /** An empty model cannot be written: the write of its no bytes counts as a failure. */
  lemma EmptyModelIsNotWritten()
    ensures var rs := [Router(1, 0, Some([]), NO_NEIGHBORS)]; AreWritable(rs) && !HaveModels(rs)
  {
    var rs := [Router(1, 0, Some([]), NO_NEIGHBORS)];
    assert FreeSlot(NO_NEIGHBORS) == 0;
    assert !HasModel(rs[0]);
  }

  // ----- rewriting a file that was read -----

  lemma {:induction false} ParsedRouters(rest: seq<Byte>, n: nat)
    requires ParseRouters(rest, n).Some?
    ensures var bs := ParseRouters(rest, n).value.0;
            |bs| == n && AreBare(bs)
  {
    if n > 0 {
      var after := ParseRouterLine(rest).value.1;
      ParsedRouters(after, n - 1);
    }
  }

  lemma {:induction false} AddAllKeepsRest(rs: seq<Router>, lines: seq<Line>)
    requires AddAll(rs, lines).Some?
    ensures SameButNeighbours(rs, AddAll(rs, lines).value)
    decreases |lines|
  {
    if lines != [] {
      var ss := AfterAddLink(rs, lines[0].0, lines[0].1).value;
      AddAllKeepsRest(ss, lines[1..]);
    }
  }

  /** Routers as they come from the router lines, before any link is read. */
  predicate AreBare(bs: seq<Router>) {
    forall i | 0 <= i < |bs| :: bs[i].neighbors == NO_NEIGHBORS && IsReadModel(bs[i].model)
  }

  predicate IsReadModel(model: Option<seq<Byte>>) {
    model.Some? && |model.value| <= 254 && IsNulFree(model.value)
  }

  /** A file that was read: its link lines, and the routers they were added to. */
  lemma ReadFileParts(data: seq<Byte>) returns (bs: seq<Router>, lines: seq<Line>)
    requires Parse(data).Some?
    ensures LinkLines(data) == Some(lines) && AddAll(bs, lines) == Parse(data)
    ensures |bs| < 0x1_0000_0000 && AreBare(bs)
  {
    var n := FromLe32(data[..4]);
    var parsed := ParseRouters(data[4..], n).value;
    bs := parsed.0;
    ParsedRouters(data[4..], n);
    ReadingIsAddingLines(parsed.1, bs);
    lines := FileLines(parsed.1).value;
  }

  lemma BareAreWellFormed(bs: seq<Router>, rs: seq<Router>)
    requires AreBare(bs) && SameButNeighbours(bs, rs) && DistinctIds(rs)
    ensures WellFormed(bs) && forall a: int :: Neighbours(bs, a) == []
  {
    assert FreeSlot(NO_NEIGHBORS) == 0;
    assert forall i | 0 <= i < |bs| :: bs[i].routerId == rs[i].routerId;
  }

  lemma BareModelsAreKept(bs: seq<Router>, rs: seq<Router>)
    requires AreBare(bs) && SameButNeighbours(bs, rs)
    ensures ArePrintable(rs)
    ensures forall i | 0 <= i < |rs| :: IsNulFree(rs[i].model.value) && |rs[i].model.value| <= 254
  {
    forall i | 0 <= i < |rs| ensures IsReadModel(rs[i].model) {
      assert rs[i].model == bs[i].model;
    }
  }

  lemma GainedLinks(bs: seq<Router>, rs: seq<Router>, lines: seq<Line>, i: int)
    requires DistinctIds(rs) && Gains(bs, rs, lines) && 0 <= i < |rs|
    requires forall a: int :: Neighbours(bs, a) == []
    ensures Links(rs[i].neighbors) == Targets(lines, rs[i].routerId)
  {
    FindIdIs(rs, i);
    assert Neighbours(rs, rs[i].routerId) == Links(rs[i].neighbors);
  }

  lemma StartsAreKept(bs: seq<Router>, rs: seq<Router>, lines: seq<Line>)
    requires SameButNeighbours(bs, rs) && StartAtRouters(bs, lines)
    ensures StartAtRouters(rs, lines)
  {
    forall i | 0 <= i < |lines| ensures Exists(rs, lines[i].0) {
      assert Exists(bs, lines[i].0);
      SameIdsSameIndex(bs, rs, lines[i].0);
    }
  }

  /** What was read with distinct ids can be written, and each router's neighbours are its targets in the file. */
  lemma ReadIsWritable(bs: seq<Router>, rs: seq<Router>, lines: seq<Line>)
    requires AreBare(bs) && |bs| < 0x1_0000_0000 && AddAll(bs, lines) == Some(rs) && DistinctIds(rs)
    ensures AreWritable(rs)
    ensures forall i | 0 <= i < |rs| :: |rs[i].model.value| <= 254
    ensures forall i | 0 <= i < |rs| :: Links(rs[i].neighbors) == Targets(lines, rs[i].routerId)
    ensures StartAtRouters(rs, lines)
  {
    hide AddAll, Neighbours, Targets, Links, AreBare, StartAtRouters, WellFormed, DistinctIds, Gains, ArePrintable;
    AddAllKeepsRest(bs, lines);
    BareAreWellFormed(bs, rs);
    AddAllGains(bs, lines);
    BareModelsAreKept(bs, rs);
    StartsAreKept(bs, rs, lines);
    forall i | 0 <= i < |rs| ensures Links(rs[i].neighbors) == Targets(lines, rs[i].routerId) {
      GainedLinks(bs, rs, lines, i);
    }
  }

  lemma {:induction false} LinesAreGrouped(rs: seq<Router>, lines: seq<Line>)
    requires forall i | 0 <= i < |rs| :: Links(rs[i].neighbors) == Targets(lines, rs[i].routerId)
    ensures LinesOf(rs) == Grouped(rs, lines)
  {
    if rs != [] {
      LinesAreGrouped(rs[1..], lines);
    }
  }

  lemma {:induction false} GroupedOneMore(rs: seq<Router>, line: Line, lines: seq<Line>)
    requires DistinctIds(rs)
    ensures |Grouped(rs, [line] + lines)| ==
              |Grouped(rs, lines)| + if HasId(rs, line.0) then 1 else 0
  {
    if rs != [] {
      var all := [line] + lines;
      assert all[1..] == lines;
      GroupedOneMore(rs[1..], line, lines);
      LinesToStart(rs[0].routerId, Targets(all, rs[0].routerId));
      LinesToStart(rs[0].routerId, Targets(lines, rs[0].routerId));
      if rs[0].routerId == line.0 {
        assert !HasId(rs[1..], line.0);
      } else if k :| 0 <= k < |rs| && rs[k].routerId == line.0 {
        assert rs[1..][k - 1].routerId == line.0;
      }
    }
  }

  /** Regrouping keeps the number of lines. */
  lemma {:induction false} GroupedSize(rs: seq<Router>, lines: seq<Line>)
    requires DistinctIds(rs) && StartAtRouters(rs, lines)
    ensures |Grouped(rs, lines)| == |lines|
  {
    if lines == [] {
      NoLinesGrouped(rs);
    } else {
      assert [lines[0]] + lines[1..] == lines;
      assert Exists(rs, lines[0].0);
      GroupedOneMore(rs, lines[0], lines[1..]);
      forall i | 0 <= i < |lines| - 1 ensures Exists(rs, lines[1..][i].0) {
        assert Exists(rs, lines[i + 1].0);
      }
      GroupedSize(rs, lines[1..]);
    }
  }

  lemma NoLinesGrouped(rs: seq<Router>)
    ensures Grouped(rs, []) == []
  {
  }

  /** Rewriting a file that was read works exactly when no model was read as empty. The new file groups the link lines
      by router, keeps each router's lines in order and the number of lines, and is read as the same routers. */
  lemma ResavingNormalises(data: seq<Byte>, rs: seq<Router>)
    requires Parse(data) == Some(rs) && DistinctIds(rs)
    ensures AreWritable(rs) && LinkLines(data).Some?
    ensures HaveModels(rs) <==> forall i | 0 <= i < |rs| :: rs[i].model.value != []
    ensures HaveModels(rs) ==>
              var lines := LinkLines(data).value;
              && Parse(Serialize(rs)) == Some(rs)
              && LinkLines(Serialize(rs)) == Some(Grouped(rs, lines))
              && |Grouped(rs, lines)| == |lines|
              && (forall a: int :: Targets(Grouped(rs, lines), a) == Targets(lines, a))
  {
    var bs, lines := ReadFileParts(data);
    ReadIsWritable(bs, rs, lines);
    ReadModelsWriteIff(rs);
    if HaveModels(rs) {
      hide Parse, Serialize, LinkLines, HaveModels, AddAll;
      RoundTripIff(rs);
      WrittenFileIsRead(rs);
      LinesAreGrouped(rs, lines);
      GroupedSize(rs, lines);
      forall a: int ensures Targets(LinesOf(rs), a) == Targets(lines, a) {
        GroupingKeepsTargets(rs, lines, a);
      }
    }
  }

  lemma ReadModelsWriteIff(rs: seq<Router>)
    requires ArePrintable(rs) && forall i | 0 <= i < |rs| :: |rs[i].model.value| <= 254
    ensures HaveModels(rs) <==> forall i | 0 <= i < |rs| :: rs[i].model.value != []
    ensures HaveModels(rs) <==> HaveModelLengths(rs)
  {
    assert forall i | 0 <= i < |rs| :: HasModel(rs[i]) <==> rs[i].model.value != [];
  }

  lemma GroupingKeepsTargets(rs: seq<Router>, lines: seq<Line>, a: int)
    requires WellFormed(rs) && StartAtRouters(rs, lines)
    requires forall i | 0 <= i < |rs| :: Links(rs[i].neighbors) == Targets(lines, rs[i].routerId)
    ensures Targets(LinesOf(rs), a) == Targets(lines, a)
  {
    WrittenTargetsAreNeighbours(rs, a);
    if !Exists(rs, a) {
      NoTargets(rs, lines, a);
    }
  }

  lemma {:induction false} NoTargets(rs: seq<Router>, lines: seq<Line>, a: int)
    requires StartAtRouters(rs, lines) && !Exists(rs, a)
    ensures Targets(lines, a) == []
  {
    if lines != [] {
      assert Exists(rs, lines[0].0);
      forall i | 0 <= i < |lines| - 1 ensures Exists(rs, lines[1..][i].0) {
        assert Exists(rs, lines[i + 1].0);
      }
      NoTargets(rs, lines[1..], a);
    }
  }
}
