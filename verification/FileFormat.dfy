/** The binary router file as values: what is written for an array of routers, and what is read from given bytes. */
module FileFormat {
  import opened Bytes
  import opened Routers
  import opened RouterPaths

  /** A link line of the file: from router, to router. */
  type Line = (Byte, Byte)

  // ----- writing -----

  /** An unsigned int as its four bytes in memory, least significant first. */
  function Le32(n: nat): seq<Byte>
    requires n < 0x1_0000_0000
  {
    [n % 256, n / 256 % 256, n / 65536 % 256, n / 16777216]
  }

  /** The length byte written for a model: one more than its length, in eight bits. */
  function LengthByte(model: seq<Byte>): Byte {
    (|model| + 1) % 256
  }

  /** The model must be there, and its length byte must not wrap to 0, as one less bytes than that are written. */
  predicate IsPrintable(r: Router) {
    r.model.Some? && LengthByte(r.model.value) > 0
  }

  predicate ArePrintable(rs: seq<Router>) {
    forall i | 0 <= i < |rs| :: IsPrintable(rs[i])
  }

  /** fwrite of no bytes reports failure, so a model needs at least one. */
  predicate HasModel(r: Router)
    requires IsPrintable(r)
  {
    LengthByte(r.model.value) > 1
  }

  predicate HaveModels(rs: seq<Router>)
    requires ArePrintable(rs)
  {
    forall i | 0 <= i < |rs| :: HasModel(rs[i])
  }

  /** In terms of lengths: a model cannot be read for writing when 255 bytes modulo 256 long, and cannot be written when
      0 bytes modulo 256 long. */
  lemma ModelLengths(rs: seq<Router>)
    ensures ArePrintable(rs) <==> forall i | 0 <= i < |rs| :: rs[i].model.Some? && |rs[i].model.value| % 256 != 255
    ensures ArePrintable(rs) ==> (HaveModels(rs) <==> forall i | 0 <= i < |rs| :: |rs[i].model.value| % 256 != 0)
  {
    forall i | 0 <= i < |rs| && rs[i].model.Some?
      ensures IsPrintable(rs[i]) <==> |rs[i].model.value| % 256 != 255
      ensures IsPrintable(rs[i]) ==> (HasModel(rs[i]) <==> |rs[i].model.value| % 256 != 0)
    {
    }
  }

  function RouterBytes(r: Router): seq<Byte>
    requires IsPrintable(r)
  {
    [r.routerId, r.flag, LengthByte(r.model.value)] + r.model.value[..LengthByte(r.model.value) - 1]
  }

  function RouterLinesBytes(rs: seq<Router>): seq<Byte>
    requires ArePrintable(rs)
  {
    if rs == [] then [] else [NEWLINE] + RouterBytes(rs[0]) + RouterLinesBytes(rs[1..])
  }

  /** One line for each neighbour, which is cut to eight bits. */
  function LinesTo(from: Byte, targets: seq<int>): seq<Line> {
    if targets == [] then [] else [(from, targets[0] % 256)] + LinesTo(from, targets[1..])
  }

  lemma {:induction false} LinesToStart(from: Byte, targets: seq<int>)
    ensures |LinesTo(from, targets)| == |targets|
    ensures forall i | 0 <= i < |targets| :: LinesTo(from, targets)[i].0 == from
  {
    if targets != [] {
      LinesToStart(from, targets[1..]);
    }
  }

  /** The link lines, router by router. */
  function LinesOf(rs: seq<Router>): seq<Line> {
    if rs == [] then [] else LinesTo(rs[0].routerId, Links(rs[0].neighbors)) + LinesOf(rs[1..])
  }

  function LineBytes(lines: seq<Line>): seq<Byte> {
    if lines == [] then [] else [NEWLINE, lines[0].0, lines[0].1] + LineBytes(lines[1..])
  }

  function Serialize(rs: seq<Router>): seq<Byte>
    requires ArePrintable(rs) && |rs| < 0x1_0000_0000
  {
    Le32(|rs|) + RouterLinesBytes(rs) + LineBytes(LinesOf(rs)) + [NEWLINE]
  }

  // ----- reading -----

  function FromLe32(b: seq<Byte>): (n: nat)
    requires |b| == 4
    ensures n < 0x1_0000_0000
  {
    var b0: int, b1: int, b2: int, b3: int := b[0], b[1], b[2], b[3];
    b0 + 256 * b1 + 65536 * b2 + 16777216 * b3
  }

  /** The string a byte buffer holds: the bytes before the first NUL. */
  function CString(bytes: seq<Byte>): seq<Byte> {
    bytes[..FirstFrom(bytes, 0, 0)]
  }

  /** Reads a router and returns the rest of the file. A length byte of 0 or 1 asks for an impossible or an empty
      read, and both report failure. */
  function ParseRouter(rest: seq<Byte>): Option<(Router, seq<Byte>)> {
    if |rest| < 3 then None
    else
      var charLen: int := rest[2];
      if charLen < 2 || |rest| < charLen + 2 then None
      else Some((Router(rest[0], rest[1], Some(CString(rest[3..charLen + 2])), NO_NEIGHBORS), rest[charLen + 2..]))
  }

  /** A router line starts with a newline. */
  function ParseRouterLine(rest: seq<Byte>): Option<(Router, seq<Byte>)> {
    if rest == [] || rest[0] != NEWLINE then None else ParseRouter(rest[1..])
  }

  function ParseRouters(rest: seq<Byte>, n: nat): Option<(seq<Router>, seq<Byte>)> {
    if n == 0 then Some(([], rest))
    else
      match ParseRouterLine(rest)
      case None => None
      case Some((r, after)) => Prefixed([r], ParseRouters(after, n - 1))
  }

  function Prefixed(rs: seq<Router>, o: Option<(seq<Router>, seq<Byte>)>): Option<(seq<Router>, seq<Byte>)> {
    match o
    case None => None
    case Some((qs, rest)) => Some((rs + qs, rest))
  }

  /** Reads link lines and adds each link as it is read, until a newline ends the file. */
  function ReadLinks(rest: seq<Byte>, rs: seq<Router>): Option<seq<Router>>
    decreases |rest|
  {
    if rest == [] || rest[0] != NEWLINE then None
    else if |rest| == 1 then Some(rs)
    else if |rest| == 2 then None
    else
      match AfterAddLink(rs, rest[1], rest[2])
      case None => None
      case Some(ss) => ReadLinks(rest[3..], ss)
  }

  /** What reading a whole file gives. */
  function Parse(data: seq<Byte>): Option<seq<Router>> {
    if |data| < 4 then None
    else
      match ParseRouters(data[4..], FromLe32(data[..4]))
      case None => None
      case Some((rs, rest)) => ReadLinks(rest, rs)
  }

  /** The link lines at the end of a file, without looking at what they link. */
  function FileLines(rest: seq<Byte>): Option<seq<Line>>
    decreases |rest|
  {
    if rest == [] || rest[0] != NEWLINE then None
    else if |rest| == 1 then Some([])
    else if |rest| == 2 then None
    else
      match FileLines(rest[3..])
      case None => None
      case Some(lines) => Some([(rest[1], rest[2])] + lines)
  }

  /** The link lines of a whole file. */
  function LinkLines(data: seq<Byte>): Option<seq<Line>> {
    if |data| < 4 then None
    else
      match ParseRouters(data[4..], FromLe32(data[..4]))
      case None => None
      case Some((rs, rest)) => FileLines(rest)
  }

  // ----- adding many links -----

  function AddAll(rs: seq<Router>, lines: seq<Line>): Option<seq<Router>>
    decreases |lines|
  {
    if lines == [] then Some(rs)
    else
      match AfterAddLink(rs, lines[0].0, lines[0].1)
      case None => None
      case Some(ss) => AddAll(ss, lines[1..])
  }

  /** The targets of the lines from a, in order. */
  function Targets(lines: seq<Line>, a: int): seq<int> {
    if lines == [] then []
    else (if lines[0].0 == a then [lines[0].1 as int] else []) + Targets(lines[1..], a)
  }

  /** The lines regrouped: for each router in turn, its lines in their own order. */
  function Grouped(rs: seq<Router>, lines: seq<Line>): seq<Line> {
    if rs == [] then [] else LinesTo(rs[0].routerId, Targets(lines, rs[0].routerId)) + Grouped(rs[1..], lines)
  }

  lemma {:induction false} ReadingIsAddingLines(rest: seq<Byte>, rs: seq<Router>)
    ensures ReadLinks(rest, rs) ==
              match FileLines(rest) case None => None case Some(lines) => AddAll(rs, lines)
    decreases |rest|
  {
    if |rest| > 2 && rest[0] == NEWLINE {
      match AfterAddLink(rs, rest[1], rest[2])
      case None =>
      case Some(ss) =>
        ReadingIsAddingLines(rest[3..], ss);
        if FileLines(rest[3..]).Some? {
          var lines := FileLines(rest[3..]).value;
          assert ([(rest[1], rest[2])] + lines)[1..] == lines;
        }
    }
  }

  lemma {:induction false} WrittenLinesAreRead(lines: seq<Line>)
    ensures FileLines(LineBytes(lines) + [NEWLINE]) == Some(lines)
  {
    if lines != [] {
      WrittenLinesAreRead(lines[1..]);
      var rest := LineBytes(lines) + [NEWLINE];
      assert rest[3..] == LineBytes(lines[1..]) + [NEWLINE];
      assert rest[0] == NEWLINE && (rest[1], rest[2]) == lines[0] && |rest| > 3;
      assert [lines[0]] + lines[1..] == lines;
    }
  }

  /** rs and ss differ in their neighbours only. */
  predicate SameButNeighbours(rs: seq<Router>, ss: seq<Router>) {
    |rs| == |ss| && forall i | 0 <= i < |rs| :: ss[i] == rs[i].(neighbors := ss[i].neighbors)
  }

  /** Each router's neighbours in ss are its neighbours in rs followed by its targets in lines. */
  ghost predicate Gains(rs: seq<Router>, ss: seq<Router>, lines: seq<Line>) {
    && SameButNeighbours(rs, ss)
    && forall a: int :: Neighbours(ss, a) == Neighbours(rs, a) + Targets(lines, a)
  }

  /** After the lines no router has more than ten neighbours. */
  ghost predicate HasRoomFor(rs: seq<Router>, lines: seq<Line>) {
    forall a: int | Exists(rs, a) :: |Neighbours(rs, a)| + |Targets(lines, a)| <= MAX_NEIGHBORS
  }

  predicate StartAtRouters(rs: seq<Router>, lines: seq<Line>) {
    forall i | 0 <= i < |lines| :: Exists(rs, lines[i].0)
  }

  lemma AddOne(rs: seq<Router>, line: Line)
    requires WellFormed(rs)
    ensures var o := AfterAddLink(rs, line.0, line.1);
            && (o.Some? <==> Exists(rs, line.0) && |Neighbours(rs, line.0)| < MAX_NEIGHBORS)
            && (o.Some? ==> WellFormed(o.value) && Gains(rs, o.value, [line]))
            && (o.Some? ==> forall a: int :: Exists(o.value, a) <==> Exists(rs, a))
  {
    AddLinkAppends(rs, line.0, line.1);
    var o := AfterAddLink(rs, line.0, line.1);
    if o.Some? {
      forall a: int ensures Neighbours(o.value, a) == Neighbours(rs, a) + Targets([line], a) {
        assert [line][1..] == [];
      }
    }
  }

  lemma GainsAdds(rs: seq<Router>, ss: seq<Router>, ts: seq<Router>, lines: seq<Line>)
    requires lines != [] && Gains(rs, ss, lines[..1]) && Gains(ss, ts, lines[1..])
    ensures Gains(rs, ts, lines)
  {
    hide Neighbours;
    forall a: int ensures Neighbours(ts, a) == Neighbours(rs, a) + Targets(lines, a) {
      assert Targets(lines, a) == Targets(lines[..1], a) + Targets(lines[1..], a) by {
        assert lines[..1][1..] == [];
      }
    }
  }

  /** Adding the lines one by one gives each router exactly its own targets, in order. */
  lemma {:induction false} AddAllGains(rs: seq<Router>, lines: seq<Line>)
    requires WellFormed(rs) && AddAll(rs, lines).Some?
    ensures WellFormed(AddAll(rs, lines).value) && Gains(rs, AddAll(rs, lines).value, lines)
    ensures StartAtRouters(rs, lines)
    decreases |lines|
  {
    if lines == [] {
      NothingGained(rs);
    } else {
      hide Neighbours, WellFormed, AfterAddLink, Targets, Gains, StartAtRouters, FindId;
      AddOne(rs, lines[0]);
      var ss := AfterAddLink(rs, lines[0].0, lines[0].1).value;
      AddAllGains(ss, lines[1..]);
      assert lines[..1] == [lines[0]];
      GainsAdds(rs, ss, AddAll(rs, lines).value, lines);
      StartsBeforeOne(rs, ss, lines);
    }
  }

  lemma NothingGained(rs: seq<Router>)
    ensures Gains(rs, rs, [])
  {
    hide Neighbours;
  }

  lemma StartsBeforeOne(rs: seq<Router>, ss: seq<Router>, lines: seq<Line>)
    requires lines != [] && Exists(rs, lines[0].0) && forall a: int :: Exists(ss, a) <==> Exists(rs, a)
    requires StartAtRouters(ss, lines[1..])
    ensures StartAtRouters(rs, lines)
  {
    hide Exists;
    forall i | 0 <= i < |lines| ensures Exists(rs, lines[i].0) {
      if i > 0 {
        assert Exists(ss, lines[1..][i - 1].0);
      }
    }
  }

  lemma RoomAfterOne(rs: seq<Router>, ss: seq<Router>, lines: seq<Line>)
    requires lines != [] && Gains(rs, ss, [lines[0]]) && forall a: int :: Exists(ss, a) <==> Exists(rs, a)
    requires StartAtRouters(rs, lines) && HasRoomFor(rs, lines)
    ensures |Neighbours(rs, lines[0].0)| < MAX_NEIGHBORS
    ensures StartAtRouters(ss, lines[1..]) && HasRoomFor(ss, lines[1..])
  {
    hide Neighbours, FindId, SameButNeighbours;
    var one: seq<Line> := [lines[0]];
    assert one[1..] == [];
    forall a: int ensures |Targets(lines, a)| == |Targets(one, a)| + |Targets(lines[1..], a)| {
    }
    assert Exists(rs, lines[0].0);
    forall i | 0 <= i < |lines| - 1 ensures Exists(ss, lines[1..][i].0) {
      assert Exists(rs, lines[i + 1].0);
    }
  }

  /** When the lines start at known routers and leave none with more than ten neighbours, all of them are added. */
  lemma {:induction false} AddAllSucceeds(rs: seq<Router>, lines: seq<Line>)
    requires WellFormed(rs) && StartAtRouters(rs, lines) && HasRoomFor(rs, lines)
    ensures AddAll(rs, lines).Some?
    decreases |lines|
  {
    if lines != [] {
      AddOne(rs, lines[0]);
      assert Exists(rs, lines[0].0);
      assert |Neighbours(rs, lines[0].0)| < MAX_NEIGHBORS by {
        assert |Targets(lines, lines[0].0)| > 0;
      }
      hide Neighbours, Exists, WellFormed, Gains, AfterAddLink, StartAtRouters, HasRoomFor;
      var ss := AfterAddLink(rs, lines[0].0, lines[0].1).value;
      RoomAfterOne(rs, ss, lines);
      AddAllSucceeds(ss, lines[1..]);
    }
  }
}
