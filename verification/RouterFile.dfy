/** Reading and writing the binary router file (obligatory_assignment/src/binary_file.c). A file is a sequence of
    bytes with a position. */
module RouterFile {
  import opened Bytes
  import opened Routers
  import opened RouterTable
  import opened FileFormat
  import opened FileLayout

  /** A file opened for reading. */
  class InFile {
    const data: seq<Byte>
    var pos: nat
    var eof: bool

    ghost predicate Valid()
      reads this
    {
      pos <= |data|
    }

    /** The bytes not read yet. */
    ghost function Rest(): seq<Byte>
      requires Valid()
      reads this
    {
      data[pos..]
    }

    constructor (data: seq<Byte>)
      ensures Valid() && Rest() == data && !eof && this.data == data
    {
      this.data := data;
      pos := 0;
      eof := false;
    }

    /** fread of one item of n bytes: an item of no bytes is never read, and too few bytes left are used up. */
    method Read(n: int) returns (ok: bool, bytes: seq<Byte>)
      requires Valid()
      modifies this`pos, this`eof
      ensures Valid()
      ensures ok <==> 0 < n <= |old(Rest())|
      ensures ok ==> bytes == old(Rest())[..n] && Rest() == old(Rest())[n..] && eof == old(eof)
      ensures !ok ==> eof == (old(eof) || n != 0) && Rest() == if n == 0 then old(Rest()) else []
    {
      bytes := [];
      if n == 0 {
        return false, bytes;
      }
      if n < 0 || n > |data| - pos {
        pos := |data|;
        eof := true;
        return false, bytes;
      }
      bytes := data[pos..pos + n];
      pos := pos + n;
      return true, bytes;
    }
  }

  /** A file opened for writing. */
  class OutFile {
    var bytes: seq<Byte>

    constructor ()
      ensures bytes == []
    {
      bytes := [];
    }

    /** fwrite of one item of |item| bytes: an item of no bytes is never written. */
    method Write(item: seq<Byte>) returns (ok: bool)
      modifies this
      ensures ok <==> item != []
      ensures bytes == old(bytes) + item
    {
      bytes := bytes + item;
      return item != [];
    }
  }

  // ----- reading -----

  method ReadNewline(fp: InFile) returns (ok: bool)
    requires fp.Valid()
    modifies fp`pos, fp`eof
    ensures fp.Valid()
    ensures ok <==> old(fp.Rest()) != [] && old(fp.Rest())[0] == NEWLINE
    ensures ok ==> fp.Rest() == old(fp.Rest())[1..] && fp.eof == old(fp.eof)
  {
    var bytes;
    ok, bytes := fp.Read(1);
    if !ok {
      return;
    }
    return bytes[0] == NEWLINE;
  }

  /** For a length byte of 0 the length passed to fread is negative, which as a size_t is more than any file holds. */
  method ReadRouter(fp: InFile) returns (ok: bool, router: Router)
    requires fp.Valid()
    modifies fp`pos, fp`eof
    ensures fp.Valid()
    ensures ok <==> ParseRouter(old(fp.Rest())).Some?
    ensures ok ==> ParseRouter(old(fp.Rest())) == Some((router, fp.Rest())) && fp.eof == old(fp.eof)
  {
    ghost var rest := fp.Rest();
    router := Router(0, 0, None, NO_NEIGHBORS);
    var id, flag, charLen, model;
    ok, id := fp.Read(1);
    if !ok {
      return;
    }
    ok, flag := fp.Read(1);
    if !ok {
      return;
    }
    ok, charLen := fp.Read(1);
    if !ok {
      return;
    }
    assert id[0] == rest[0] && flag[0] == rest[1] && charLen[0] == rest[2] && fp.Rest() == rest[3..];
    var length: int := charLen[0];
    ok, model := fp.Read(length - 1);
    if !ok {
      return;
    }
    assert model == rest[3..length + 2] && fp.Rest() == rest[length + 2..];
    router := Router(id[0], flag[0], Some(CString(model)), NO_NEIGHBORS);
  }

  /** The feof test that guards the loop is false whenever it is reached: the only read that may run into the end of
      the file without a failure is followed by a return. */
  method ReadAndSetNeighbors(fp: InFile, table: RouterArray) returns (ok: bool, pairNumber: nat)
    requires fp.Valid() && table.Valid() && !fp.eof
    modifies fp`pos, fp`eof, table.routers
    ensures table.Valid()
    ensures ok <==> ReadLinks(old(fp.Rest()), old(table.Contents())).Some?
    ensures ok ==> ReadLinks(old(fp.Rest()), old(table.Contents())) == Some(table.Contents())
    ensures ok ==> |old(fp.Rest())| == 3 * pairNumber + 1
  {
    pairNumber := 0;
    while true
      invariant fp.Valid() && table.Valid() && !fp.eof && table.routers == old(table.routers)
      invariant ReadLinks(fp.Rest(), table.Contents()) == ReadLinks(old(fp.Rest()), old(table.Contents()))
      invariant |old(fp.Rest())| == 3 * pairNumber + |fp.Rest()|
      decreases |fp.Rest()|
    {
      ghost var rest := fp.Rest();
      ok := ReadNewline(fp);
      if !ok {
        return;
      }
      var fromRouter, toRouter;
      ok, fromRouter := fp.Read(1);
      if fp.eof {
        return true, pairNumber;
      }
      pairNumber := pairNumber + 1;
      ok, toRouter := fp.Read(1);
      if !ok {
        return;
      }
      assert fromRouter[0] == rest[1] && toRouter[0] == rest[2] && fp.Rest() == rest[3..];
      ok := table.AddLink(fromRouter[0], toRouter[0]);
      if !ok {
        return;
      }
    }
  }

  method ReadRouterLine(fp: InFile) returns (ok: bool, router: Router)
    requires fp.Valid()
    modifies fp`pos, fp`eof
    ensures fp.Valid()
    ensures ok <==> ParseRouterLine(old(fp.Rest())).Some?
    ensures ok ==> ParseRouterLine(old(fp.Rest())) == Some((router, fp.Rest())) && fp.eof == old(fp.eof)
  {
    hide ParseRouter;
    router := Router(0, 0, None, NO_NEIGHBORS);
    ok := ReadNewline(fp);
    if !ok {
      return;
    }
    ok, router := ReadRouter(fp);
  }

  /** One round of the loop of readBinaryFile: the router at index i. `parsed` is what the whole loop should read. */
  method ReadRouterAt(fp: InFile, table: RouterArray, i: nat, ghost parsed: Option<(seq<Router>, seq<Byte>)>)
    returns (ok: bool)
    requires fp.Valid() && table.Valid() && i < table.count
    requires parsed == Prefixed(table.routers[..i], ParseRouters(fp.Rest(), table.count - i))
    modifies fp`pos, fp`eof, table.routers
    ensures fp.Valid() && table.Valid()
    ensures ok ==> parsed == Prefixed(table.routers[..i + 1], ParseRouters(fp.Rest(), table.count - i - 1))
    ensures ok ==> fp.eof == old(fp.eof)
    ensures !ok ==> parsed == None
  {
    OneMoreRead(parsed, table.routers[..i], fp.Rest(), table.count - i);
    hide ParseRouters, ParseRouterLine, Prefixed;
    var router;
    ok, router := ReadRouterLine(fp);
    if !ok {
      return;
    }
    table.routers[i] := router;
    assert table.routers[..i + 1] == old(table.routers[..i]) + [router];
  }

  /** The loop of readBinaryFile over the routers (lines 43-57), into an allocated array. */
  method ReadRouters(fp: InFile, table: RouterArray) returns (ok: bool)
    requires fp.Valid() && table.Valid() && !fp.eof
    modifies fp`pos, fp`eof, table.routers
    ensures fp.Valid() && table.Valid()
    ensures ok <==> ParseRouters(old(fp.Rest()), table.count).Some?
    ensures ok ==> ParseRouters(old(fp.Rest()), table.count) == Some((table.Contents(), fp.Rest())) && !fp.eof
  {
    ghost var parsed := ParseRouters(fp.Rest(), table.count);
    NothingReadYet(parsed);
    hide ParseRouters, Prefixed;
    assert table.routers[..0] == [];
    for i := 0 to table.count
      invariant fp.Valid() && table.Valid() && !fp.eof
      invariant parsed == Prefixed(table.routers[..i], ParseRouters(fp.Rest(), table.count - i))
    {
      ok := ReadRouterAt(fp, table, i, parsed);
      if !ok {
        return;
      }
    }
    AllRead(table.Contents(), fp.Rest());
    ok := true;
  }

  lemma NothingReadYet(o: Option<(seq<Router>, seq<Byte>)>)
    ensures o == Prefixed([], o)
  {
    if o.Some? {
      assert [] + o.value.0 == o.value.0;
    }
  }

  lemma OneMoreRead(parsed: Option<(seq<Router>, seq<Byte>)>, read: seq<Router>, rest: seq<Byte>, n: nat)
    requires n > 0 && parsed == Prefixed(read, ParseRouters(rest, n))
    ensures ParseRouterLine(rest).None? ==> parsed.None?
    ensures ParseRouterLine(rest).Some? ==>
              var (r, after) := ParseRouterLine(rest).value;
              parsed == Prefixed(read + [r], ParseRouters(after, n - 1))
  {
    if ParseRouterLine(rest).Some? {
      var (r, after) := ParseRouterLine(rest).value;
      if ParseRouters(after, n - 1).Some? {
        var qs := ParseRouters(after, n - 1).value.0;
        assert read + ([r] + qs) == read + [r] + qs;
      }
    }
  }

  lemma AllRead(read: seq<Router>, rest: seq<Byte>)
    ensures Prefixed(read, ParseRouters(rest, 0)) == Some((read, rest))
  {
    assert read + [] == read;
  }

  /** Reads a whole file, given as its bytes. */
  method ReadBinaryFile(data: seq<Byte>) returns (ok: bool, table: RouterArray)
    ensures fresh(table) && fresh(table.routers) && table.Valid()
    ensures ok <==> Parse(data).Some?
    ensures ok ==> Parse(data) == Some(table.Contents())
    ensures ok <==> exists bs, at, lines :: IsReadFrom(data, bs, at, lines) && AddAll(bs, lines).Some?
    ensures ok ==>
              exists bs, at, lines :: IsReadFrom(data, bs, at, lines) && AddAll(bs, lines) == Some(table.Contents())
  {
    hide IsReadFrom, AddAll;
    ReadableIff(data);
    if Parse(data).Some? {
      ReadLayoutIff(data, Parse(data).value);
    }
    var fp := new InFile(data);
    table := new RouterArray([]);
    var header;
    ok, header := fp.Read(4);
    if !ok {
      return;
    }
    var n := FromLe32(header);
    table := new RouterArray(seq(n, _ => Router(0, 0, None, NO_NEIGHBORS)));
    ok := ReadRouters(fp, table);
    if !ok {
      return;
    }
    var pairNumber;
    ok, pairNumber := ReadAndSetNeighbors(fp, table);
  }

  // ----- writing -----

  method WriteNewline(fp: OutFile) returns (ok: bool)
    modifies fp
    ensures ok && fp.bytes == old(fp.bytes) + [NEWLINE]
  {
    ok := fp.Write([NEWLINE]);
  }

  method WriteRouter(fp: OutFile, router: Router) returns (ok: bool)
    requires IsPrintable(router)
    modifies fp
    ensures ok <==> HasModel(router)
    ensures fp.bytes == old(fp.bytes) + RouterBytes(router)
  {
    var model, charLen: int := router.model.value, LengthByte(router.model.value);
    ok := fp.Write([router.routerId]);
    ok := fp.Write([router.flag]);
    ok := fp.Write([LengthByte(model)]);
    ok := fp.Write(model[..charLen - 1]);
    assert fp.bytes == old(fp.bytes) + RouterBytes(router);
  }

  /** The links of one router (lines 423-453). */
  method WriteLinks(fp: OutFile, router: Router) returns (count: nat)
    modifies fp
    ensures count == |Links(router.neighbors)|
    ensures fp.bytes == old(fp.bytes) + LineBytes(LinesTo(router.routerId, Links(router.neighbors)))
  {
    hide LineBytes, LinesTo;
    var ns, from := router.neighbors, router.routerId;
    ghost var links := Links(ns);
    NoLinksNoBytes(from);
    count := 0;
    for i := 0 to MAX_NEIGHBORS
      invariant count == i <= |links|
      invariant fp.bytes + LineBytes(LinesTo(from, links[i..])) == old(fp.bytes) + LineBytes(LinesTo(from, links))
    {
      if ns[i] == -1 {
        assert |links| == i && links[i..] == [];
        return;
      }
      var to: Byte := ns[i] % 256;
      assert links[i..][1..] == links[i + 1..] && links[i..][0] == ns[i];
      LinesToOneMore(from, links[i..]);
      var ok := WriteNewline(fp);
      ok := fp.Write([from]);
      ok := fp.Write([to]);
      count := count + 1;
    }
    assert links[MAX_NEIGHBORS..] == [];
  }

  lemma LinesToOneMore(from: Byte, targets: seq<int>)
    requires targets != []
    ensures LineBytes(LinesTo(from, targets)) ==
              [NEWLINE] + [from] + [(targets[0] % 256) as Byte] + LineBytes(LinesTo(from, targets[1..]))
  {
    var lines := LinesTo(from, targets);
    assert lines[1..] == LinesTo(from, targets[1..]);
  }

  lemma {:induction false} LineBytesOfBoth(xs: seq<Line>, ys: seq<Line>)
    ensures LineBytes(xs + ys) == LineBytes(xs) + LineBytes(ys)
  {
    if xs == [] {
      assert xs + ys == ys;
    } else {
      var zs := xs + ys;
      assert zs[0] == xs[0] && zs[1..] == xs[1..] + ys;
      LineBytesOfBoth(xs[1..], ys);
    }
  }

  method WriteNeighbors(fp: OutFile, table: RouterArray) returns (ok: bool, pairNumber: nat)
    requires table.Valid()
    modifies fp
    ensures ok && pairNumber == |LinesOf(table.Contents())|
    ensures fp.bytes == old(fp.bytes) + LineBytes(LinesOf(table.Contents())) + [NEWLINE]
  {
    hide LineBytes, Links, LinesTo;
    ghost var rs := table.Contents();
    pairNumber := 0;
    for r := 0 to table.count
      invariant fp.bytes + LineBytes(LinesOf(rs[r..])) == old(fp.bytes) + LineBytes(LinesOf(rs))
      invariant pairNumber + |LinesOf(rs[r..])| == |LinesOf(rs)|
    {
      assert rs[r..][0] == rs[r] == table.routers[r] && rs[r..][1..] == rs[r + 1..];
      ghost var links := LinesTo(rs[r].routerId, Links(rs[r].neighbors));
      LineBytesOfBoth(links, LinesOf(rs[r + 1..]));
      LinesToStart(rs[r].routerId, Links(rs[r].neighbors));
      var count := WriteLinks(fp, table.routers[r]);
      pairNumber := pairNumber + count;
    }
    assert rs[|rs|..] == [];
    NoLinksNoBytes(0);
    ok := WriteNewline(fp);
  }

  lemma NoLinksNoBytes(from: Byte)
    ensures LinesTo(from, []) == [] && LineBytes([]) == []
  {
  }

  /** The loop of writeBinaryFile over the routers (lines 247-261). */
  method WriteRouters(fp: OutFile, table: RouterArray) returns (ok: bool)
    requires table.Valid() && ArePrintable(table.Contents())
    modifies fp
    ensures ok <==> HaveModels(table.Contents())
    ensures ok ==> fp.bytes == old(fp.bytes) + RouterLinesBytes(table.Contents())
  {
    hide RouterBytes, HasModel, IsPrintable;
    ghost var rs := table.Contents();
    for i := 0 to table.count
      invariant forall j | 0 <= j < i :: HasModel(rs[j])
      invariant fp.bytes + RouterLinesBytes(rs[i..]) == old(fp.bytes) + RouterLinesBytes(rs)
    {
      assert rs[i..][0] == rs[i] == table.routers[i] && rs[i..][1..] == rs[i + 1..];
      ok := WriteNewline(fp);
      ok := WriteRouter(fp, table.routers[i]);
      if !ok {
        return;
      }
    }
    assert rs[|rs|..] == [];
    ok := true;
  }

  /** Writes a whole file. It fails exactly when some model cannot be written. */
  method WriteBinaryFile(table: RouterArray) returns (ok: bool, data: seq<Byte>)
    requires table.Valid() && table.count < 0x1_0000_0000 && ArePrintable(table.Contents())
    ensures ok <==> HaveModels(table.Contents())
    ensures ok <==> forall i | 0 <= i < table.count :: |table.Contents()[i].model.value| % 256 != 0
    ensures ok ==> data == Serialize(table.Contents())
    ensures ok ==> exists at, lineAt :: IsFileOf(data, table.Contents(), at, lineAt)
  {
    hide HaveModels, ArePrintable, RouterLinesBytes, LinesOf, LineBytes, IsFileOf;
    ghost var rs := table.Contents();
    ModelLengths(rs);
    data := [];
    var fp := new OutFile();
    ok := fp.Write(Le32(table.count));
    ok := WriteRouters(fp, table);
    if !ok {
      return;
    }
    var pairNumber;
    ok, pairNumber := WriteNeighbors(fp, table);
    data := fp.bytes;
    WrittenHasLayout(rs);
  }
}
