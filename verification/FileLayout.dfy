/** Where the bytes of a router file stand, by their positions alone. */
module FileLayout {
  import opened Bytes
  import opened Routers
  import opened FileFormat

  // ----- a file that is written -----

  /** From position s on: a newline, the id, the flag, the length byte and as much of the model as it counts. */
  predicate RecordAt(data: seq<Byte>, s: int, r: Router) {
    && r.model.Some?
    && var length := |r.model.value| % 256;
       && 0 <= s && s + 4 + length <= |data|
       && data[s] == 10 && data[s + 1] == r.routerId && data[s + 2] == r.flag && data[s + 3] == length + 1
       && data[s + 4..s + 4 + length] == r.model.value[..length]
  }

  /** From position s on: for each link of r a newline, the id and the neighbour. */
  predicate LinesAt(data: seq<Byte>, s: int, r: Router) {
    forall j | 0 <= j < |Links(r.neighbors)| :: LineAt(data, s + 3 * j, r.routerId, r.neighbors[j] % 256)
  }

  predicate LineAt(data: seq<Byte>, s: int, from: int, to: int) {
    0 <= s && s + 3 <= |data| && data[s] == 10 && data[s + 1] == from && data[s + 2] == to
  }

  /** at and lineAt are the positions of the records and of the link lines of each router. */
  predicate IsFileOf(data: seq<Byte>, rs: seq<Router>, at: seq<int>, lineAt: seq<int>) {
    && |at| == |lineAt| == |rs| + 1
    && |data| >= 4 && CountAt(data) == |rs| && at[0] == 4
    && (forall i | 0 <= i < |rs| :: RecordAt(data, at[i], rs[i]) && at[i + 1] == at[i] + 4 + |rs[i].model.value| % 256)
    && lineAt[0] == at[|rs|]
    && AreLinesAt(data, rs, lineAt)
    && |data| == lineAt[|rs|] + 1 && data[|data| - 1] == 10
  }

  /** The number in the first four bytes. */
  function CountAt(data: seq<Byte>): int
    requires |data| >= 4
  {
    var d: seq<int> := data;
    d[0] + 256 * d[1] + 65536 * d[2] + 16777216 * d[3]
  }

  lemma CountIsWritten(n: nat, rest: seq<Byte>)
    requires n < 0x1_0000_0000
    ensures CountAt(Le32(n) + rest) == n
  {
    var a, b := n / 256, n / 65536;
    assert n == 256 * a + n % 256 && a == 256 * b + a % 256;
    assert b == 256 * (n / 16777216) + b % 256;
  }

  lemma Regrouped<T>(a: seq<T>, b: seq<T>, c: seq<T>, d: seq<T>)
    ensures a + (b + c) + d == a + b + (c + d) == (a + b) + c + d
  {
  }

  lemma RecordIsWritten(before: seq<Byte>, r: Router, after: seq<Byte>)
    requires IsPrintable(r)
    ensures RecordAt(before + ([NEWLINE] + RouterBytes(r)) + after, |before|, r)
    ensures |RouterBytes(r)| == 3 + |r.model.value| % 256
  {
    var data, s, length := before + ([NEWLINE] + RouterBytes(r)) + after, |before|, |r.model.value| % 256;
    assert LengthByte(r.model.value) == length + 1;
    assert data[s..][..4] == [10, r.routerId, r.flag, LengthByte(r.model.value)];
    assert data[s] == data[s..][..4][0] && data[s + 1] == data[s..][..4][1];
    assert data[s + 2] == data[s..][..4][2] && data[s + 3] == data[s..][..4][3];
    assert data[s + 4..s + 4 + length] == r.model.value[..length];
  }

  lemma {:induction false} RecordsAreWritten(before: seq<Byte>, rs: seq<Router>, after: seq<Byte>)
    returns (at: seq<int>)
    requires ArePrintable(rs)
    ensures |at| == |rs| + 1 && at[0] == |before| && at[|rs|] == |before| + |RouterLinesBytes(rs)|
    ensures forall i | 0 <= i < |rs| ::
              && RecordAt(before + RouterLinesBytes(rs) + after, at[i], rs[i])
              && at[i + 1] == at[i] + 4 + |rs[i].model.value| % 256
    decreases |rs|
  {
    if rs == [] {
      at := [|before|];
    } else {
      var first, rest := [NEWLINE] + RouterBytes(rs[0]), RouterLinesBytes(rs[1..]);
      assert RouterLinesBytes(rs) == first + rest;
      hide RecordAt, RouterLinesBytes, RouterBytes;
      RecordIsWritten(before, rs[0], rest + after);
      Regrouped(before, first, rest, after);
      var more := RecordsAreWritten(before + first, rs[1..], after);
      at := [|before|] + more;
    }
  }

  lemma {:induction false} LinesToAt(before: seq<Byte>, from: Byte, targets: seq<int>, after: seq<Byte>, j: nat)
    requires j < |targets|
    ensures LineAt(before + LineBytes(LinesTo(from, targets)) + after, |before| + 3 * j, from, targets[j] % 256)
    decreases j
  {
    var line: seq<Byte>, rest := [NEWLINE, from, targets[0] % 256], LineBytes(LinesTo(from, targets[1..]));
    assert LineBytes(LinesTo(from, targets)) == line + rest by {
      assert LinesTo(from, targets)[1..] == LinesTo(from, targets[1..]);
    }
    Regrouped(before, line, rest, after);
    hide LineBytes, LinesTo;
    if j > 0 {
      LinesToAt(before + line, from, targets[1..], after, j - 1);
    } else {
      FirstLine(before, line, rest + after);
    }
  }

  lemma FirstLine(before: seq<Byte>, line: seq<Byte>, after: seq<Byte>)
    requires |line| == 3 && line[0] == 10
    ensures LineAt(before + line + after, |before|, line[1], line[2])
  {
  }

  lemma {:induction false} LineBytesOfBoth(xs: seq<Line>, ys: seq<Line>)
    ensures LineBytes(xs + ys) == LineBytes(xs) + LineBytes(ys) && |LineBytes(xs)| == 3 * |xs|
  {
    if xs == [] {
      assert xs + ys == ys;
    } else {
      var line: seq<Byte> := [NEWLINE, xs[0].0, xs[0].1];
      assert LineBytes(xs) == line + LineBytes(xs[1..]);
      assert LineBytes(xs + ys) == line + LineBytes(xs[1..] + ys) by {
        assert (xs + ys)[1..] == xs[1..] + ys;
      }
      hide LineBytes;
      LineBytesOfBoth(xs[1..], ys);
    }
  }

  predicate AreLinesAt(data: seq<Byte>, rs: seq<Router>, lineAt: seq<int>)
    requires |lineAt| == |rs| + 1
  {
    forall i | 0 <= i < |rs| ::
      LinesAt(data, lineAt[i], rs[i]) && lineAt[i + 1] == lineAt[i] + 3 * |Links(rs[i].neighbors)|
  }

  lemma {:induction false} LinesAreWritten(before: seq<Byte>, rs: seq<Router>, after: seq<Byte>)
    returns (lineAt: seq<int>)
    ensures |lineAt| == |rs| + 1 && lineAt[0] == |before| && lineAt[|rs|] == |before| + |LineBytes(LinesOf(rs))|
    ensures AreLinesAt(before + LineBytes(LinesOf(rs)) + after, rs, lineAt)
    decreases |rs|
  {
    if rs == [] {
      lineAt := [|before|];
    } else {
      var own := LinesTo(rs[0].routerId, Links(rs[0].neighbors));
      var first, rest := LineBytes(own), LineBytes(LinesOf(rs[1..]));
      LineBytesOfBoth(own, LinesOf(rs[1..]));
      LinesToStart(rs[0].routerId, Links(rs[0].neighbors));
      assert LineBytes(LinesOf(rs)) == first + rest;
      hide LinesAt, LinesOf, LineBytes, Links, LinesTo, AreLinesAt;
      OwnLinesAreWritten(before, rs[0], rest + after);
      Regrouped(before, first, rest, after);
      var more := LinesAreWritten(before + first, rs[1..], after);
      lineAt := [|before|] + more;
      OneMoreHasLinesAt(before + LineBytes(LinesOf(rs)) + after, |before|, rs, more);
    }
  }

  lemma OneMoreHasLinesAt(data: seq<Byte>, s: int, rs: seq<Router>, more: seq<int>)
    requires rs != [] && |more| == |rs| && AreLinesAt(data, rs[1..], more)
    requires LinesAt(data, s, rs[0]) && more[0] == s + 3 * |Links(rs[0].neighbors)|
    ensures AreLinesAt(data, rs, [s] + more)
  {
    hide LinesAt, Links;
    forall i | 0 <= i < |rs|
      ensures LinesAt(data, ([s] + more)[i], rs[i])
      ensures ([s] + more)[i + 1] == ([s] + more)[i] + 3 * |Links(rs[i].neighbors)|
    {
      if i > 0 {
        assert rs[1..][i - 1] == rs[i];
      }
    }
  }

  lemma OwnLinesAreWritten(before: seq<Byte>, r: Router, after: seq<Byte>)
    ensures LinesAt(before + LineBytes(LinesTo(r.routerId, Links(r.neighbors))) + after, |before|, r)
  {
    hide LineBytes, LinesTo, LineAt;
    forall j | 0 <= j < |Links(r.neighbors)|
      ensures LineAt(before + LineBytes(LinesTo(r.routerId, Links(r.neighbors))) + after, |before| + 3 * j,
                     r.routerId, r.neighbors[j] % 256)
    {
      LinesToAt(before, r.routerId, Links(r.neighbors), after, j);
    }
  }

  /** The written file, byte for byte. */
  lemma WrittenLayout(rs: seq<Router>) returns (at: seq<int>, lineAt: seq<int>)
    requires ArePrintable(rs) && |rs| < 0x1_0000_0000
    ensures IsFileOf(Serialize(rs), rs, at, lineAt)
  {
    var header, records, lines := Le32(|rs|), RouterLinesBytes(rs), LineBytes(LinesOf(rs));
    assert Serialize(rs) == header + records + lines + [NEWLINE];
    hide RecordAt, LinesAt, RouterLinesBytes, LineBytes, LinesOf, CountAt, Serialize;
    at := RecordsAreWritten(header, rs, lines + [NEWLINE]);
    lineAt := LinesAreWritten(header + records, rs, [NEWLINE]);
    CountIsWritten(|rs|, records + lines + [NEWLINE]);
    FileParts(header, records, lines, [NEWLINE]);
  }

  lemma WrittenHasLayout(rs: seq<Router>)
    requires ArePrintable(rs) && |rs| < 0x1_0000_0000
    ensures exists at, lineAt :: IsFileOf(Serialize(rs), rs, at, lineAt)
  {
    var at, lineAt := WrittenLayout(rs);
  }

  lemma FileParts<T>(a: seq<T>, b: seq<T>, c: seq<T>, d: seq<T>)
    ensures a + b + c + d == a + b + (c + d) == a + (b + c + d)
  {
  }

  // ----- a file that is read -----

  /** From position s on: a newline, the id, the flag, a length byte of at least 2, and one byte less than it counts;
      the model ends at the first NUL among them, or with the last. */
  predicate IsReadAt(data: seq<Byte>, s: int, r: Router) {
    && 0 <= s && s + 4 <= |data| && data[s + 3] >= 2 && s + 3 + data[s + 3] <= |data|
    && data[s] == 10 && r.routerId == data[s + 1] && r.flag == data[s + 2] && r.neighbors == NO_NEIGHBORS
    && r.model.Some?
    && var model := r.model.value;
       && |model| < data[s + 3]
       && (forall j | 0 <= j < |model| :: model[j] == data[s + 4 + j] && model[j] != 0)
       && (|model| < data[s + 3] - 1 ==> data[s + 4 + |model|] == 0)
  }

  /** The first |bs| records of the file and where they start, and the links of the lines after them; nothing is left
      but a last newline. */
  predicate IsReadFrom(data: seq<Byte>, bs: seq<Router>, at: seq<int>, lines: seq<Line>) {
    && |at| == |bs| + 1 && |data| >= 4 && CountAt(data) == |bs|
    && at[0] == 4 && AreReadAt(data, bs, at)
    && |data| == at[|bs|] + 3 * |lines| + 1 && data[|data| - 1] == 10
    && forall k | 0 <= k < |lines| :: LineAt(data, at[|bs|] + 3 * k, lines[k].0, lines[k].1)
  }

  predicate AreReadAt(data: seq<Byte>, bs: seq<Router>, at: seq<int>)
    requires |at| == |bs| + 1
  {
    forall i | 0 <= i < |bs| :: IsReadAt(data, at[i], bs[i]) && StepsTo(data, at[i], at[i + 1])
  }

  /** The record at s ends right before t. */
  predicate StepsTo(data: seq<Byte>, s: int, t: int) {
    0 <= s && s + 3 < |data| && t == s + 3 + data[s + 3]
  }

  /** One record is read exactly where it stands. */
  lemma OneRecordIsRead(data: seq<Byte>, s: int, r: Router)
    requires 0 <= s <= |data|
    ensures IsReadAt(data, s, r) ==> ParseRouterLine(data[s..]) == Some((r, data[s + 3 + data[s + 3]..]))
    ensures ParseRouterLine(data[s..]).Some? ==>
              && IsReadAt(data, s, ParseRouterLine(data[s..]).value.0)
              && ParseRouterLine(data[s..]).value.1 == data[s + 3 + data[s + 3]..]
  {
    var rest := data[s..];
    if s + 4 <= |data| && data[s] == 10 && data[s + 3] >= 2 && s + 3 + data[s + 3] <= |data| {
      var length: int := data[s + 3];
      var bytes := data[s + 4..s + 3 + length];
      assert rest[1..][0] == data[s + 1] && rest[1..][1] == data[s + 2] && rest[1..][2] == data[s + 3];
      assert rest[1..][3..length + 2] == bytes && rest[1..][length + 2..] == data[s + 3 + length..];
      if IsReadAt(data, s, r) {
        CStringIs(bytes, r.model.value);
      }
    }
  }

  lemma CStringIs(bytes: seq<Byte>, model: seq<Byte>)
    requires |model| <= |bytes| && forall j | 0 <= j < |model| :: model[j] == bytes[j] && model[j] != 0
    requires |model| < |bytes| ==> bytes[|model|] == 0
    ensures CString(bytes) == model
  {
    if |model| < |bytes| {
      FirstFromIs(bytes, 0, 0, |model|);
    }
    assert bytes[..|model|] == model;
  }

  lemma OneMoreIsReadAt(data: seq<Byte>, s: int, bs: seq<Router>, more: seq<int>)
    requires bs != [] && |more| == |bs| && AreReadAt(data, bs[1..], more)
    requires IsReadAt(data, s, bs[0]) && StepsTo(data, s, more[0])
    ensures AreReadAt(data, bs, [s] + more)
  {
    hide IsReadAt, StepsTo;
    var at := [s] + more;
    forall i | 0 <= i < |bs| ensures IsReadAt(data, at[i], bs[i]) && StepsTo(data, at[i], at[i + 1]) {
      if i > 0 {
        assert IsReadAt(data, more[i - 1], bs[1..][i - 1]) && StepsTo(data, more[i - 1], more[i]);
      }
    }
  }

  lemma NothingIsRead(data: seq<Byte>, s: int)
    requires 0 <= s <= |data|
    ensures AreReadAt(data, [], [s]) && ParseRouters(data[s..], 0) == Some(([], data[s..]))
  {
  }

  lemma FirstRecordOfMore(data: seq<Byte>, s: int, n: nat, bs: seq<Router>, rest: seq<Byte>) returns (t: int)
    requires 0 <= s <= |data| && n > 0 && ParseRouters(data[s..], n) == Some((bs, rest))
    ensures bs != [] && IsReadAt(data, s, bs[0]) && StepsTo(data, s, t) && t <= |data|
    ensures ParseRouters(data[t..], n - 1) == Some((bs[1..], rest))
  {
    var r := ParseRouterLine(data[s..]).value.0;
    OneRecordIsRead(data, s, r);
    t := s + 3 + data[s + 3];
    var more := ParseRouters(data[t..], n - 1).value.0;
    assert ([r] + more)[1..] == more;
  }

  lemma {:induction false} ReadRecordsAre(data: seq<Byte>, s: int, n: nat, bs: seq<Router>, rest: seq<Byte>)
    returns (at: seq<int>)
    requires 0 <= s <= |data| && ParseRouters(data[s..], n) == Some((bs, rest))
    ensures |at| == |bs| + 1 && |bs| == n && at[0] == s && AreReadAt(data, bs, at)
    ensures 0 <= at[n] <= |data| && rest == data[at[n]..]
    decreases n
  {
    hide ParseRouters, IsReadAt, StepsTo, AreReadAt;
    if n == 0 {
      NothingIsRead(data, s);
      at := [s];
    } else {
      var t := FirstRecordOfMore(data, s, n, bs, rest);
      var more := ReadRecordsAre(data, t, n - 1, bs[1..], rest);
      at := [s] + more;
      OneMoreIsReadAt(data, s, bs, more);
    }
  }

  lemma OneMoreIsParsed(data: seq<Byte>, s: int, t: int, bs: seq<Router>, rest: seq<Byte>)
    requires bs != [] && IsReadAt(data, s, bs[0]) && StepsTo(data, s, t)
    requires ParseRouters(data[t..], |bs| - 1) == Some((bs[1..], rest))
    ensures ParseRouters(data[s..], |bs|) == Some((bs, rest))
  {
    hide ParseRouters, ParseRouterLine, IsReadAt;
    OneRecordIsRead(data, s, bs[0]);
    ParseOneFirst(data[s..], |bs|, bs[0], data[t..]);
    assert [bs[0]] + bs[1..] == bs;
  }

  lemma ParseOneFirst(rest: seq<Byte>, n: nat, r: Router, after: seq<Byte>)
    requires n > 0 && ParseRouterLine(rest) == Some((r, after))
    ensures ParseRouters(rest, n) == Prefixed([r], ParseRouters(after, n - 1))
  {
    hide ParseRouterLine, Prefixed;
  }

  lemma {:induction false} RecordsAreRead(data: seq<Byte>, bs: seq<Router>, at: seq<int>)
    requires |at| == |bs| + 1 && AreReadAt(data, bs, at) && 0 <= at[0] <= |data|
    ensures 0 <= at[|bs|] <= |data|
    ensures ParseRouters(data[at[0]..], |bs|) == Some((bs, data[at[|bs|]..]))
    decreases |bs|
  {
    hide ParseRouters, AreReadAt, IsReadAt, StepsTo;
    if bs == [] {
      NothingIsRead(data, at[0]);
    } else {
      RestIsReadAt(data, bs, at);
      RecordsAreRead(data, bs[1..], at[1..]);
      OneMoreIsParsed(data, at[0], at[1], bs, data[at[|bs|]..]);
    }
  }

  lemma RestIsReadAt(data: seq<Byte>, bs: seq<Router>, at: seq<int>)
    requires |at| == |bs| + 1 && bs != [] && AreReadAt(data, bs, at)
    ensures IsReadAt(data, at[0], bs[0]) && StepsTo(data, at[0], at[1]) && 0 <= at[1] <= |data|
    ensures AreReadAt(data, bs[1..], at[1..])
  {
    assert IsReadAt(data, at[0], bs[0]) && StepsTo(data, at[0], at[1]);
    hide IsReadAt, StepsTo;
    forall i | 0 <= i < |bs| - 1
      ensures IsReadAt(data, at[1..][i], bs[1..][i]) && StepsTo(data, at[1..][i], at[1..][i + 1])
    {
      assert IsReadAt(data, at[i + 1], bs[i + 1]) && StepsTo(data, at[i + 1], at[i + 2]);
    }
  }

  lemma {:induction false} ReadLinesAre(data: seq<Byte>, s: int)
    requires 0 <= s <= |data| && FileLines(data[s..]).Some?
    ensures var lines := FileLines(data[s..]).value;
            && |data| == s + 3 * |lines| + 1 && data[|data| - 1] == 10
            && forall k | 0 <= k < |lines| :: LineAt(data, s + 3 * k, lines[k].0, lines[k].1)
    decreases |data| - s
  {
    var rest := data[s..];
    if |rest| > 1 {
      assert rest[3..] == data[s + 3..];
      ReadLinesAre(data, s + 3);
      var more, lines := FileLines(data[s + 3..]).value, FileLines(rest).value;
      assert lines == [(data[s + 1], data[s + 2])] + more;
      forall k | 0 <= k < |lines| ensures LineAt(data, s + 3 * k, lines[k].0, lines[k].1) {
        if k > 0 {
          assert LineAt(data, s + 3 + 3 * (k - 1), more[k - 1].0, more[k - 1].1);
        }
      }
    }
  }

  lemma {:induction false} LinesAreRead(data: seq<Byte>, s: int, lines: seq<Line>)
    requires 0 <= s && |data| == s + 3 * |lines| + 1 && data[|data| - 1] == 10
    requires forall k | 0 <= k < |lines| :: LineAt(data, s + 3 * k, lines[k].0, lines[k].1)
    ensures FileLines(data[s..]) == Some(lines)
    decreases |lines|
  {
    var rest := data[s..];
    if lines == [] {
      assert rest == [10];
    } else {
      assert LineAt(data, s + 3 * 0, lines[0].0, lines[0].1);
      forall k | 0 <= k < |lines| - 1 ensures LineAt(data, s + 3 + 3 * k, lines[1..][k].0, lines[1..][k].1) {
        assert LineAt(data, s + 3 * (k + 1), lines[k + 1].0, lines[k + 1].1);
      }
      LinesAreRead(data, s + 3, lines[1..]);
      assert rest[3..] == data[s + 3..];
      assert [lines[0]] + lines[1..] == lines;
    }
  }

  lemma CountIsRead(data: seq<Byte>)
    requires |data| >= 4
    ensures FromLe32(data[..4]) == CountAt(data)
  {
  }

  lemma ReadParts(data: seq<Byte>) returns (bs: seq<Router>, at: seq<int>, lines: seq<Line>)
    requires Parse(data).Some?
    ensures IsReadFrom(data, bs, at, lines) && AddAll(bs, lines) == Parse(data)
  {
    var n, rest := FromLe32(data[..4]), [];
    CountIsRead(data);
    hide AreReadAt, LineAt, FromLe32, CountAt;
    var parsed := ParseRouters(data[4..], n).value;
    bs, rest := parsed.0, parsed.1;
    at := ReadRecordsAre(data, 4, n, bs, rest);
    ReadingIsAddingLines(rest, bs);
    lines := FileLines(rest).value;
    ReadLinesAre(data, at[|bs|]);
  }

  lemma PartsAreRead(data: seq<Byte>, bs: seq<Router>, at: seq<int>, lines: seq<Line>)
    requires IsReadFrom(data, bs, at, lines)
    ensures AddAll(bs, lines) == Parse(data)
  {
    CountIsRead(data);
    RecordsAreRead(data, bs, at);
    LinesAreRead(data, at[|bs|], lines);
    ReadingIsAddingLines(data[at[|bs|]..], bs);
  }

  /** A file is read exactly if its bytes are records and link lines in these places and all the links can be added, and
      then it is read as what they say. */
  lemma ReadLayoutIff(data: seq<Byte>, rs: seq<Router>)
    ensures Parse(data) == Some(rs) <==>
              exists bs, at, lines :: IsReadFrom(data, bs, at, lines) && AddAll(bs, lines) == Some(rs)
  {
    hide Parse, IsReadFrom, AddAll;
    if Parse(data) == Some(rs) {
      var bs, at, lines := ReadParts(data);
    }
    if bs, at, lines :| IsReadFrom(data, bs, at, lines) && AddAll(bs, lines) == Some(rs) {
      PartsAreRead(data, bs, at, lines);
    }
  }

  lemma ReadableIff(data: seq<Byte>)
    ensures Parse(data).Some? <==>
              exists bs, at, lines :: IsReadFrom(data, bs, at, lines) && AddAll(bs, lines).Some?
  {
    hide Parse, IsReadFrom, AddAll;
    if Parse(data).Some? {
      ReadLayoutIff(data, Parse(data).value);
    }
    if bs, at, lines :| IsReadFrom(data, bs, at, lines) && AddAll(bs, lines).Some? {
      ReadLayoutIff(data, AddAll(bs, lines).value);
    }
  }
}
