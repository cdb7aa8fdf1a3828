/** Turning a line of the message file into a packet (home_exam/node/src/node_communication.c), and checking a packet
    (home_exam/assignment_files/print_lib/src/print_lib.c). Strings are bytes without their NUL. */
module Packets {
  import opened Bytes

  const HEADER_SIZE := 6
  const MAX_PACKET := 1500

  // ----- numbers in text -----

  predicate IsDigit(b: Byte) {
    48 <= b <= 57
  }

  predicate AreDigits(s: seq<Byte>) {
    forall i | 0 <= i < |s| :: IsDigit(s[i])
  }

  predicate IsBlank(b: Byte) {
    b == SPACE || 9 <= b <= 13
  }

  /** atoi of the C library: blanks, a sign, then digits up to the first other byte. */
  function Atoi(s: seq<Byte>): int {
    if s == [] then 0
    else if IsBlank(s[0]) then Atoi(s[1..])
    else if s[0] == 45 then -LeadingDigits(s[1..], 0)
    else if s[0] == 43 then LeadingDigits(s[1..], 0)
    else LeadingDigits(s, 0)
  }

  function LeadingDigits(s: seq<Byte>, acc: int): int {
    if s == [] || !IsDigit(s[0]) then acc else LeadingDigits(s[1..], 10 * acc + s[0] - 48)
  }

  predicate IsNumeral(s: seq<Byte>) {
    s != [] && AreDigits(s)
  }

  /** The number a string of digits stands for. */
  function DecimalValue(ds: seq<Byte>): nat
    requires AreDigits(ds)
  {
    if ds == [] then 0 else 10 * DecimalValue(ds[..|ds| - 1]) + (ds[|ds| - 1] - 48)
  }

  /** One digit is worth its place after the zero, and one digit more multiplies by ten and adds it. */
  lemma DecimalPlaces(ds: seq<Byte>, d: Byte)
    requires AreDigits(ds) && 48 <= d <= 57
    ensures AreDigits(ds + [d]) && DecimalValue(ds + [d]) == 10 * DecimalValue(ds) + d - 48
    ensures DecimalValue([d]) == d - 48
  {
    assert (ds + [d])[..|ds|] == ds && [d][..0] == [];
  }

  predicate StartsWithDigit(s: seq<Byte>) {
    s != [] && 48 <= s[0] <= 57
  }

  lemma {:induction false} LeadingDigitsOfDigits(done: seq<Byte>, ds: seq<Byte>, rest: seq<Byte>)
    requires AreDigits(done + ds) && !StartsWithDigit(rest)
    ensures AreDigits(done)
    ensures LeadingDigits(ds + rest, DecimalValue(done)) == DecimalValue(done + ds)
    decreases |ds|
  {
    assert forall i | 0 <= i < |done| :: (done + ds)[i] == done[i];
    if ds == [] {
      assert done + ds == done && ds + rest == rest;
    } else {
      assert (done + ds)[|done|] == ds[0];
      var more := done + [ds[0]];
      assert more + ds[1..] == done + ds;
      LeadingDigitsOfDigits(more, ds[1..], rest);
      assert more[..|more| - 1] == done && (ds + rest)[1..] == ds[1..] + rest;
    }
  }

  /** A number may have a sign before its digits, and ends at the first other byte. */
  lemma AtoiReads(ds: seq<Byte>, rest: seq<Byte>)
    requires IsNumeral(ds) && !StartsWithDigit(rest)
    ensures var n: int := DecimalValue(ds);
            Atoi(ds + rest) == n && Atoi([43] + (ds + rest)) == n && Atoi([45] + (ds + rest)) == -n
  {
    hide LeadingDigits, DecimalValue;
    var s := ds + rest;
    assert [] + ds == ds && 48 <= s[0] <= 57;
    NoDigits();
    LeadingDigitsOfDigits([], ds, rest);
    assert ([43] + s)[1..] == s && ([45] + s)[1..] == s;
  }

  lemma NoDigits()
    ensures DecimalValue([]) == 0
  {
  }

  /** Spaces and the control bytes 9 to 13 before a number do not count. */
  lemma AtoiSkipsBlank(blank: Byte, s: seq<Byte>)
    requires blank == 32 || 9 <= blank <= 13
    ensures Atoi([blank] + s) == Atoi(s)
  {
    assert ([blank] + s)[1..] == s;
  }

  // ----- the fields of a packet -----

  /** Two bytes in network order. */
  function Field(packet: seq<Byte>, i: nat): (n: int)
    requires i + 2 <= |packet|
    ensures 0 <= n < 65536
  {
    var high: int, low: int := packet[i], packet[i + 1];
    256 * high + low
  }

  /** The value with its two bytes exchanged, as a second ntohs does. */
  function Swapped(n: int): (m: int)
    requires 0 <= n < 65536
    ensures 0 <= m < 65536 && (n > 0 ==> m > 0)
  {
    256 * (n % 256) + n / 256
  }

  /** strlen of the bytes from position i on: the distance to the first NUL. */
  function StringLength(packet: seq<Byte>, i: nat): nat
    requires i <= |packet|
  {
    FirstFrom(packet, 0, i) - i
  }

  /** The bytes of a packet: its length, the destination and the source, each with its high byte first, then the message
      and a NUL. */
  predicate IsPacket(packet: seq<Byte>, destination: int, source: int, msg: seq<Byte>) {
    && |packet| == |msg| + 7 < 65536
    && packet[0] == |packet| / 256 && packet[1] == |packet| % 256
    && packet[2] == destination / 256 && packet[3] == destination % 256
    && packet[4] == source / 256 && packet[5] == source % 256
    && packet[6..] == msg + [0]
  }

  // ----- the line -----

  predicate HasNo(s: seq<Byte>, b: Byte) {
    forall i | 0 <= i < |s| :: s[i] != b
  }

  /** "D message\n" */
  function LineFor(digits: seq<Byte>, msg: seq<Byte>): seq<Byte> {
    digits + [32] + msg + [10]
  }

  /** There is a newline after the first space. */
  predicate HasMessage(line: seq<Byte>) {
    FirstFrom(line, NEWLINE, FirstFrom(line, SPACE, 0)) < |line|
  }

  /** The text between the two. */
  function MessageOf(line: seq<Byte>): seq<Byte>
    requires HasMessage(line)
  {
    line[FirstFrom(line, SPACE, 0) + 1..FirstFrom(line, NEWLINE, FirstFrom(line, SPACE, 0))]
  }

  /** Position i holds the first space and j the first newline after it. */
  predicate AreFirst(line: seq<Byte>, i: int, j: int) {
    && 0 <= i < j < |line| && line[i] == 32 && line[j] == 10
    && (forall k | 0 <= k < i :: line[k] != 32)
    && (forall k | i < k < j :: line[k] != 10)
  }

  lemma FirstOnes(line: seq<Byte>, i: int, j: int)
    requires AreFirst(line, i, j)
    ensures HasMessage(line) && MessageOf(line) == line[i + 1..j]
    ensures IsNumeral(line[..i]) ==> DestinationOf(line) == DecimalValue(line[..i]) % 65536
  {
    FirstFromIs(line, SPACE, 0, i);
    FirstFromIs(line, NEWLINE, i, j);
    if IsNumeral(line[..i]) {
      AtoiReads(line[..i], []);
      assert line[..i] + [] == line[..i];
    }
  }

  lemma SpaceThenNewline(line: seq<Byte>, i: int, j: int)
    requires 0 <= i < j < |line| && line[i] == 32 && line[j] == 10
    ensures HasMessage(line)
  {
    var s := FirstFrom(line, SPACE, 0);
    assert s <= i;
    var n := FirstFrom(line, NEWLINE, s);
    assert n <= j;
  }

  /** The number before the space, cut to the 16 bits of the field. */
  function DestinationOf(line: seq<Byte>): (d: int)
    ensures 0 <= d < 65536
  {
    Atoi(line[..FirstFrom(line, SPACE, 0)]) % 65536
  }

  /** The length is that of the whole packet exactly when the message leaves it within 16 bits; for a longer one the
      buffer of that length would not hold it. */
  method ExtractLengthDestinationAndMessage(line: seq<Byte>)
    returns (ok: bool, length: int, destination: int, msg: seq<Byte>)
    ensures ok <==> HasMessage(line)
    ensures ok <==> exists i, j :: 0 <= i < j < |line| && line[i] == 32 && line[j] == 10
    ensures ok ==> msg == MessageOf(line) && destination == DestinationOf(line)
    ensures ok ==> forall i, j | AreFirst(line, i, j) ::
              && msg == line[i + 1..j]
              && (IsNumeral(line[..i]) ==> destination == DecimalValue(line[..i]) % 65536)
    ensures ok ==> (length == |msg| + 7 <==> |msg| + 7 < 65536)
    ensures ok ==> (length >= |msg| + 7 <==> |msg| + 7 < 65536)
    ensures ok ==> 0 <= length < 65536 && (|msg| + 7 - length) % 65536 == 0
  {
    length, destination, msg := 0, 0, [];
    forall i, j | 0 <= i < j < |line| && line[i] == 32 && line[j] == 10 ensures HasMessage(line) {
      SpaceThenNewline(line, i, j);
    }
    var lineLen := |line|;
    var spaceI := 0;
    while spaceI < lineLen
      invariant spaceI <= lineLen && FirstFrom(line, SPACE, 0) == FirstFrom(line, SPACE, spaceI)
    {
      if line[spaceI] == SPACE {
        break;
      }
      spaceI := spaceI + 1;
    }
    if spaceI == lineLen {
      return false, length, destination, msg;
    }
    destination := Atoi(line[..spaceI]) % 65536;
    var nI := spaceI;
    while nI < lineLen
      invariant spaceI <= nI <= lineLen && FirstFrom(line, NEWLINE, spaceI) == FirstFrom(line, NEWLINE, nI)
    {
      if line[nI] == NEWLINE {
        break;
      }
      nI := nI + 1;
    }
    if nI == lineLen {
      return false, length, destination, msg;
    }
    msg := line[spaceI + 1..nI];
    length := (7 + |msg|) % 65536;
    ok := true;
    forall i, j | AreFirst(line, i, j)
      ensures msg == line[i + 1..j] && (IsNumeral(line[..i]) ==> destination == DecimalValue(line[..i]) % 65536)
    {
      FirstOnes(line, i, j);
    }
  }

  /** A line "D message\n" is taken apart into D and the message. */
  lemma LineIsTakenApart(digits: seq<Byte>, msg: seq<Byte>)
    requires IsNumeral(digits) && HasNo(msg, NEWLINE)
    ensures HasMessage(LineFor(digits, msg)) && MessageOf(LineFor(digits, msg)) == msg
    ensures DestinationOf(LineFor(digits, msg)) == DecimalValue(digits) % 65536
  {
    var line := LineFor(digits, msg);
    FirstFromIs(line, SPACE, 0, |digits|);
    FirstFromIs(line, NEWLINE, |digits|, |line| - 1);
    assert line[..|digits|] == digits;
    AtoiReads(digits, []);
    assert digits + [] == digits;
  }

  // ----- building -----

  /** memcpy(&packet[at], &htons(value), 2) */
  method PutField(packet: array<Byte>, at: nat, value: int)
    requires at + 2 <= packet.Length
    modifies packet
    ensures packet[at] == value / 256 % 256 && packet[at + 1] == value % 256
    ensures forall i | 0 <= i < packet.Length && i != at && i != at + 1 :: packet[i] == old(packet[i])
  {
    packet[at] := value / 256 % 256;
    packet[at + 1] := value % 256;
  }

  /** The buffer has `length` bytes, so the message and its NUL must fit behind the header. */
  method CreatePacket(length: int, destination: int, source: int, msg: seq<Byte>) returns (packet: array<Byte>)
    requires 0 <= destination < 65536 && 0 <= source < 65536
    requires length == |msg| + 7 < 65536
    ensures fresh(packet) && IsPacket(packet[..], destination, source, msg)
    ensures packet.Length == |msg| + 7 && packet[6..] == msg + [0]
    ensures packet[0] == length / 256 && packet[1] == length % 256
    ensures packet[2] == destination / 256 && packet[3] == destination % 256
    ensures packet[4] == source / 256 && packet[5] == source % 256
  {
    packet := new Byte[length];
    PutField(packet, 0, length);
    PutField(packet, 2, destination);
    PutField(packet, 4, source);
    ghost var header := packet[..HEADER_SIZE];
    for i := 0 to |msg| + 1
      invariant packet[..HEADER_SIZE] == header
      invariant forall j | 0 <= j < i :: packet[HEADER_SIZE + j] == (msg + [0])[j]
    {
      packet[HEADER_SIZE + i] := if i < |msg| then msg[i] else 0;
    }
    assert forall j | 0 <= j < HEADER_SIZE :: packet[j] == header[j];
  }

  // ----- checking -----

  const LEN_SWAP: bv16 := 0x0001
  const BAD_LENGTH: bv16 := 0x0002
  const MINOR_LENGTH_BUG: bv16 := 0x0004
  const LENGTH_BUG: bv16 := 0x0008
  const STRING_TERM_BUG: bv16 := 0x0010
  const SHORT_STRING_BUG: bv16 := 0x0020
  const TEST_CODE_BUG: bv16 := 0x0800
  const INCOMPLETE_PACKET: bv16 := 0x8000

  /** The length used for the check of the last byte (lines 35-43). */
  function CheckedLength(length: int): int
    requires 0 <= length < 65536
  {
    if length <= MAX_PACKET then length
    else if Swapped(length) > MAX_PACKET then MAX_PACKET
    else Swapped(length)
  }

  /** The first NUL from position i on is at position end. */
  predicate EndsAt(packet: seq<Byte>, i: int, end: int) {
    0 <= i <= end < |packet| && packet[end] == 0 && forall k | i <= k < end :: packet[k] != 0
  }

  lemma EndsAtFirst(packet: seq<Byte>, i: nat, end: int)
    requires i <= |packet| && FirstFrom(packet, 0, i) < |packet|
    ensures EndsAt(packet, i, end) <==> end == FirstFrom(packet, 0, i)
  {
    if EndsAt(packet, i, end) {
      FirstFromIs(packet, 0, i, end);
    }
  }

  lemma FirstTwoBytes(packet: seq<Byte>)
    requires |packet| >= 2
    ensures var high: int, low: int := packet[0], packet[1];
            var length, swapped := 256 * high + low, 256 * low + high;
            && Field(packet, 0) == length && Swapped(length) == swapped
            && CheckedLength(length) == if length <= 1500 then length else if swapped <= 1500 then swapped else 1500
    ensures Field(packet, 0) >= 6 ==> CheckedLength(Field(packet, 0)) > 0
  {
  }

  /** The packet must be readable up to the length that is checked and hold a NUL after its header. Returns 0 exactly
      for a packet of at most 1500 bytes whose message ends with its first NUL at its length. Otherwise each flag tells
      one way in which the length or the message is wrong; TEST_CODE_BUG is never set, as the message that ends at the
      length ends with a NUL. */
  method ValidatePacket(packet: array<Byte>) returns (minor: bv16)
    requires packet.Length >= 2
    requires Field(packet[..], 0) >= 6 ==>
               && CheckedLength(Field(packet[..], 0)) <= packet.Length && 6 <= packet.Length
               && FirstFrom(packet[..], 0, 6) < packet.Length
    ensures var high: int, low: int := packet[0], packet[1];
            minor == 0x8000 <==> 256 * high + low < 6
    ensures var high: int, low: int := packet[0], packet[1];
            var length := 256 * high + low;
            minor == 0 <==> 6 <= length <= 1500 && packet.Length >= 6 && EndsAt(packet[..], 6, length - 1)
    ensures minor & 0x0800 == 0
    ensures minor != 0x8000 ==>
              && packet.Length >= 6
              && var high: int, low: int := packet[0], packet[1];
                 var length, swapped := 256 * high + low, 256 * low + high;
                 var checked := if length <= 1500 then length else if swapped <= 1500 then swapped else 1500;
                 var end := FirstFrom(packet[..], 0, 6);
                 && 0 < checked <= packet.Length
                 && minor & 0x8000 == 0
                 && (minor & 0x0002 != 0 <==> length > 1500 && swapped > 1500)
                 && (minor & 0x0001 != 0 <==> length > 1500 && swapped <= 1500)
                 && (minor & 0x0004 != 0 <==> packet[checked - 1] != 0 && end - 6 <= checked <= end)
                 && (minor & 0x0008 != 0 <==> packet[checked - 1] != 0 && checked > end + 1)
                 && (minor & 0x0010 != 0 <==> packet[checked - 1] != 0 && checked < end - 6)
                 && (minor & 0x0020 != 0 <==> packet[checked - 1] == 0 && checked != end + 1)
  {
    FirstTwoBytes(packet[..]);
    hide Field, Swapped, CheckedLength, EndsAt;
    minor := 0;
    var length := Field(packet[..], 0);
    if length < 6 {
      return INCOMPLETE_PACKET;
    }
    EndsAtFirst(packet[..], 6, length - 1);
    if length > MAX_PACKET {
      if Swapped(length) > MAX_PACKET {
        length := MAX_PACKET;
        minor := minor | BAD_LENGTH;
      } else {
        length := Swapped(length);
        minor := minor | LEN_SWAP;
      }
    }
    var slen := StringLength(packet[..], HEADER_SIZE);
    if packet[length - 1] != 0 {
      if slen + 7 == length {
        minor := minor | TEST_CODE_BUG;
      } else if length >= slen && length < slen + 7 {
        minor := minor | MINOR_LENGTH_BUG;
      } else if length > slen {
        minor := minor | LENGTH_BUG;
      } else {
        minor := minor | STRING_TERM_BUG;
      }
    } else if length != slen + 7 {
      minor := minor | SHORT_STRING_BUG;
    }
  }

  /** From a line of the message file to the packet and its check, as node 1 does it (lines 341-359). Any line with a
      space and a newline after it gives a packet that carries the line's own destination and message; the check
      finds nothing wrong exactly when the packet has at most 1500 bytes. The buffer must hold the message. */
  method PreparePacket(line: seq<Byte>, source: int) returns (ok: bool, packet: array<Byte>, check: bv16)
    requires HasNo(line, 0) && 0 <= source < 65536
    requires HasMessage(line) ==> |MessageOf(line)| + 7 < 65536
    ensures ok <==> HasMessage(line)
    ensures ok ==> IsPacket(packet[..], DestinationOf(line), source, MessageOf(line))
    ensures ok ==> forall digits, text | line == LineFor(digits, text) && IsNumeral(digits) && HasNo(text, NEWLINE) ::
              IsPacket(packet[..], DecimalValue(digits) % 65536, source, text)
    ensures ok ==> forall i, j | AreFirst(line, i, j) && IsNumeral(line[..i]) ::
              IsPacket(packet[..], DecimalValue(line[..i]) % 65536, source, line[i + 1..j])
    ensures ok ==> (check == 0 <==> packet.Length <= 1500)
  {
    hide HasMessage, MessageOf, DestinationOf, LineFor, DecimalValue;
    packet, check := new Byte[0], 0;
    var length, destination, msg;
    ok, length, destination, msg := ExtractLengthDestinationAndMessage(line);
    if !ok {
      return;
    }
    MessageHasNo(line, 0);
    packet := CreatePacket(length, destination, source, msg);
    PacketString(packet[..], destination, source, msg);
    check := ValidatePacket(packet);
    forall digits, text | line == LineFor(digits, text) && IsNumeral(digits) && HasNo(text, NEWLINE)
      ensures IsPacket(packet[..], DecimalValue(digits) % 65536, source, text)
    {
      LineIsTakenApart(digits, text);
    }
    forall i, j | AreFirst(line, i, j) && IsNumeral(line[..i])
      ensures IsPacket(packet[..], DecimalValue(line[..i]) % 65536, source, line[i + 1..j])
    {
      FirstOnes(line, i, j);
    }
  }

  lemma MessageHasNo(line: seq<Byte>, b: Byte)
    requires HasMessage(line) && HasNo(line, b)
    ensures HasNo(MessageOf(line), b)
  {
  }

  lemma PacketString(packet: seq<Byte>, destination: int, source: int, msg: seq<Byte>)
    requires IsPacket(packet, destination, source, msg) && HasNo(msg, 0)
    ensures FirstFrom(packet, 0, 6) == |packet| - 1 && EndsAt(packet, 6, |packet| - 1) && Field(packet, 0) == |packet|
  {
    forall j | HEADER_SIZE <= j < |packet| ensures packet[j] == (msg + [0])[j - HEADER_SIZE] {
      assert packet[j] == packet[HEADER_SIZE..][j - HEADER_SIZE];
    }
    FirstFromIs(packet, 0, HEADER_SIZE, |packet| - 1);
  }
}
