/** The flag byte of a router: the bits set_flag changes and print reads (obligatory_assignment/src/router.c). */
module Flags {
  import opened Bytes

  type Bit = x: int | 0 <= x <= 1

  /** The lowest k bits of n, least significant first. */
  function Bits(n: nat, k: nat): (b: seq<Bit>)
    ensures |b| == k
  {
    if k == 0 then [] else [n % 2] + Bits(n / 2, k - 1)
  }

  function FromBits(b: seq<Bit>): nat {
    if b == [] then 0 else b[0] + 2 * FromBits(b[1..])
  }

  /** b << k */
  function Shifted(b: seq<Bit>, k: nat): seq<Bit> {
    seq(k, _ => 0) + b
  }

  function Pow2(k: nat): (p: nat)
    ensures p > 0
  {
    if k == 0 then 1 else 2 * Pow2(k - 1)
  }

  lemma {:induction false} BitsRoundTrip(b: seq<Bit>)
    ensures Bits(FromBits(b), |b|) == b && FromBits(b) < Pow2(|b|)
  {
    if b != [] {
      BitsRoundTrip(b[1..]);
      assert [b[0]] + b[1..] == b;
    }
  }

  lemma {:induction false} FromBitsRoundTrip(n: nat, k: nat)
    requires n < Pow2(k)
    ensures FromBits(Bits(n, k)) == n
  {
    if k > 0 {
      FromBitsRoundTrip(n / 2, k - 1);
      assert Bits(n, k)[1..] == Bits(n / 2, k - 1);
    }
  }

  lemma {:induction false} FromBitsOfBoth(b: seq<Bit>, c: seq<Bit>)
    ensures FromBits(b + c) == FromBits(b) + Pow2(|b|) * FromBits(c)
  {
    if b == [] {
      assert b + c == c;
    } else {
      FromBitsOfBoth(b[1..], c);
      assert (b + c)[1..] == b[1..] + c;
      MulTwo(Pow2(|b| - 1), FromBits(c));
    }
  }

  lemma MulTwo(p: nat, x: nat)
    ensures 2 * (p * x) == (2 * p) * x
  {
  }

  /** A byte has eight bits. */
  lemma PowersOfTwo()
    ensures Pow2(4) == 16 && Pow2(8) == 256
  {
    assert Pow2(2) == 4;
    assert Pow2(6) == 64;
  }

  /** The byte with these bits. */
  function ByteOf(b: seq<Bit>): Byte
    requires |b| == 8
  {
    BitsRoundTrip(b);
    PowersOfTwo();
    FromBits(b)
  }

  function Reversed(b: seq<Bit>): (r: seq<Bit>)
    ensures |r| == |b| && forall i | 0 <= i < |b| :: r[i] == b[|b| - 1 - i]
  {
    seq(|b|, i requires 0 <= i < |b| => b[|b| - 1 - i])
  }

  // ----- set_flag -----

  /** What set_flag accepts: bit 0, 1 or 2 with a value of 0 or 1, or 4 with a number of four bits. */
  predicate IsFlagValue(which: int, value: int) {
    && 0 <= which <= 4 && which != 3
    && 0 <= value <= if which < 3 then 1 else 15
  }

  /** The bits of the flag byte n after set_flag: one bit is set or cleared, or the upper four hold the value with its
      most significant bit first. */
  function FlagBits(n: Byte, which: int, value: int): (b: seq<Bit>)
    requires IsFlagValue(which, value)
    ensures |b| == 8
  {
    if which < 3 then Bits(n, 8)[which := value] else Bits(n, 8)[..4] + Reversed(Bits(value, 4))
  }

  function WithFlag(n: Byte, which: int, value: int): Byte
    requires IsFlagValue(which, value)
  {
    ByteOf(FlagBits(n, which, value))
  }

  /** print reads bits 4 to 7 in this order, most significant first (router.c:26-38). */
  function ModificationNumber(n: Byte): nat {
    FromBits(Reversed(Bits(n, 8)[4..]))
  }

  /** Setting one of the first three bits changes that bit only. */
  lemma SetBitIsRead(n: Byte, which: int, value: int)
    requires IsFlagValue(which, value) && which < 3
    ensures Bits(WithFlag(n, which, value), 8) == Bits(n, 8)[which := value]
  {
    BitsRoundTrip(FlagBits(n, which, value));
  }

  /** The modification number is read back as it was set, and the first four bits stay. */
  lemma SetModificationNumberIsRead(n: Byte, value: int)
    requires IsFlagValue(4, value)
    ensures ModificationNumber(WithFlag(n, 4, value)) == value
    ensures Bits(WithFlag(n, 4, value), 8)[..4] == Bits(n, 8)[..4]
  {
    var b, v := FlagBits(n, 4, value), Bits(value, 4);
    BitsRoundTrip(b);
    assert b[4..] == Reversed(v);
    assert Reversed(Reversed(v)) == v;
    PowersOfTwo();
    FromBitsRoundTrip(value, 4);
  }

  lemma FourBits(n: nat)
    ensures Bits(n, 4) == [n % 2, n / 2 % 2, n / 4 % 2, n / 8 % 2]
  {
    assert Bits(n / 4, 2) == [n / 4 % 2] + Bits(n / 8, 1) && Bits(n / 8, 1) == [n / 8 % 2] + Bits(n / 16, 0);
    assert Bits(n / 2, 3) == [n / 2 % 2] + Bits(n / 4, 2);
  }

  lemma OneBit(n: nat, half: nat, k: nat)
    requires half == n / 2
    ensures Bits(n, k + 1) == [n % 2] + Bits(half, k)
  {
  }

  lemma FourInFront(a: Bit, b: Bit, c: Bit, d: Bit, rest: seq<Bit>)
    ensures [a] + ([b] + ([c] + ([d] + rest))) == [a, b, c, d] + rest
  {
  }

  lemma TwoHalves(n: Byte)
    ensures Bits(n, 8) == Bits(n, 4) + Bits(n / 16, 4)
  {
    hide Bits;
    OneBit(n, n / 2, 7);
    OneBit(n / 2, n / 4, 6);
    OneBit(n / 4, n / 8, 5);
    OneBit(n / 8, n / 16, 4);
    FourBits(n);
    FourInFront(n % 2, n / 2 % 2, n / 4 % 2, n / 8 % 2, Bits(n / 16, 4));
  }

  /** The numbers behind the bits. */
  lemma EightBits(n: Byte)
    ensures Bits(n, 8) == [n % 2, n / 2 % 2, n / 4 % 2, n / 8 % 2, n / 16 % 2, n / 32 % 2, n / 64 % 2, n / 128 % 2]
  {
    hide Bits;
    TwoHalves(n);
    FourBits(n);
    FourBits(n / 16);
    assert n / 16 / 2 == n / 32 && n / 16 / 4 == n / 64 && n / 16 / 8 == n / 128;
  }

  lemma FromEightBits(b: seq<Bit>)
    requires |b| == 8
    ensures var c: seq<int> := b;
            FromBits(b) == c[0] + 2 * c[1] + 4 * c[2] + 8 * c[3] + 16 * c[4] + 32 * c[5] + 64 * c[6] + 128 * c[7]
  {
    FromFourBits(b[..4]);
    FromFourBits(b[4..]);
    FromBitsOfBoth(b[..4], b[4..]);
    PowersOfTwo();
    assert b[..4] + b[4..] == b;
  }

  lemma FromFourBits(b: seq<Bit>)
    requires |b| == 4
    ensures var c: seq<int> := b; FromBits(b) == c[0] + 2 * c[1] + 4 * c[2] + 8 * c[3]
  {
    var c: seq<int> := b;
    assert b[1..][1..] == b[2..] && b[2..][1..] == b[3..] && b[3..][1..] == [];
    assert FromBits(b[3..]) == c[3] + 2 * FromBits([]);
    assert FromBits(b[2..]) == c[2] + 2 * FromBits(b[3..]);
    assert FromBits(b[1..]) == c[1] + 2 * FromBits(b[2..]);
  }

  lemma ZerosAbove(low: seq<Bit>)
    ensures FromBits(low + [0, 0, 0, 0]) == FromBits(low)
  {
    FromBitsOfBoth(low, [0, 0, 0, 0]);
    FromFourBits([0, 0, 0, 0]);
    hide FromBits;
  }

  lemma ZerosBelow(up: seq<Bit>)
    ensures FromBits(Shifted(up, 4)) == 16 * FromBits(up)
  {
    var zeros: seq<Bit> := [0, 0, 0, 0];
    assert Shifted(up, 4) == zeros + up;
    FromBitsOfBoth(zeros, up);
    FromFourBits(zeros);
    PowersOfTwo();
    hide FromBits;
  }

  /** Masking with 0x0F and adding the reversed value, moved up four bits, gives these bits. */
  lemma MaskAndAdd(n: Byte, value: int)
    requires IsFlagValue(4, value)
    ensures FromBits(Bits(n, 8)[..4] + [0, 0, 0, 0]) + FromBits(Shifted(Reversed(Bits(value, 4)), 4)) ==
              WithFlag(n, 4, value)
  {
    hide Bits, FromBits, Shifted, Reversed;
    var low, up := Bits(n, 8)[..4], Reversed(Bits(value, 4));
    ZerosAbove(low);
    ZerosBelow(up);
    FromBitsOfBoth(low, up);
    PowersOfTwo();
  }

  lemma OneBitChanged(b: seq<Bit>, i: int, v: Bit)
    requires |b| == 8 && 0 <= i < 3
    ensures var old_: int, new_: int, w := b[i], v, [1, 2, 4][i];
            FromBits(b[i := v]) == FromBits(b) - w * old_ + w * new_
  {
    hide FromBits;
    FromEightBits(b);
    FromEightBits(b[i := v]);
  }

  /** The flag byte after set_flag, by arithmetic alone. */
  lemma FlagArithmetic(n: Byte, which: int, value: int)
    requires IsFlagValue(which, value)
    ensures which == 0 ==> WithFlag(n, 0, value) == n - n % 2 + value
    ensures which == 1 ==> WithFlag(n, 1, value) == n - 2 * (n / 2 % 2) + 2 * value
    ensures which == 2 ==> WithFlag(n, 2, value) == n - 4 * (n / 4 % 2) + 4 * value
    ensures which == 4 ==>
              WithFlag(n, 4, value)
              == n % 16 + 128 * (value % 2) + 64 * (value / 2 % 2) + 32 * (value / 4 % 2) + 16 * (value / 8)
  {
    hide Bits, FromBits;
    if which == 4 {
      UpperFourArithmetic(n, value);
    } else {
      FromBitsOfByte(n);
      EightBits(n);
      OneBitChanged(Bits(n, 8), which, value);
    }
  }

  lemma UpperFourArithmetic(n: Byte, value: int)
    requires IsFlagValue(4, value)
    ensures WithFlag(n, 4, value)
            == n % 16 + 128 * (value % 2) + 64 * (value / 2 % 2) + 32 * (value / 4 % 2) + 16 * (value / 8)
  {
    hide Bits, FromBits;
    var b := FlagBits(n, 4, value);
    FromEightBits(b);
    TwoHalves(n);
    FourBits(n);
    FourBits(value);
    LowFourBits(n);
    assert value / 8 % 2 == value / 8;
    assert b[..4] == Bits(n, 4) && b[4..] == Reversed(Bits(value, 4));
  }

  lemma FromBitsOfByte(n: Byte)
    ensures FromBits(Bits(n, 8)) == n
  {
    PowersOfTwo();
    FromBitsRoundTrip(n, 8);
  }

  lemma LowFourBits(n: Byte)
    ensures n % 16 == n % 2 + 2 * (n / 2 % 2) + 4 * (n / 4 % 2) + 8 * (n / 8 % 2)
  {
    assert n == 16 * (n / 16) + n % 16;
    assert n == 2 * (n / 2) + n % 2 && n / 2 == 2 * (n / 4) + n / 2 % 2;
    assert n / 4 == 2 * (n / 8) + n / 4 % 2 && n / 8 == 2 * (n / 16) + n / 8 % 2;
  }

  lemma ModificationNumberIs(n: Byte)
    ensures ModificationNumber(n) == 8 * (n / 16 % 2) + 4 * (n / 32 % 2) + 2 * (n / 64 % 2) + n / 128
  {
    hide Bits, FromBits;
    EightBits(n);
    FromFourBits(Reversed(Bits(n, 8)[4..]));
  }
}
