/** Bytes and sequences of them. */
module Bytes {

  type Byte = x: int | 0 <= x < 256

  const NEWLINE: Byte := 10
  const SPACE: Byte := 32

  /** The first position from i on that holds x, or the length. */
  function FirstFrom(ns: seq<int>, x: int, i: nat): (k: nat)
    requires i <= |ns|
    ensures i <= k <= |ns|
    ensures k < |ns| ==> ns[k] == x
    ensures forall j | i <= j < k :: ns[j] != x
    decreases |ns| - i
  {
    if i == |ns| || ns[i] == x then i else FirstFrom(ns, x, i + 1)
  }

  lemma {:induction false} FirstFromIs(s: seq<int>, x: int, i: nat, k: nat)
    requires i <= k < |s| && s[k] == x && forall j | i <= j < k :: s[j] != x
    ensures FirstFrom(s, x, i) == k
    decreases k - i
  {
    if i < k {
      FirstFromIs(s, x, i + 1, k);
    }
  }
}
