/** The C type `int`: 32 bits, and overflow is undefined, so every sum must be shown to fit. The type
    `unsigned short`: 16 bits, and a larger number is cut to them. */
module CInt {

  const INT_MAX := 0x7fff_ffff
  const INT_MIN := -0x8000_0000

  function AddInt(a: int, b: int): int
    requires INT_MIN <= a + b <= INT_MAX
  {
    a + b
  }

  const USHRT_MAX := 0xffff

  function ToUnsignedShort(x: int): (r: int)
    ensures 0 <= r <= USHRT_MAX
    ensures r == x <==> 0 <= x <= USHRT_MAX
  {
    x % (USHRT_MAX + 1)
  }
}
