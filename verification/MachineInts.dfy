/** The fixed-width integer conversions the program relies on. */
module MachineInts {

  const TWO31: int := 0x8000_0000
  const TWO64: int := 0x1_0000_0000_0000_0000

  type byte = x: int | 0 <= x < 256

  /** Conversion to uint64_t, and the wrap-around of uint64_t arithmetic. */
  function U64(x: int): nat {
    x % TWO64
  }

  /** Two's complement narrowing to a 32-bit int. */
  function Wrap32(x: int): (r: int)
    ensures -TWO31 <= r < TWO31
    ensures -TWO31 <= x < TWO31 ==> r == x
  {
    (x + TWO31) % (2 * TWO31) - TWO31
  }

  /** The remainder of C++, which takes the sign of the dividend. */
  function TruncRem(a: int, b: int): (r: int)
    requires b > 0
    ensures -b < r < b
  {
    if a >= 0 then a % b else -((-a) % b)
  }
}
