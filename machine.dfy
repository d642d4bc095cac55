/**
 * The two machine integer types the class meets at its boundary: C++
 * `unsigned int` and `int`, both 32 bits wide, and the implicit conversion
 * from the second to the first.
 */
module MachineInt {

  /** 2^32, the modulus of unsigned int arithmetic. */
  const WORD: int := 0x1_0000_0000

  type UInt32 = x: int | 0 <= x < 0x1_0000_0000

  type Int32 = x: int | -0x8000_0000 <= x < 0x8000_0000

  /** The implicit int -> unsigned int conversion: reduction modulo 2^32, so a
      negative value becomes its two's-complement bit pattern read as unsigned. */
  function Unsigned(x: Int32): (u: UInt32)
    ensures x >= 0 ==> u == x
    ensures x < 0 ==> u == x + WORD
  {
    x % WORD
  }
}
