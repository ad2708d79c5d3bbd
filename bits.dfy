/**
 * Fixed-width machine arithmetic. Dafny integers are unbounded; the kernel's
 * `unsigned int`, `int` and `uint64_t` arithmetic is written out here.
 */
module Bits {
  const TWO_31: nat := 0x8000_0000
  const TWO_32: nat := 0x1_0000_0000
  const TWO_64: nat := 0x1_0000_0000_0000_0000

  /** `unsigned int` result of an arithmetic expression: reduction modulo 2^32. */
  function Wrap32(x: int): (r: nat)
    ensures r < TWO_32
  {
    x % TWO_32
  }

  /** The `(int)` cast of a 32-bit pattern: two's-complement reinterpretation. */
  function ToInt32(x: nat): (r: int)
    requires x < TWO_32
    ensures -(TWO_31 as int) <= r < TWO_31
    ensures Wrap32(r) == x
    ensures 0 <= r <==> x < TWO_31
  {
    if x < TWO_31 then x else x - TWO_32
  }

  /** The `(int)` cast of a 64-bit value: keep the low 32 bits, then reinterpret. */
  function Truncate64To32(x: nat): (r: int)
    ensures -(TWO_31 as int) <= r < TWO_31
    ensures x < TWO_31 ==> r == x
  {
    ToInt32(Wrap32(x))
  }
}
