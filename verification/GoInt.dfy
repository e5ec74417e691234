/** Fixed-width Go integers.  `int` is 64 bits wide and wraps, `uint64` likewise. */
module GoInt {

  const TWO_63: int := 0x8000_0000_0000_0000
  const TWO_64: int := 0x1_0000_0000_0000_0000
  const MAX_INT: int := 0x7FFF_FFFF_FFFF_FFFF

  /** The signed 64-bit value congruent to x. */
  function Wrap(x: int): (r: int)
    ensures -0x8000_0000_0000_0000 <= r <= MAX_INT
    ensures -0x8000_0000_0000_0000 <= x <= MAX_INT <==> r == x
  {
    (x + TWO_63) % TWO_64 - TWO_63
  }

  /** Wrapping early does not change a later wrap: the digits of a hint may be read with wrapping arithmetic. */
  lemma WrapStep(x: int, digit: nat)
    ensures Wrap(Wrap(x) * 10 + digit) == Wrap(x * 10 + digit)
  {}
}
