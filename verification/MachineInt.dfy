/** Signed 64-bit integers and their wrap-around. */
module MachineInt {

  const MAX_INT64 := 0x7FFF_FFFF_FFFF_FFFF
  const TWO_64 := 0x1_0000_0000_0000_0000

  type Int64 = n: int | -MAX_INT64 - 1 <= n <= MAX_INT64

  /** What is left of a number that is stored in an int64. */
  function Wrap(n: int): Int64 { (n + MAX_INT64 + 1) % TWO_64 - (MAX_INT64 + 1) }

  lemma WrapIsExact(n: Int64)
    ensures Wrap(n) == n
  {
  }

  /** Up to 2^64 too much wraps around once. */
  lemma WrapsOnce(n: int)
    requires -MAX_INT64 - 1 <= n - TWO_64 <= MAX_INT64
    ensures Wrap(n) == n - TWO_64
  {
    assert (n + MAX_INT64 + 1) % TWO_64 == n - TWO_64 + MAX_INT64 + 1;
  }
}
