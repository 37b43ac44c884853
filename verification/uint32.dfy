/** The C `unsigned int` counters of the converter: 32 bits wide, wrapping on overflow. */
module UInt32 {

  /** 2^32, the number of distinct `unsigned int` values. */
  const LIMIT: nat := 0x1_0000_0000

  type u32 = n: nat | n < LIMIT

  /** `n++` on an `unsigned int`: one more, except that the largest value wraps to 0. */
  function Inc(n: u32): (r: u32)
    ensures n < LIMIT - 1 ==> r == n + 1
    ensures n == LIMIT - 1 ==> r == 0
  {
    if n == LIMIT - 1 then 0 else n + 1
  }
}
