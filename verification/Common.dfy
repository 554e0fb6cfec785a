/** Options, the numbers of a 32-bit machine, and a fact about multiples. */
module Common {
  datatype Option<+T> = None | Some(value: T)

  const TWO31 := 0x8000_0000
  const TWO32 := 0x1_0000_0000

  type U32 = n: int | 0 <= n < 0x1_0000_0000

  /** The only multiple of d closer to zero than d is zero itself. */
  lemma SmallMultiple(d: int, k: int, e: int)
    requires d > 0 && d * k == e && -d < e < d
    ensures k == 0
  {
  }
}
