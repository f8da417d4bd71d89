/** Integer facts shared by the lattice modules. */
module Arith {

  /** Multiplying by a non-negative factor keeps the order. */
  lemma MulMonotone(a: int, b: int, c: int)
    requires 0 <= a <= b && c >= 0
    ensures a * c <= b * c
  {
  }
}
