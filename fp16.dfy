/**
 * The coefficient field FP16 of the degree-3 extension FP48 = FP16[w]/(w^3 - XI).
 * FP16 arithmetic (its own tower over FP8, FP4, FP2 and Fp) is not part of this
 * model: an FP16 element is modelled as an element of a commutative ring, the
 * integers, and `times_i` as multiplication by the fixed non-residue XI, whose
 * value is left open so that every identity proved holds for any choice of it.
 */
module Fp16 {

  type Fp16 = int

  /** The non-residue that `times_i` multiplies by; w^3 = XI in FP48. */
  const XI: int

  /** FP16.times_i. */
  function TimesI(x: Fp16): Fp16
  {
    XI * x
  }
}
