/**
 * The parameters of the BIG integer type that FP48 relies on. BIG itself
 * is not part of this model; its two widths are left open (any positive
 * value), so every result holds for each curve's choice of them.
 */
module Big {

  type Width = n: nat | n >= 1 witness 1

  /** BIG.NLEN * BIG.BASEBITS: the bits a normalised BIG holds, and the length - 1 of pow16's digit arrays. */
  const NBITS: Width

  /** BIG.MODBYTES: the bytes of one serialised base-field coefficient. */
  const MODBYTES: Width

  /** A Java byte. */
  newtype int8 = x: int | -128 <= x < 128

  /** A serialised byte; the bit pattern of a Java byte. */
  newtype byte = x: int | 0 <= x < 256
}
