/**
 * The multiplicative group in which FP48's exponentiation routines run,
 * modelled as a free abelian group: an element is its vector of exponents
 * over a fixed list of base elements. `mul` adds exponent vectors, `usqr`
 * (equal to `sqr` on the unitary elements these routines are used on)
 * doubles them, and `conj` (the inverse of a unitary element) negates them.
 * What the exponentiations compute is then read off as an exponent vector.
 */
module Group {

  type Mono = seq<int>

  /** The identity of a group over n bases: every exponent 0. */
  function One(n: nat): (r: Mono)
    ensures |r| == n
  {
    seq(n, i => 0)
  }

  /** The j-th base of a group over n bases. */
  function Unit(n: nat, j: nat): (r: Mono)
    ensures |r| == n
  {
    seq(n, i => if i == j then 1 else 0)
  }

  /** FP48.mul. */
  function Mul(x: Mono, y: Mono): (r: Mono)
    requires |x| == |y|
    ensures |r| == |x|
  {
    seq(|x|, i requires 0 <= i < |x| => x[i] + y[i])
  }

  /** FP48.usqr on a unitary element. */
  function USqr(x: Mono): (r: Mono)
    ensures |r| == |x|
  {
    Mul(x, x)
  }

  /** FP48.conj on a unitary element. */
  function Conj(x: Mono): (r: Mono)
    ensures |r| == |x|
  {
    seq(|x|, i requires 0 <= i < |x| => -x[i])
  }

  /** x^k. */
  function Scale(k: int, x: Mono): (r: Mono)
    ensures |r| == |x|
  {
    seq(|x|, i requires 0 <= i < |x| => k * x[i])
  }

  lemma ScaleOne(x: Mono)
    ensures Scale(1, x) == x
  {
  }

  lemma ScaleZero(x: Mono)
    ensures Scale(0, x) == One(|x|)
  {
  }

  lemma MulScale(a: int, b: int, x: Mono)
    ensures Mul(Scale(a, x), Scale(b, x)) == Scale(a + b, x)
  {
    forall i | 0 <= i < |x|
      ensures a * x[i] + b * x[i] == (a + b) * x[i]
    {
      assert a * x[i] + b * x[i] == (a + b) * x[i];
    }
  }

  lemma USqrScale(a: int, x: Mono)
    ensures USqr(Scale(a, x)) == Scale(2 * a, x)
  {
    MulScale(a, a, x);
  }

  lemma ConjScale(a: int, x: Mono)
    ensures Conj(Scale(a, x)) == Scale(-a, x)
  {
  }

  lemma MulOne(x: Mono)
    ensures Mul(One(|x|), x) == x
  {
  }
}
