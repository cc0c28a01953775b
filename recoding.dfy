/**
 * Integer facts behind the exponent recodings of FP48: powers of two, the
 * bits and bit length of a BIG (`bit`, `nbits`, `parity`, `or`), and the
 * signed-digit recoding of `pow16`, where each group's leading exponent
 * becomes a string of signs in {-1, 1} and the other three exponents become
 * digits in {0, s[i]} that reconstruct them exactly.
 */
module Recoding {

  function Pow2(n: nat): (r: nat)
    ensures r >= 1
  {
    if n == 0 then 1 else 2 * Pow2(n - 1)
  }

  lemma {:induction false} Pow2Add(a: nat, b: nat)
    ensures Pow2(a + b) == Pow2(a) * Pow2(b)
  {
    if a != 0 {
      Pow2Add(a - 1, b);
      assert Pow2(a + b) == 2 * Pow2(a - 1 + b);
    }
  }

  lemma {:induction false} Pow2Monotone(a: nat, b: nat)
    requires a <= b
    ensures Pow2(a) <= Pow2(b)
  {
    if a < b {
      Pow2Monotone(a, b - 1);
    }
  }

  /** Euclidean division is unique: the quotient and remainder are determined. */
  lemma DivUnique(n: int, d: int, q: int, r: int)
    requires d > 0 && 0 <= r < d && n == d * q + r
    ensures n / d == q && n % d == r
  {
    var q', r' := n / d, n % d;
    assert d * (q' - q) == r - r';
    assert -d < r - r' < d;
    assert q' - q >= 1 ==> d * (q' - q) >= d;
    assert q' - q <= -1 ==> d * (q' - q) <= -d;
  }

  /** Dividing by a, then by b, is dividing by a * b. */
  lemma DivDiv(n: nat, a: nat, b: nat)
    requires a > 0 && b > 0
    ensures n / (a * b) == (n / a) / b
  {
    var q, r1 := n / a, n % a;
    var q2, r2 := q / b, q % b;
    Regroup(n, a, b, q, r1, q2, r2);
    DivUnique(n, a * b, q2, a * r2 + r1);
  }

  /** n = a q + r1 with q = b q2 + r2 is n = (a b) q2 + (a r2 + r1), the remainder below a b. */
  lemma Regroup(n: int, a: nat, b: nat, q: int, r1: nat, q2: int, r2: nat)
    requires a > 0 && r2 < b && r1 < a
    requires n == a * q + r1 && q == b * q2 + r2
    ensures n == (a * b) * q2 + (a * r2 + r1)
    ensures a * r2 + r1 < a * b
  {
    MulDistrib(a, b * q2, r2);
    MulAssoc(a, b, q2);
    MulDistrib(a, b - 1, 1);
    MulMonotone(a, r2, b - 1);
  }

  lemma MulDistrib(a: int, x: int, y: int)
    ensures a * (x + y) == a * x + a * y
  {
  }

  lemma MulAssoc(a: int, b: int, c: int)
    ensures a * (b * c) == (a * b) * c
  {
  }

  lemma MulMonotone(a: nat, x: int, y: int)
    requires x <= y
    ensures a * x <= a * y
  {
  }

  /** One more shift right by a single bit. */
  lemma ShiftStep(n: nat, i: nat)
    ensures n / Pow2(i + 1) == (n / Pow2(i)) / 2
  {
    assert Pow2(i + 1) == Pow2(i) * 2;
    DivDiv(n, Pow2(i), 2);
  }

  /** BIG.bit(i): bit i of n. */
  function Bit(n: nat, i: nat): (r: nat)
    ensures r <= 1
  {
    (n / Pow2(i)) % 2
  }

  /** The top bits of n down to position i: two copies of those down to i + 1, plus bit i. */
  lemma FloorStep(n: nat, i: nat)
    ensures n / Pow2(i) == 2 * (n / Pow2(i + 1)) + Bit(n, i)
  {
    ShiftStep(n, i);
  }

  /** Shifting by one more bit reads the next bit. */
  lemma BitOfHalf(n: nat, i: nat)
    ensures Bit(n / 2, i) == Bit(n, i + 1)
  {
    assert Pow2(i + 1) == 2 * Pow2(i);
    DivDiv(n, 2, Pow2(i));
  }

  /** BIG.nbits: the number of significant bits, 0 for 0. */
  function NBits(n: nat): nat
  {
    if n == 0 then 0 else 1 + NBits(n / 2)
  }

  /** n occupies exactly NBits(n) bits. */
  lemma {:induction false} NBitsBounds(n: nat)
    ensures n < Pow2(NBits(n))
    ensures n >= 1 ==> Pow2(NBits(n) - 1) <= n
  {
    if n > 0 {
      NBitsBounds(n / 2);
    }
  }

  /** A value below 2^b has at most b bits. */
  lemma {:induction false} NBitsAtMost(n: nat, b: nat)
    requires n < Pow2(b)
    ensures NBits(n) <= b
  {
    if n > 0 {
      assert b > 0;
      NBitsAtMost(n / 2, b - 1);
    }
  }

  /** A value of at least 2^b has more than b bits. */
  lemma {:induction false} NBitsAbove(n: nat, b: nat)
    requires Pow2(b) <= n
    ensures NBits(n) > b
  {
    if b > 0 {
      assert Pow2(b) == 2 * Pow2(b - 1);
      NBitsAbove(n / 2, b - 1);
    }
  }

  /** BIG.or: the bitwise or of two non-negative values. */
  function Or(a: nat, b: nat): (r: nat)
    ensures a <= r && b <= r
    decreases a + b
  {
    if a == 0 then b
    else if b == 0 then a
    else (if a % 2 == 1 || b % 2 == 1 then 1 else 0) + 2 * Or(a / 2, b / 2)
  }

  /** The or of two values below 2^n is below 2^n. */
  lemma {:induction false} OrBelow(a: nat, b: nat, n: nat)
    requires a < Pow2(n) && b < Pow2(n)
    ensures Or(a, b) < Pow2(n)
    decreases a + b
  {
    if a != 0 && b != 0 {
      assert n > 0;
      OrBelow(a / 2, b / 2, n - 1);
    }
  }

  /** The value of a little-endian digit string: sum of d[i] * 2^i. */
  function Val(d: seq<int>): int
  {
    if |d| == 0 then 0 else d[0] + 2 * Val(d[1..])
  }

  /** Reading the string from position i: digit i, then twice the rest (Horner's rule). */
  lemma ValFrom(d: seq<int>, i: nat)
    requires i < |d|
    ensures Val(d[i..]) == d[i] + 2 * Val(d[i + 1..])
  {
    assert d[i..][1..] == d[i + 1..];
  }

  predicate IsSign(x: int)
  {
    x == 1 || x == -1
  }

  /**
   * The sign pivot of `pow16` for an n-position recoding of t: position i < n - 1
   * holds 2 * bit(i + 1) - 1 and the top position holds 1.
   */
  function Signs(t: nat, n: nat): (s: seq<int>)
    requires n >= 1
    ensures |s| == n && s[n - 1] == 1
    ensures forall i :: 0 <= i < n ==> IsSign(s[i])
  {
    if n == 1 then [1] else [2 * ((t / 2) % 2) - 1] + Signs(t / 2, n - 1)
  }

  /** The signs spell out t, made odd: an odd t below 2^n is reconstructed exactly. */
  lemma {:induction false} SignsVal(t: nat, n: nat)
    requires n >= 1 && t < Pow2(n)
    ensures Val(Signs(t, n)) == t - t % 2 + 1
  {
    if n > 1 {
      SignsVal(t / 2, n - 1);
      assert Signs(t, n)[1..] == Signs(t / 2, n - 1);
    }
  }

  /** Position i of the signs, as the source's shifting loop computes it. */
  lemma {:induction false} SignsAt(t: nat, n: nat, i: nat)
    requires n >= 1 && i < n - 1
    ensures Signs(t, n)[i] == 2 * Bit(t, i + 1) - 1
  {
    if i == 0 {
      assert Pow2(1) == 2;
    } else {
      SignsAt(t / 2, n - 1, i - 1);
      BitOfHalf(t, i);
    }
  }

  /** The digit of `pow16` for residual t and sign sg: s * parity(t). */
  function Digit(t: nat, sg: int): (d: int)
    requires IsSign(sg)
    ensures d == 0 || d == sg
    ensures t % 2 == 1 <==> d != 0
  {
    if t % 2 == 1 then sg else 0
  }

  /**
   * The residual after one digit: t.fshr(1) then t.dec(bt >> 1), where
   * bt >> 1 is -1 for bt = -1 and 0 for bt in {0, 1} (Java's `>>` rounds
   * toward minus infinity).
   */
  function Next(t: nat, sg: int): (r: nat)
    requires IsSign(sg)
    ensures t == 2 * r + Digit(t, sg)
  {
    if Digit(t, sg) == -1 then t / 2 + 1 else t / 2
  }

  predicate AllSigns(s: seq<int>)
  {
    forall i :: 0 <= i < |s| ==> IsSign(s[i])
  }

  /** The digit string of t under the signs s, most significant digit last. */
  function Digits(t: nat, s: seq<int>): (d: seq<int>)
    requires AllSigns(s)
    ensures |d| == |s|
  {
    if |s| == 0 then [] else [Digit(t, s[0])] + Digits(Next(t, s[0]), s[1..])
  }

  /** The residual before position i, as the source's loop keeps it in t[j]. */
  function Residual(t: nat, s: seq<int>, i: nat): nat
    requires AllSigns(s) && i <= |s|
  {
    if i == 0 then t else Next(Residual(t, s, i - 1), s[i - 1])
  }

  /** Digits reconstruct t when the top sign is 1 and t is at most 2^(|s| - 1). */
  lemma {:induction false} DigitsVal(t: nat, s: seq<int>)
    requires AllSigns(s) && |s| >= 1 && s[|s| - 1] == 1
    requires t <= Pow2(|s| - 1)
    ensures Val(Digits(t, s)) == t
  {
    if |s| == 1 {
      assert t <= 1;
    } else {
      var r := Next(t, s[0]);
      assert Pow2(|s| - 1) == 2 * Pow2(|s| - 2);
      assert r <= Pow2(|s| - 2);
      DigitsVal(r, s[1..]);
      assert Digits(t, s)[1..] == Digits(r, s[1..]);
    }
  }

  /** Residuals of the tail are residuals of the whole, one position on. */
  lemma {:induction false} ResidualTail(t: nat, s: seq<int>, i: nat)
    requires AllSigns(s) && 1 <= |s| && i < |s|
    ensures Residual(Next(t, s[0]), s[1..], i) == Residual(t, s, i + 1)
  {
    if i > 0 {
      ResidualTail(t, s, i - 1);
    }
  }

  /** Digit i of the string is the digit of the residual before position i. */
  lemma {:induction false} DigitsAt(t: nat, s: seq<int>, i: nat)
    requires AllSigns(s) && i < |s|
    ensures Digits(t, s)[i] == Digit(Residual(t, s, i), s[i])
  {
    if i > 0 {
      DigitsAt(Next(t, s[0]), s[1..], i - 1);
      ResidualTail(t, s, i - 1);
    }
  }
}
