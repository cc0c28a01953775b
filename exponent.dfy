/**
 * `pow` and `pinpow` of FP48, run in the exponent-vector group: `this` is
 * the element x, and the result is proved to be x^e (`pow`) and
 * x^(e mod 2^bts) (`pinpow`).
 */
module Exponent {
  import opened Group
  import opened Recoding

  /**
   * The exponent `pow` has accumulated with bit i still to come: the top bits
   * of 3e minus the top bits of e.
   */
  function Accumulated(e: nat, i: nat): int
  {
    (3 * e) / Pow2(i) - e / Pow2(i)
  }

  /** Each step of `pow` doubles the exponent and adds the digit bit(3e) - bit(e). */
  lemma AccumulatedStep(e: nat, i: nat)
    ensures Accumulated(e, i) == 2 * Accumulated(e, i + 1) + (Bit(3 * e, i) - Bit(e, i))
  {
    FloorStep(3 * e, i);
    FloorStep(e, i);
  }

  /** Before the loop `pow` holds x itself: the top bit of 3e, and no bit of e. */
  lemma AccumulatedTop(e: nat)
    requires e >= 1
    ensures NBits(3 * e) >= 2
    ensures Accumulated(e, NBits(3 * e) - 1) == 1
  {
    var p := TopBit(e);
    DivUnique(3 * e, p, 1, 3 * e - p);
    DivUnique(e, p, 0, e);
  }

  /** The top bit of 3e lies above every bit of e. */
  lemma TopBit(e: nat) returns (p: nat)
    requires e >= 1
    ensures NBits(3 * e) >= 2
    ensures p == Pow2(NBits(3 * e) - 1) && p <= 3 * e < 2 * p && e < p
  {
    var nb := NBits(3 * e);
    assert Pow2(1) == 2;
    NBitsAbove(3 * e, 1);
    NBitsBounds(3 * e);
    p := Pow2(nb - 1);
    assert Pow2(nb) == 2 * p;
  }

  /** After the loop, at bit 1, the exponent is e itself: 3e/2 - e/2 = e. */
  lemma AccumulatedEnd(e: nat)
    ensures Accumulated(e, 1) == e
  {
    assert Pow2(1) == 2;
  }

  /**
   * `pow(e)`: left-to-right powering with the signed digits bit_i(3e) - bit_i(e),
   * i = nbits(3e) - 2 down to 1; digit -1 multiplies by the conjugate of `this`,
   * which is conjugated and restored around the multiplication. For e = 0 the
   * loop is empty and the result is x, not the identity.
   */
  method Pow(x: Mono, e: nat) returns (w: Mono)
    ensures e >= 1 ==> w == Scale(e, x)
    ensures e == 0 ==> w == x
  {
    var self := x;
    var e3 := 3 * e;
    w := self;
    var nb := NBits(e3);
    if e >= 1 {
      AccumulatedTop(e);
      ScaleOne(x);
    }
    var i := nb as int - 2;
    while i >= 1
      invariant e == 0 ==> i < 1 && w == x
      invariant e >= 1 ==> 0 <= i <= nb - 2 && w == Scale(Accumulated(e, i + 1), x)
      invariant self == x
    {
      w, self := PowStep(w, self, e, e3, i);
      i := i - 1;
    }
    if e >= 1 {
      assert i == 0;
      AccumulatedEnd(e);
    }
  }

  /**
   * One pass of `pow`'s loop: square, then multiply by x where bit i of 3e
   * is set and e's is not, by the conjugate of x in the opposite case.
   */
  method PowStep(w0: Mono, self0: Mono, e: nat, e3: nat, i: nat) returns (w: Mono, self: Mono)
    requires e3 == 3 * e && w0 == Scale(Accumulated(e, i + 1), self0)
    ensures w == Scale(Accumulated(e, i), self0) && self == self0
  {
    w, self := w0, self0;
    SquareAndMultiply(Accumulated(e, i + 1), self0);
    AccumulatedStep(e, i);
    w := USqr(w);
    var bt := Bit(e3, i) - Bit(e, i);
    if bt == 1 {
      w := Mul(w, self);
    }
    if bt == -1 {
      self := Conj(self);
      w := Mul(w, self);
      self := Conj(self);
    }
  }

  /** Squaring x^k, then multiplying by x or by its conjugate. */
  lemma SquareAndMultiply(k: int, x: Mono)
    ensures USqr(Scale(k, x)) == Scale(2 * k, x)
    ensures Mul(Scale(2 * k, x), x) == Scale(2 * k + 1, x)
    ensures Mul(Scale(2 * k, x), Conj(x)) == Scale(2 * k - 1, x)
    ensures Conj(Conj(x)) == x
  {
    USqrScale(k, x);
    ScaleOne(x);
    MulScale(2 * k, 1, x);
    ConjScale(1, x);
    MulScale(2 * k, -1, x);
  }

  /** x^0 differs from the value `pow(0)` returns whenever x is not the identity. */
  lemma ZeroPowerIsNotInput(x: Mono)
    requires x != One(|x|)
    ensures Scale(0, x) != x
  {
    ScaleZero(x);
  }

  /** `pow` with the zero exponent answered by the identity, as x^0 demands. */
  method PowChecked(x: Mono, e: nat) returns (w: Mono)
    ensures w == Scale(e, x)
  {
    if e == 0 {
      w := One(|x|);
      ScaleZero(x);
    } else {
      w := Pow(x, e);
    }
  }

  /**
   * Bit i of the Java int e as `(e >> i) & 1` reads it: the shift distance is
   * taken mod 32 and the bits are those of the two's complement word.
   */
  function JBit(e: int, i: nat): nat
  {
    Bit(Word(e), i % 32)
  }

  /** The 32-bit two's complement word of e. */
  function Word(e: int): nat
  {
    e % 0x1_0000_0000
  }

  lemma JBitLow(e: int, i: nat)
    requires i < 32
    ensures JBit(e, i) == (Word(e) / Pow2(i)) % 2
  {
    assert i % 32 == i;
  }

  /** The exponent the ladder has built from bits bts - 1 down to n. */
  function LadderExp(e: int, n: nat, bts: int): nat
    decreases bts - n
  {
    if n >= bts then 0 else 2 * LadderExp(e, n + 1, bts) + JBit(e, n)
  }

  /** Java's 32-bit `bts - 1`: for bts = -2^31 it wraps to 2^31 - 1. */
  function Dec32(bts: int): (r: int)
    requires -0x8000_0000 <= bts < 0x8000_0000
    ensures -0x8000_0000 <= r < 0x8000_0000
    ensures (r - (bts - 1)) % 0x1_0000_0000 == 0
  {
    if bts == -0x8000_0000 then 0x7FFF_FFFF else bts - 1
  }

  /**
   * `pinpow(e, bts)`: the Montgomery ladder over R[0], R[1] with
   * R[1] = R[0] * x throughout. The result, copied into `this`, is x raised
   * to the exponent the bits Dec32(bts) .. 0 of e spell.
   */
  method PinPow(x: Mono, e: int, bts: int) returns (r: Mono)
    requires -0x8000_0000 <= e < 0x8000_0000 && -0x8000_0000 <= bts < 0x8000_0000
    ensures r == Scale(if Dec32(bts) < 0 then 0 else LadderExp(e, 0, Dec32(bts) + 1), x)
  {
    var R := new Mono[2];
    R[0] := One(|x|);
    R[1] := x;
    ScaleZero(x);
    ScaleOne(x);
    var i := Dec32(bts);
    ghost var n := i + 1;
    while i >= 0
      invariant n <= 0 ==> i == n - 1 && R[0] == Scale(0, x) && R[1] == Scale(1, x)
      invariant n > 0 ==> -1 <= i < n
      invariant n > 0 ==> R[0] == Scale(LadderExp(e, i + 1, n), x)
      invariant n > 0 ==> R[1] == Scale(LadderExp(e, i + 1, n) + 1, x)
    {
      var b := JBit(e, i);
      assert LadderExp(e, i, n) == 2 * LadderExp(e, i + 1, n) + b;
      Rung(R, b, LadderExp(e, i + 1, n), x);
      i := i - 1;
    }
    r := R[0];
  }

  /**
   * For bts = -2^31 the ladder does not stop at once: its length wraps to 2^31,
   * and for e = 1 the exponent is odd, so pinpow does not return x^0.
   */
  lemma PinPowMinBts(e: int, bts: int)
    requires e == 1 && bts == -0x8000_0000
    ensures Dec32(bts) + 1 == 0x8000_0000
    ensures LadderExp(e, 0, Dec32(bts) + 1) % 2 == 1
  {
    var n := Dec32(bts) + 1;
    assert JBit(e, 0) == 1 by {
      assert Word(e) == 1;
      assert Pow2(0) == 1;
    }
    assert LadderExp(e, 0, n) % 2 == JBit(e, 0) by {
      LadderParity(e, n);
    }
  }

  /** The parity of a nonempty ladder's exponent is the first bit it reads. */
  lemma LadderParity(e: int, n: int)
    requires n > 0
    ensures LadderExp(e, 0, n) % 2 == JBit(e, 0)
  {
    var h := LadderExp(e, 1, n);
    DivUnique(LadderExp(e, 0, n), 2, h, JBit(e, 0));
  }

  /** One rung: R[1-b] = R[1-b] * R[b], then R[b] squared. */
  method Rung(R: array<Mono>, b: nat, ghost k: int, ghost x: Mono)
    requires R.Length == 2 && b <= 1
    requires R[0] == Scale(k, x) && R[1] == Scale(k + 1, x)
    modifies R
    ensures R[0] == Scale(2 * k + b, x) && R[1] == Scale(2 * k + b + 1, x)
  {
    LadderStep(k, x);
    R[1 - b] := Mul(R[1 - b], R[b]);
    R[b] := USqr(R[b]);
  }

  /** One rung of the ladder on x^k and x^(k+1). */
  lemma LadderStep(k: int, x: Mono)
    ensures USqr(Scale(k, x)) == Scale(2 * k, x)
    ensures USqr(Scale(k + 1, x)) == Scale(2 * k + 2, x)
    ensures Mul(Scale(k + 1, x), Scale(k, x)) == Scale(2 * k + 1, x)
    ensures Mul(Scale(k, x), Scale(k + 1, x)) == Scale(2 * k + 1, x)
  {
    USqrScale(k, x);
    USqrScale(k + 1, x);
    MulScale(k + 1, k, x);
    MulScale(k, k + 1, x);
  }

  /** For up to 32 bits the ladder's exponent is e mod 2^bts, also for negative e. */
  lemma LadderIsMod(e: int, bts: nat)
    requires bts <= 32
    ensures LadderExp(e, 0, bts) == e % Pow2(bts)
  {
    var E := Word(e);
    LadderBits(e, 0, bts);
    assert E / Pow2(0) == E;
    Pow2Add(bts, 32 - bts);
    Pow2Is32();
    ModMod(e, Pow2(bts), Pow2(32 - bts));
  }

  lemma Pow2Is32()
    ensures Pow2(32) == 0x1_0000_0000
  {
    assert Pow2(2) == 4;
    Pow2Add(2, 2);
    Pow2Add(4, 4);
    Pow2Add(8, 8);
    Pow2Add(16, 16);
  }

  /** Reducing mod a * b and then mod a is reducing mod a. */
  lemma ModMod(e: int, a: nat, b: nat)
    requires a > 0 && b > 0
    ensures (e % (a * b)) % a == e % a
  {
    var q, r := e / (a * b), e % (a * b);
    var q2, r2 := r / a, r % a;
    assert e == (a * b) * q + r;
    assert r == a * q2 + r2;
    assert e == a * (b * q + q2) + r2;
    DivUnique(e, a, b * q + q2, r2);
  }

  /** The ladder from bit n on reads bits n .. bts - 1 of the word. */
  lemma {:induction false} LadderBits(e: int, n: nat, bts: nat)
    requires n <= bts <= 32
    ensures LadderExp(e, n, bts) == (Word(e) / Pow2(n)) % Pow2(bts - n)
    decreases bts - n
  {
    if n == bts {
      assert Pow2(0) == 1;
    } else {
      LadderBits(e, n + 1, bts);
      LadderBitsStep(e, n, bts);
    }
  }

  /** One more bit read by the ladder: the word shifted by n, reduced mod 2^(bts - n). */
  lemma LadderBitsStep(e: int, n: nat, bts: nat)
    requires n < bts <= 32
    requires LadderExp(e, n + 1, bts) == (Word(e) / Pow2(n + 1)) % Pow2(bts - n - 1)
    ensures LadderExp(e, n, bts) == (Word(e) / Pow2(n)) % Pow2(bts - n)
  {
    var m := bts - n - 1;
    assert bts - n == m + 1;
    var Q := Word(e) / Pow2(n);
    ShiftStep(Word(e), n);
    LadderUnfold(e, n, bts);
    BitsCombine(LadderExp(e, n, bts), LadderExp(e, n + 1, bts), Q, m);
  }

  /** Bit 0 of Q under twice the next m bits is Q mod 2^(m+1). */
  lemma BitsCombine(L: int, low: int, Q: int, m: nat)
    requires L == 2 * low + Q % 2 && low == (Q / 2) % Pow2(m)
    ensures L == Q % Pow2(m + 1)
  {
    ModSplit(Q, m);
  }

  /** The ladder's exponent from bit n: twice the one from bit n + 1, plus bit n of the word. */
  lemma LadderUnfold(e: int, n: nat, bts: nat)
    requires n < bts <= 32
    ensures LadderExp(e, n, bts) == 2 * LadderExp(e, n + 1, bts) + (Word(e) / Pow2(n)) % 2
  {
    JBitLow(e, n);
  }

  /** Q mod 2^(m+1) is its lowest bit plus twice (Q / 2) mod 2^m. */
  lemma ModSplit(Q: int, m: nat)
    ensures Q % Pow2(m + 1) == Q % 2 + 2 * ((Q / 2) % Pow2(m))
  {
    var h, l := Q / 2, Q % 2;
    var a, b := h / Pow2(m), h % Pow2(m);
    assert Pow2(m + 1) == 2 * Pow2(m);
    assert Q == 2 * h + l;
    assert h == Pow2(m) * a + b;
    assert Q == Pow2(m + 1) * a + (2 * b + l);
    DivUnique(Q, Pow2(m + 1), a, 2 * b + l);
  }

  /** The ladder's exponent splits at bit m: bits n .. m - 1 below, bits m .. bts - 1 shifted above. */
  lemma {:induction false} LadderSplit(e: int, n: nat, m: nat, bts: nat)
    requires n <= m <= bts
    ensures LadderExp(e, n, bts) == LadderExp(e, n, m) + Pow2(m - n) * LadderExp(e, m, bts)
    decreases m - n
  {
    if n < m {
      LadderSplit(e, n + 1, m, bts);
      var P, H := Pow2(m - n - 1), LadderExp(e, m, bts);
      assert Pow2(m - n) == 2 * P;
      MulAssoc(2, P, H);
    }
  }

  /** Java's shift distance is taken mod 32, so the ladder's bits repeat with period w = 32. */
  lemma {:induction false} LadderPeriodic(e: int, n': nat, bts': nat, n: nat, bts: nat, w: nat)
    requires w == 32 && n <= bts && n' == n + w && bts' == bts + w
    ensures LadderExp(e, n', bts') == LadderExp(e, n, bts)
    decreases bts - n
  {
    if n < bts {
      LadderPeriodic(e, n' + 1, bts', n + 1, bts, w);
      DivUnique(n', 32, n / 32 + 1, n % 32);
      assert JBit(e, n') == JBit(e, n);
    }
  }

  /**
   * Beyond 32 bits the ladder is not e mod 2^bts: bits 32 .. bts - 1 are read
   * as bits 0 .. bts - 33 again.
   */
  lemma LadderWraps(e: int, bts: nat)
    requires 32 <= bts <= 64
    ensures LadderExp(e, 0, bts) == e % Pow2(32) + Pow2(32) * (e % Pow2(bts - 32))
  {
    LadderWrapsAt(e, 32, bts);
  }

  /** LadderWraps with the word width w = 32 kept symbolic. */
  lemma LadderWrapsAt(e: int, w: nat, bts: nat)
    requires w == 32 && w <= bts <= 2 * w
    ensures LadderExp(e, 0, bts) == e % Pow2(w) + Pow2(w) * (e % Pow2(bts - w))
  {
    var L, H := LadderExp(e, 0, w), LadderExp(e, w, bts);
    assert LadderExp(e, 0, bts) == L + Pow2(w - 0) * H by {
      LadderSplit(e, 0, w, bts);
    }
    assert L == e % Pow2(w) by {
      LadderIsMod(e, w);
    }
    assert H == e % Pow2(bts - w) by {
      LadderPeriodic(e, w, bts, 0, bts - w, w);
      LadderIsMod(e, bts - w);
    }
    Recombine(LadderExp(e, 0, bts), L, Pow2(w - 0), H, e % Pow2(w), e % Pow2(bts - w));
  }

  /** Rewrites both parts of a split value x = low + p * high. */
  lemma Recombine(x: int, low: int, p: int, high: int, low': int, high': int)
    requires x == low + p * high
    requires low == low'
    requires high == high'
    ensures x == low' + p * high'
  {
  }

  /** pinpow(x, 33) with e = 1 raises x to 2^32 + 1, not to 1 mod 2^33 = 1. */
  lemma PinPowWrapsAbove32(e: int, bts: nat)
    requires e == 1 && bts == 33
    ensures LadderExp(e, 0, bts) == Pow2(bts - 1) + 1
    ensures e % Pow2(bts) == 1
  {
    LadderOfOne(e, bts);
    assert e % Pow2(bts) == 1 by {
      assert Pow2(bts) == 2 * Pow2(bts - 1);
      DivUnique(e, Pow2(bts), 0, 1);
    }
  }

  /** With bts = 33 the ladder reads bit 0 of e = 1 twice: once as bit 0 and once as bit 32. */
  lemma LadderOfOne(e: int, bts: nat)
    requires e == 1 && bts == 33
    ensures LadderExp(e, 0, bts) == Pow2(bts - 1) + 1
  {
    var P, R := Pow2(bts - 1), Pow2(bts - (bts - 1));
    assert P >= 2 by {
      assert P == 2 * Pow2(bts - 2);
    }
    assert R == 2;
    assert e % P == 1 by {
      DivUnique(e, P, 0, 1);
    }
    assert e % R == 1 by {
      DivUnique(e, R, 0, 1);
    }
    assert LadderExp(e, 0, bts) == e % P + P * (e % R) by {
      LadderWrapsAt(e, bts - 1, bts);
    }
    Recombine(LadderExp(e, 0, bts), e % P, P, e % R, 1, 1);
  }
}
