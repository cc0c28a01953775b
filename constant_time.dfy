/**
 * The branch-free helpers FP48 uses for window selection: the equality
 * flag `teq`, the conditional move `cmove`, and the table lookup `select`.
 * Java `int` values are 32-bit two's complement words, modelled as `bv32`.
 * The lookup is generic in the element type, so the same definition serves
 * the field elements and the exponent-vector model of the exponentiations.
 */
module ConstTime {

  const SIGN_BIT: bv32 := 0x8000_0000

  /** The Java `int` whose value is `x`. */
  function JavaInt(x: int): bv32
    requires -0x8000_0000 <= x < 0x8000_0000
  {
    if x >= 0 then x as bv32 else -((-x) as bv32)
  }

  /** Java `x >> 31`: the arithmetic shift copies the sign bit into every bit. */
  function SignMask(x: bv32): bv32
  {
    if x & SIGN_BIT == 0 then 0 else 0xFFFF_FFFF
  }

  /** Java `x / 2` on `int`: the quotient is truncated toward zero. */
  function HalfTowardZero(x: bv32): bv32
  {
    if x & SIGN_BIT == 0 then x >> 1 else -((-x) >> 1)
  }

  /**
   * `teq(b, c)`: bit 31 of `(b ^ c) - 1`. It is 1 exactly when `b ^ c` is 0
   * or lies above 2^31, so it means "equal" only for non-negative arguments.
   */
  function Teq(b: bv32, c: bv32): (r: bv32)
    ensures r == 0 || r == 1
    ensures r == 1 <==> (b == c || b ^ c > SIGN_BIT)
    ensures b < SIGN_BIT && c < SIGN_BIT ==> (r == 1 <==> b == c)
  {
    (((b ^ c) - 1) >> 31) & 1
  }

  /** `teq` is not an equality test for negative arguments: teq(-1, 0) is 1. */
  lemma TeqMinusOneZero()
    ensures Teq(JavaInt(-1), JavaInt(0)) == 1 && JavaInt(-1) != JavaInt(0)
  {
    assert JavaInt(-1) == 0xFFFF_FFFF;
    assert JavaInt(0) == 0;
    assert 0xFFFF_FFFF as bv32 ^ 0 > SIGN_BIT;
  }

  /** `cmove(g, d)` with the flag `d` in {0, 1}: `g` when `d` is 1, else unchanged. */
  function CMove<T>(cur: T, g: T, d: bv32): T
    requires d == 0 || d == 1
  {
    if d == 1 then g else cur
  }

  /** A Java `int` is negative when its sign bit is set. */
  predicate Negative(x: bv32)
  {
    x & SIGN_BIT != 0
  }

  /** Java `(b ^ m) - m` with `m = b >> 31`: the magnitude of `b`, where 2^31 stays 2^31. */
  function Magnitude(b: bv32): bv32
  {
    var m := SignMask(b);
    (b ^ m) - m
  }

  lemma MagnitudeRange(b: bv32)
    ensures Magnitude(b) <= SIGN_BIT
    ensures Magnitude(b) == 0 <==> b == 0
  {
    if b & SIGN_BIT == 0 {
      assert SignMask(b) == 0;
      NonNegativeMagnitude(b);
    } else {
      assert SignMask(b) == 0xFFFF_FFFF;
      NegativeMagnitude(b);
    }
  }

  lemma NonNegativeMagnitude(b: bv32)
    requires b & SIGN_BIT == 0
    ensures (b ^ 0) - 0 == b < SIGN_BIT
  {
  }

  lemma NegativeMagnitude(b: bv32)
    requires b & SIGN_BIT != 0
    ensures (b ^ 0xFFFF_FFFF) - 0xFFFF_FFFF == -b
    ensures 1 <= -b <= SIGN_BIT
  {
  }

  /** The table index `select` computes from `b`: (|b| - 1) / 2 in Java arithmetic. */
  function TableIndex(b: bv32): (r: bv32)
    ensures r < SIGN_BIT
  {
    var babs := Magnitude(b);
    MagnitudeRange(b);
    HalfIndex(babs);
    HalfTowardZero(babs - 1)
  }

  lemma HalfIndex(babs: bv32)
    requires babs <= SIGN_BIT
    ensures HalfTowardZero(babs - 1) < SIGN_BIT
  {
    if babs == 0 {
      assert babs - 1 == 0xFFFF_FFFF;
      assert HalfTowardZero(0xFFFF_FFFF) == 0;
    } else {
      assert (babs - 1) & SIGN_BIT == 0;
      assert (babs - 1) >> 1 < SIGN_BIT;
    }
  }

  /**
   * `select(g, b)` without branches: eight conditional moves keyed by
   * `teq(babs, i)`, then a conditional move of the conjugate keyed by the
   * sign of `b`.
   */
  function Selected<T>(cur: T, g: seq<T>, b: bv32, conj: T -> T): T
    requires |g| >= 8
  {
    var m := SignMask(b);
    var v := Lookup(cur, g, TableIndex(b));
    CMove(v, conj(v), m & 1)
  }

  /**
   * What `select` picks: entry n = (|b|-1)/2 when that index is below 8,
   * conjugated exactly when `b` is negative.
   */
  lemma SelectedAt<T>(cur: T, g: seq<T>, b: bv32, n: nat, conj: T -> T)
    requires |g| >= 8 && n < 8 && TableIndex(b) == n as bv32
    ensures Selected(cur, g, b, conj) == if Negative(b) then conj(g[n]) else g[n]
  {
    SignFlag(b);
    LookupAt(cur, g, n);
  }

  /** `(b >> 31) & 1` is the flag "b is negative". */
  lemma SignFlag(b: bv32)
    ensures SignMask(b) & 1 == if Negative(b) then 1 else 0
  {
  }

  /** For an index of 8 or more `select` moves no entry, so only the conjugation applies. */
  lemma SelectedOutside<T>(cur: T, g: seq<T>, b: bv32, conj: T -> T)
    requires |g| >= 8 && TableIndex(b) >= 8
    ensures Selected(cur, g, b, conj) == if Negative(b) then conj(cur) else cur
  {
    SignFlag(b);
    LookupAbove(cur, g, TableIndex(b));
  }

  lemma LookupAbove<T>(cur: T, g: seq<T>, i: bv32)
    requires |g| >= 8 && 8 <= i < SIGN_BIT
    ensures Lookup(cur, g, i) == cur
  {
    assert Teq(i, 0) == Teq(i, 1) == Teq(i, 2) == Teq(i, 3) == 0;
    assert Teq(i, 4) == Teq(i, 5) == Teq(i, 6) == Teq(i, 7) == 0;
  }

  /** The eight moves of `select`: at most one of the flags `teq(i, k)` is set. */
  function Lookup<T>(cur: T, g: seq<T>, i: bv32): T
    requires |g| >= 8
  {
    var v0 := CMove(cur, g[0], Teq(i, 0));
    var v1 := CMove(v0, g[1], Teq(i, 1));
    var v2 := CMove(v1, g[2], Teq(i, 2));
    var v3 := CMove(v2, g[3], Teq(i, 3));
    var v4 := CMove(v3, g[4], Teq(i, 4));
    var v5 := CMove(v4, g[5], Teq(i, 5));
    var v6 := CMove(v5, g[6], Teq(i, 6));
    CMove(v6, g[7], Teq(i, 7))
  }

  /** The first k of the eight moves. */
  function LookupPrefix<T>(cur: T, g: seq<T>, i: bv32, k: bv32): T
    requires |g| >= 8 && k <= 8
  {
    if k == 0 then cur else
    var j := k - 1;
    CMove(LookupPrefix(cur, g, i, j), g[j], Teq(i, j))
  }

  /** Before the move keyed by i itself, none of the moves has fired. */
  lemma {:induction false} PrefixUntouched<T>(cur: T, g: seq<T>, i: bv32, k: bv32)
    requires |g| >= 8 && k <= 8 && k <= i < SIGN_BIT
    ensures LookupPrefix(cur, g, i, k) == cur
  {
    if k != 0 {
      PrefixUntouched(cur, g, i, k - 1);
    }
  }

  lemma LookupIsPrefix<T>(cur: T, g: seq<T>, i: bv32)
    requires |g| >= 8
    ensures Lookup(cur, g, i) == LookupPrefix(cur, g, i, 8)
  {
    var v0 := CMove(cur, g[0], Teq(i, 0));
    assert LookupPrefix(cur, g, i, 1) == v0;
    var v1 := CMove(v0, g[1], Teq(i, 1));
    assert LookupPrefix(cur, g, i, 2) == v1;
    var v2 := CMove(v1, g[2], Teq(i, 2));
    assert LookupPrefix(cur, g, i, 3) == v2;
    var v3 := CMove(v2, g[3], Teq(i, 3));
    assert LookupPrefix(cur, g, i, 4) == v3;
    var v4 := CMove(v3, g[4], Teq(i, 4));
    assert LookupPrefix(cur, g, i, 5) == v4;
    var v5 := CMove(v4, g[5], Teq(i, 5));
    assert LookupPrefix(cur, g, i, 6) == v5;
    var v6 := CMove(v5, g[6], Teq(i, 6));
    assert LookupPrefix(cur, g, i, 7) == v6;
  }

  lemma LookupAt<T>(cur: T, g: seq<T>, n: nat)
    requires |g| >= 8 && n < 8
    ensures Lookup(cur, g, n as bv32) == g[n]
  {
    if n == 0 {} else if n == 1 {} else if n == 2 {} else if n == 3 {}
    else if n == 4 {} else if n == 5 {} else if n == 6 {} else {}
  }

  /**
   * For the odd window values -15..15 that the exponentiation passes,
   * `select` returns entry (k-1)/2 for positive `k` and the conjugate of
   * entry (-k-1)/2 for negative `k`.
   */
  lemma SelectedOdd<T>(cur: T, g: seq<T>, k: int, conj: T -> T)
    requires |g| >= 8
    requires -15 <= k <= 15 && k % 2 == 1
    ensures Selected(cur, g, JavaInt(k), conj)
            == if k < 0 then conj(g[(-k - 1) / 2]) else g[(k - 1) / 2]
  {
    if k < 0 {
      NegativeOddIndex(k);
      SelectedAt(cur, g, JavaInt(k), (-k - 1) / 2, conj);
    } else {
      PositiveOddIndex(k);
      SelectedAt(cur, g, JavaInt(k), (k - 1) / 2, conj);
    }
  }

  lemma PositiveOddIndex(k: int)
    requires 0 < k <= 15 && k % 2 == 1
    ensures !Negative(JavaInt(k))
    ensures TableIndex(JavaInt(k)) == ((k - 1) / 2) as bv32
  {
    if k == 1 {
      assert JavaInt(k) == 0x1;
      assert TableIndex(0x1) == 0;
    } else if k == 3 {
      assert JavaInt(k) == 0x3;
      assert TableIndex(0x3) == 1;
    } else if k == 5 {
      assert JavaInt(k) == 0x5;
      assert TableIndex(0x5) == 2;
    } else if k == 7 {
      assert JavaInt(k) == 0x7;
      assert TableIndex(0x7) == 3;
    } else if k == 9 {
      assert JavaInt(k) == 0x9;
      assert TableIndex(0x9) == 4;
    } else if k == 11 {
      assert JavaInt(k) == 0xB;
      assert TableIndex(0xB) == 5;
    } else if k == 13 {
      assert JavaInt(k) == 0xD;
      assert TableIndex(0xD) == 6;
    } else {
      assert JavaInt(k) == 0xF;
      assert TableIndex(0xF) == 7;
    }
  }

  lemma NegativeOddIndex(k: int)
    requires -15 <= k < 0 && k % 2 == 1
    ensures Negative(JavaInt(k))
    ensures TableIndex(JavaInt(k)) == ((-k - 1) / 2) as bv32
  {
    if k >= -7 {
      SmallNegativeOddIndex(k);
    } else {
      LargeNegativeOddIndex(k);
    }
  }

  lemma SmallNegativeOddIndex(k: int)
    requires -7 <= k < 0 && k % 2 == 1
    ensures Negative(JavaInt(k))
    ensures TableIndex(JavaInt(k)) == ((-k - 1) / 2) as bv32
  {
    if k == -1 {
      assert JavaInt(k) == 0xFFFFFFFF;
      assert TableIndex(0xFFFFFFFF) == 0;
    } else if k == -3 {
      assert JavaInt(k) == 0xFFFFFFFD;
      assert TableIndex(0xFFFFFFFD) == 1;
    } else if k == -5 {
      assert JavaInt(k) == 0xFFFFFFFB;
      assert TableIndex(0xFFFFFFFB) == 2;
    } else {
      assert JavaInt(k) == 0xFFFFFFF9;
      assert TableIndex(0xFFFFFFF9) == 3;
    }
  }

  lemma LargeNegativeOddIndex(k: int)
    requires -15 <= k < -7 && k % 2 == 1
    ensures Negative(JavaInt(k))
    ensures TableIndex(JavaInt(k)) == ((-k - 1) / 2) as bv32
  {
    if k == -9 {
      assert JavaInt(k) == 0xFFFFFFF7;
      assert TableIndex(0xFFFFFFF7) == 4;
    } else if k == -11 {
      assert JavaInt(k) == 0xFFFFFFF5;
      assert TableIndex(0xFFFFFFF5) == 5;
    } else if k == -13 {
      assert JavaInt(k) == 0xFFFFFFF3;
      assert TableIndex(0xFFFFFFF3) == 6;
    } else {
      assert JavaInt(k) == 0xFFFFFFF1;
      assert TableIndex(0xFFFFFFF1) == 7;
    }
  }
}
