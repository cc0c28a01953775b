/**
 * `pow16`: the constant-time product q[0]^u[0] * ... * q[15]^u[15], run in
 * the exponent-vector group over the sixteen bases, so that the result is
 * proved to be the exponent vector u itself.
 *
 * The bases fall into four groups of four. Group k's table holds the eight
 * products q[4k] * q[4k+1]^b0 * q[4k+2]^b1 * q[4k+3]^b2; the source builds
 * the first table from q[0..3] and the others by applying frob(f, 4) to the
 * previous one, which rests on the protocol's promise that
 * q[4k + j] = frob^(4k)(q[j]). In the model that promise is built in:
 * frob(f, 4) moves base j to base j + 4.
 */
module MultiExp {
  import opened Group
  import opened Recoding
  import opened ConstTime
  import opened Big

  /** The sixteen bases q[0..15]. */
  function Bases(): (q: seq<Mono>)
    ensures |q| == 16
  {
    seq(16, j requires 0 <= j < 16 => Unit(16, j))
  }

  /** Coordinates 4k .. 4k+3 (the bases of group k) set to c, all others 0. */
  function Place(k: nat, c: seq<int>): (r: Mono)
    requires k < 4 && |c| == 4
    ensures |r| == 16
  {
    seq(16, l requires 0 <= l < 16 => if 4 * k <= l < 4 * k + 4 then c[l - 4 * k] else 0)
  }

  /** Entry m of group k's table: q[4k] times q[4k+1+b] for each set bit b of m. */
  function Entry(k: nat, m: nat): Mono
    requires k < 4 && m < 8
  {
    Place(k, [1, m % 2, (m / 2) % 2, m / 4])
  }

  function Table(k: nat): (g: seq<Mono>)
    requires k < 4
    ensures |g| == 8
  {
    seq(8, m requires 0 <= m < 8 => Entry(k, m))
  }

  /** frob(f, 4) on products of the bases: base j becomes base j + 4. */
  function Frob4(x: Mono): (r: Mono)
    requires |x| == 16
    ensures |r| == 16
  {
    seq(16, l requires 0 <= l < 16 => if l >= 4 then x[l - 4] else 0)
  }

  /** frob(f, 4) carries each table to the next group's. */
  lemma FrobEntry(k: nat, m: nat)
    requires k < 3 && m < 8
    ensures Frob4(Entry(k, m)) == Entry(k + 1, m)
  {
  }

  lemma ConjPlace(k: nat, c: seq<int>)
    requires k < 4 && |c| == 4
    ensures Conj(Place(k, c)) == Place(k, [-c[0], -c[1], -c[2], -c[3]])
  {
  }

  /** Row k of the tables as the sequence `select` reads. */
  function Row(g: array2<Mono>, k: nat): (r: seq<Mono>)
    requires k < g.Length0 && 8 <= g.Length1
    reads g
    ensures |r| == 8
  {
    seq(8, m requires 0 <= m < 8 reads g => g[k, m])
  }

  predicate Tables(g: array2<Mono>)
    reads g
  {
    g.Length0 == 4 && g.Length1 == 8 &&
    forall k, m :: 0 <= k < 4 && 0 <= m < 8 ==> g[k, m] == Entry(k, m)
  }

  /** The first table, built by the products the source forms from q[0..3]. */
  method BuildFirstTable(g: array2<Mono>)
    requires g.Length0 == 4 && g.Length1 == 8
    modifies g
    ensures forall m :: 0 <= m < 8 ==> g[0, m] == Entry(0, m)
  {
    var q := Bases();
    g[0, 0] := q[0];
    assert g[0, 0] == Entry(0, 0);
    g[0, 1] := Mul(g[0, 0], q[1]);
    assert g[0, 1] == Entry(0, 1);
    g[0, 2] := Mul(g[0, 0], q[2]);
    assert g[0, 2] == Entry(0, 2);
    g[0, 3] := Mul(g[0, 1], q[2]);
    assert g[0, 3] == Entry(0, 3);
    g[0, 4] := Mul(q[0], q[3]);
    assert g[0, 4] == Entry(0, 4);
    g[0, 5] := Mul(g[0, 1], q[3]);
    assert g[0, 5] == Entry(0, 5);
    g[0, 6] := Mul(g[0, 2], q[3]);
    assert g[0, 6] == Entry(0, 6);
    g[0, 7] := Mul(g[0, 3], q[3]);
    assert g[0, 7] == Entry(0, 7);
  }

  /** The tables g1..g4 (rows 0..3): the first from the bases, each next one by frob(f, 4). */
  method BuildTables() returns (g: array2<Mono>)
    ensures fresh(g) && Tables(g)
  {
    g := new Mono[4, 8]((k, m) => One(16));
    BuildFirstTable(g);
    for i := 0 to 8
      invariant forall m :: 0 <= m < 8 ==> g[0, m] == Entry(0, m)
      invariant forall k, m :: 1 <= k < 4 && 0 <= m < i ==> g[k, m] == Entry(k, m)
    {
      FrobEntry(0, i);
      FrobEntry(1, i);
      FrobEntry(2, i);
      g[1, i] := Frob4(g[0, i]);
      g[2, i] := Frob4(g[1, i]);
      g[3, i] := Frob4(g[2, i]);
    }
  }

  // ---------------------------------------------------------------- recoding

  /** A leading exponent made odd: t.inc(1 - t.parity()). */
  function MadeOdd(t: nat): (r: nat)
    ensures r % 2 == 1 && (r == t || r == t + 1)
  {
    t + (1 - t % 2)
  }

  /**
   * "Make it odd": pb[k] = 1 - parity(t[4k]) is added to t[4k]; the other
   * exponents stay as they are.
   */
  method MakeOdd(t: array<nat>) returns (pb: array<int>)
    requires t.Length == 16
    modifies t
    ensures fresh(pb) && pb.Length == 4
    ensures forall k :: 0 <= k < 4 ==> pb[k] == 1 - old(t[4 * k]) % 2 && t[4 * k] == MadeOdd(old(t[4 * k]))
    ensures forall l :: 0 <= l < 16 && l % 4 != 0 ==> t[l] == old(t[l])
  {
    pb := new int[4];
    for k := 0 to 4
      invariant forall j :: 0 <= j < k ==> pb[j] == 1 - old(t[4 * j]) % 2 && t[4 * j] == MadeOdd(old(t[4 * j]))
      invariant forall l :: 0 <= l < 16 && (l % 4 != 0 || l >= 4 * k) ==> t[l] == old(t[l])
    {
      pb[k] := 1 - t[4 * k] % 2;
      t[4 * k] := t[4 * k] + pb[k];
    }
  }

  /** mt.or(t[0]), ..., mt.or(t[n-1]) from mt = 0. */
  function OrAll(v: seq<nat>): (r: nat)
    ensures forall i :: 0 <= i < |v| ==> v[i] <= r
  {
    if |v| == 0 then 0 else Or(OrAll(v[..|v| - 1]), v[|v| - 1])
  }

  /** The or of values below 2^n is below 2^n. */
  lemma {:induction false} OrAllBelow(v: seq<nat>, n: nat)
    requires forall i :: 0 <= i < |v| ==> v[i] < Pow2(n)
    ensures OrAll(v) < Pow2(n)
  {
    if |v| > 0 {
      OrAllBelow(v[..|v| - 1], n);
      OrBelow(OrAll(v[..|v| - 1]), v[|v| - 1], n);
    }
  }

  /** "Number of bits": one more than the bit length of the or of all sixteen exponents. */
  method BitLength(t: array<nat>) returns (nb: nat)
    ensures nb == 1 + NBits(OrAll(t[..]))
  {
    var mt := 0;
    for i := 0 to t.Length
      invariant mt == OrAll(t[..i])
    {
      assert t[..i + 1][..i] == t[..i];
      mt := Or(mt, t[i]);
    }
    assert t[..] == t[..t.Length];
    nb := 1 + NBits(mt);
  }

  /** Every exponent fits in nb - 1 bits, and nb positions fit the digit arrays. */
  lemma BitLengthBounds(v: seq<nat>, nb: nat)
    requires forall i :: 0 <= i < |v| ==> v[i] < Pow2(NBITS)
    requires nb == 1 + NBits(OrAll(v))
    ensures nb <= NBITS + 1
    ensures forall i :: 0 <= i < |v| ==> v[i] < Pow2(nb - 1)
  {
    OrAllBelow(v, NBITS);
    NBitsAtMost(OrAll(v), NBITS);
    NBitsBounds(OrAll(v));
  }

  /** The tops of the four sign strings are 1. */
  predicate TopSigns(s: array2<int8>, top: nat)
    requires s.Length0 == 4 && top < s.Length1
    reads s
  {
    s[0, top] == 1 && s[1, top] == 1 && s[2, top] == 1 && s[3, top] == 1
  }

  /**
   * "Sign pivot": s_k[nb-1] = 1 and, shifting t[4k] right one bit at a time,
   * s_k[i] = 2 * parity - 1 for i < nb - 1: the signs of the odd value T[k].
   */
  method SignPivot(t: array<nat>, s: array2<int8>, nb: nat, ghost T: seq<nat>)
    requires t.Length == 16 && s.Length0 == 4 && 1 <= nb <= s.Length1 && |T| == 4
    requires forall k :: 0 <= k < 4 ==> t[4 * k] == T[k]
    modifies t, s
    ensures forall k, i :: 0 <= k < 4 && 0 <= i < nb ==> s[k, i] as int == Signs(T[k], nb)[i]
    ensures forall l :: 0 <= l < 16 && l % 4 != 0 ==> t[l] == old(t[l])
  {
    var top := nb - 1;
    s[0, top] := 1;
    s[1, top] := 1;
    s[2, top] := 1;
    s[3, top] := 1;
    assert forall k :: 0 <= k < 4 ==> T[k] / Pow2(0) == T[k];
    for i := 0 to top
      invariant forall k :: 0 <= k < 4 ==> t[4 * k] == T[k] / Pow2(i)
      invariant forall k, m :: 0 <= k < 4 && 0 <= m < i ==> s[k, m] as int == Signs(T[k], nb)[m]
      invariant TopSigns(s, top)
      invariant forall l :: 0 <= l < 16 && l % 4 != 0 ==> t[l] == old(t[l])
    {
      SignColumn(t, s, i, nb, T);
    }
  }

  /** Position i of all four sign strings. */
  method SignColumn(t: array<nat>, s: array2<int8>, i: nat, nb: nat, ghost T: seq<nat>)
    requires t.Length == 16 && s.Length0 == 4 && i + 1 < nb <= s.Length1 && |T| == 4
    requires forall k :: 0 <= k < 4 ==> t[4 * k] == T[k] / Pow2(i)
    modifies t, s
    ensures forall k :: 0 <= k < 4 ==> t[4 * k] == T[k] / Pow2(i + 1)
    ensures forall l :: 0 <= l < 16 && l % 4 != 0 ==> t[l] == old(t[l])
    ensures forall k :: 0 <= k < 4 ==> s[k, i] as int == Signs(T[k], nb)[i]
    ensures forall a, b :: 0 <= a < 4 && 0 <= b < s.Length1 && b != i ==> s[a, b] == old(s[a, b])
  {
    SignStep(t, s, 0, i, nb, T[0]);
    SignStep(t, s, 1, i, nb, T[1]);
    SignStep(t, s, 2, i, nb, T[2]);
    SignStep(t, s, 3, i, nb, T[3]);
  }

  /** One shift of t[4k] and the sign s_k[i] it yields. */
  method SignStep(t: array<nat>, s: array2<int8>, k: nat, i: nat, nb: nat, ghost T: nat)
    requires t.Length == 16 && s.Length0 == 4 && k < 4 && i + 1 < nb <= s.Length1
    requires t[4 * k] == T / Pow2(i)
    modifies t, s
    ensures t[4 * k] == T / Pow2(i + 1)
    ensures forall l :: 0 <= l < 16 && l != 4 * k ==> t[l] == old(t[l])
    ensures s[k, i] as int == Signs(T, nb)[i]
    ensures forall a, b :: 0 <= a < 4 && 0 <= b < s.Length1 && (a != k || b != i) ==> s[a, b] == old(s[a, b])
  {
    ShiftStep(T, i);
    SignsAt(T, nb, i);
    t[4 * k] := t[4 * k] / 2;
    var parity: int := t[4 * k] % 2;
    s[k, i] := (2 * parity - 1) as int8;
  }

  /** The window d1 + 2 d2 + 4 d3 of three digits. */
  function Window(d1: int, d2: int, d3: int): int
  {
    d1 + 2 * d2 + 4 * d3
  }

  /** The window of group k's first j - 1 non-leading digits under the sign sg. */
  function PartialWindow(o: seq<nat>, k: nat, sg: int, j: nat): int
    requires |o| == 16 && k < 4 && 1 <= j <= 4 && IsSign(sg)
  {
    if j == 1 then 0 else PartialWindow(o, k, sg, j - 1) + Pow2(j - 2) * Digit(o[4 * k + j - 1], sg)
  }

  /** The exponents with group k's first j - 1 non-leading ones advanced by one digit. */
  function Advanced(o: seq<nat>, k: nat, sg: int, j: nat): (r: seq<nat>)
    requires |o| == 16 && k < 4 && IsSign(sg)
    ensures |r| == 16
  {
    seq(16, l requires 0 <= l < 16 => if 4 * k < l < 4 * k + j then Next(o[l], sg) else o[l])
  }

  /**
   * One exponent's step of "Recoded exponent": bt = s * parity(t[l]), then
   * t[l] = t[l] / 2 - (bt >> 1).
   */
  method RecodeDigit(t: array<nat>, l: nat, sg: int8) returns (bt: int)
    requires t.Length == 16 && l < 16 && IsSign(sg as int)
    modifies t
    ensures bt == Digit(old(t[l]), sg as int)
    ensures t[..] == old(t[..])[l := Next(old(t[l]), sg as int)]
  {
    bt := (sg as int) * (t[l] % 2);
    t[l] := t[l] / 2 - bt / 2;
  }

  /** Advancing one more exponent of group k. */
  lemma AdvanceStep(o: seq<nat>, k: nat, sg: int, j: nat)
    requires |o| == 16 && k < 4 && IsSign(sg) && 1 <= j < 4
    ensures Advanced(o, k, sg, j)[4 * k + j] == o[4 * k + j]
    ensures Advanced(o, k, sg, j)[4 * k + j := Next(o[4 * k + j], sg)] == Advanced(o, k, sg, j + 1)
  {
  }

  lemma AdvanceNone(o: seq<nat>, k: nat, sg: int)
    requires |o| == 16 && k < 4 && IsSign(sg)
    ensures Advanced(o, k, sg, 1) == o
  {
  }

  /** A window of j - 1 digits in {-1, 0, 1} lies strictly between -2^(j-1) and 2^(j-1). */
  lemma {:induction false} PartialWindowBound(o: seq<nat>, k: nat, sg: int, j: nat)
    requires |o| == 16 && k < 4 && IsSign(sg) && 1 <= j <= 4
    ensures -(Pow2(j - 1) as int) < PartialWindow(o, k, sg, j) < Pow2(j - 1)
  {
    if j > 1 {
      PartialWindowBound(o, k, sg, j - 1);
    }
  }

  /** The window after digit j, and its range. */
  lemma WindowStep(o: seq<nat>, k: nat, sg: int, j: nat, w: int, bt: int, kk: nat)
    requires |o| == 16 && k < 4 && IsSign(sg) && 1 <= j < 4
    requires w == PartialWindow(o, k, sg, j) && bt == Digit(o[4 * k + j], sg) && kk == Pow2(j - 1)
    ensures w + bt * kk == PartialWindow(o, k, sg, j + 1)
    ensures -8 < w + bt * kk < 8
  {
    PartialWindowBound(o, k, sg, j + 1);
    assert Pow2(3) == 8;
    Pow2Monotone(j, 3);
  }

  /**
   * Group k's step of "Recoded exponent" at one position: for j = 1..3 the
   * digit of t[4k+j] is taken and the window accumulates it times 2^(j-1).
   */
  method RecodeGroup(t: array<nat>, k: nat, sg: int8) returns (wk: int8)
    requires t.Length == 16 && k < 4 && IsSign(sg as int)
    modifies t
    ensures t[..] == Advanced(old(t[..]), k, sg as int, 4)
    ensures wk as int == PartialWindow(old(t[..]), k, sg as int, 4)
  {
    ghost var o := t[..];
    wk := 0;
    var kk := 1;
    AdvanceNone(o, k, sg as int);
    for j := 1 to 4
      invariant kk == Pow2(j - 1)
      invariant t[..] == Advanced(o, k, sg as int, j)
      invariant wk as int == PartialWindow(o, k, sg as int, j)
    {
      AdvanceStep(o, k, sg as int, j);
      var bt := RecodeDigit(t, 4 * k + j, sg);
      WindowStep(o, k, sg as int, j, wk as int, bt, kk);
      wk := (wk as int + bt * kk) as int8;
      kk := kk * 2;
    }
  }

  /** The group of exponent l. */
  function GroupOf(l: nat): (k: nat)
    requires l < 16
    ensures k < 4 && 4 * k <= l < 4 * k + 4
  {
    if l < 4 then 0 else if l < 8 then 1 else if l < 12 then 2 else 3
  }

  /** Four sign strings of length nb. */
  predicate SignRows(S: seq<seq<int>>, nb: nat)
  {
    |S| == 4 && forall k :: 0 <= k < 4 ==> |S[k]| == nb && AllSigns(S[k])
  }

  /**
   * The exponents while "Recoded exponent" is at position i, with groups below
   * `done` already past it: each non-leading exponent is its residual.
   */
  function Residuals(o: seq<nat>, S: seq<seq<int>>, nb: nat, i: nat, done: nat): (r: seq<nat>)
    requires |o| == 16 && SignRows(S, nb) && i < nb
    ensures |r| == 16
  {
    seq(16, l requires 0 <= l < 16 =>
      var k := GroupOf(l);
      if l == 4 * k then o[l] else Residual(o[l], S[k], if k < done then i + 1 else i))
  }

  /** The window "Recoded exponent" stores for group k at position i. */
  function WindowAt(o: seq<nat>, S: seq<seq<int>>, nb: nat, k: nat, i: nat): int
    requires |o| == 16 && SignRows(S, nb) && k < 4 && i < nb
  {
    Window(Digits(o[4 * k + 1], S[k])[i], Digits(o[4 * k + 2], S[k])[i], Digits(o[4 * k + 3], S[k])[i])
  }

  /** Recoding group k at position i advances its residuals by one position. */
  lemma GroupAdvance(o: seq<nat>, S: seq<seq<int>>, nb: nat, i: nat, k: nat)
    requires |o| == 16 && SignRows(S, nb) && i < nb && k < 4
    ensures Advanced(Residuals(o, S, nb, i, k), k, S[k][i], 4) == Residuals(o, S, nb, i, k + 1)
  {
    var R, R' := Residuals(o, S, nb, i, k), Residuals(o, S, nb, i, k + 1);
    forall l | 0 <= l < 16
      ensures Advanced(R, k, S[k][i], 4)[l] == R'[l]
    {
      if 4 * k < l < 4 * k + 4 {
        assert GroupOf(l) == k;
        assert R[l] == Residual(o[l], S[k], i);
      }
    }
  }

  /** The window group k's recoding yields at position i is its digits' window. */
  lemma GroupWindow(o: seq<nat>, S: seq<seq<int>>, nb: nat, i: nat, k: nat)
    requires |o| == 16 && SignRows(S, nb) && i < nb && k < 4
    ensures PartialWindow(Residuals(o, S, nb, i, k), k, S[k][i], 4) == WindowAt(o, S, nb, k, i)
  {
    var R, sg := Residuals(o, S, nb, i, k), S[k][i];
    assert GroupOf(4 * k + 1) == k && GroupOf(4 * k + 2) == k && GroupOf(4 * k + 3) == k;
    var r1, r2, r3 := R[4 * k + 1], R[4 * k + 2], R[4 * k + 3];
    assert r1 == Residual(o[4 * k + 1], S[k], i);
    assert r2 == Residual(o[4 * k + 2], S[k], i);
    assert r3 == Residual(o[4 * k + 3], S[k], i);
    DigitsAt(o[4 * k + 1], S[k], i);
    DigitsAt(o[4 * k + 2], S[k], i);
    DigitsAt(o[4 * k + 3], S[k], i);
    assert Pow2(1) == 2 && Pow2(2) == 4;
    assert PartialWindow(R, k, sg, 2) == Digit(r1, sg);
    assert PartialWindow(R, k, sg, 3) == Digit(r1, sg) + 2 * Digit(r2, sg);
    assert PartialWindow(R, k, sg, 4) == Digit(r1, sg) + 2 * Digit(r2, sg) + 4 * Digit(r3, sg);
  }

  lemma ResidualsNext(o: seq<nat>, S: seq<seq<int>>, nb: nat, i: nat)
    requires |o| == 16 && SignRows(S, nb) && i + 1 < nb
    ensures Residuals(o, S, nb, i, 4) == Residuals(o, S, nb, i + 1, 0)
  {
  }

  lemma ResidualsStart(o: seq<nat>, S: seq<seq<int>>, nb: nat)
    requires |o| == 16 && SignRows(S, nb) && 0 < nb
    ensures Residuals(o, S, nb, 0, 0) == o
  {
  }

  /** Position i of "Recoded exponent" for the four groups. */
  method RecodeColumn(t: array<nat>, s: array2<int8>, w: array2<int8>, i: nat, nb: nat,
                      ghost o: seq<nat>, ghost S: seq<seq<int>>)
    requires t.Length == 16 && s.Length0 == 4 && w.Length0 == 4 && nb <= s.Length1 && nb <= w.Length1
    requires |o| == 16 && SignRows(S, nb) && i < nb && s != w
    requires forall k :: 0 <= k < 4 ==> s[k, i] as int == S[k][i]
    requires t[..] == Residuals(o, S, nb, i, 0)
    modifies t, w
    ensures t[..] == Residuals(o, S, nb, i, 4)
    ensures forall k :: 0 <= k < 4 ==> w[k, i] as int == WindowAt(o, S, nb, k, i)
    ensures forall a, b :: 0 <= a < 4 && 0 <= b < w.Length1 && b != i ==> w[a, b] == old(w[a, b])
  {
    for k := 0 to 4
      invariant t[..] == Residuals(o, S, nb, i, k)
      invariant forall a :: 0 <= a < k ==> w[a, i] as int == WindowAt(o, S, nb, a, i)
      invariant forall a, b :: 0 <= a < 4 && 0 <= b < w.Length1 && b != i ==> w[a, b] == old(w[a, b])
    {
      RecodeCell(t, s, w, i, k, nb, o, S);
    }
  }

  /** Group k at position i: w_k[i] is set to the window of group k's digits. */
  method RecodeCell(t: array<nat>, s: array2<int8>, w: array2<int8>, i: nat, k: nat, nb: nat,
                    ghost o: seq<nat>, ghost S: seq<seq<int>>)
    requires t.Length == 16 && s.Length0 == 4 && w.Length0 == 4 && nb <= s.Length1 && nb <= w.Length1
    requires |o| == 16 && SignRows(S, nb) && i < nb && k < 4 && s != w
    requires s[k, i] as int == S[k][i]
    requires t[..] == Residuals(o, S, nb, i, k)
    modifies t, w
    ensures t[..] == Residuals(o, S, nb, i, k + 1)
    ensures w[k, i] as int == WindowAt(o, S, nb, k, i)
    ensures forall a, b :: 0 <= a < 4 && 0 <= b < w.Length1 && (a != k || b != i) ==> w[a, b] == old(w[a, b])
    ensures forall a :: 0 <= a < 4 ==> s[a, i] == old(s[a, i])
  {
    GroupAdvance(o, S, nb, i, k);
    GroupWindow(o, S, nb, i, k);
    var wk := RecodeGroup(t, k, s[k, i]);
    w[k, i] := wk;
  }

  /**
   * "Recoded exponent": for i = 0 .. nb - 1, each group's three non-leading
   * exponents give up one signed digit each, and w_k[i] is their window.
   */
  method Recode(t: array<nat>, s: array2<int8>, w: array2<int8>, nb: nat, ghost S: seq<seq<int>>)
    requires t.Length == 16 && s.Length0 == 4 && w.Length0 == 4 && nb <= s.Length1 && nb <= w.Length1
    requires SignRows(S, nb) && s != w
    requires forall k, i :: 0 <= k < 4 && 0 <= i < nb ==> s[k, i] as int == S[k][i]
    modifies t, w
    ensures forall k, i :: 0 <= k < 4 && 0 <= i < nb ==> w[k, i] as int == WindowAt(old(t[..]), S, nb, k, i)
  {
    ghost var o := t[..];
    if nb > 0 {
      ResidualsStart(o, S, nb);
    }
    for i := 0 to nb
      invariant i < nb ==> t[..] == Residuals(o, S, nb, i, 0)
      invariant forall k, m :: 0 <= k < 4 && 0 <= m < i ==> w[k, m] as int == WindowAt(o, S, nb, k, m)
    {
      RecodeColumn(t, s, w, i, nb, o, S);
      if i + 1 < nb {
        ResidualsNext(o, S, nb, i);
      }
    }
  }

  // --------------------------------------------------------------- main loop

  /** Row k of tables built as `Tables` says is group k's table. */
  lemma RowTable(g: array2<Mono>, k: nat)
    requires Tables(g) && k < 4
    ensures Row(g, k) == Table(k)
  {
  }

  /** A window digit: 0 or the position's sign. */
  predicate WindowDigit(d: int, sg: int)
  {
    d == 0 || d == sg
  }

  /** The table entry picked by a window of positive digits d1, d2, d3 in {0, 1}. */
  lemma PositiveWindow(k: nat, d1: int, d2: int, d3: int)
    requires k < 4 && WindowDigit(d1, 1) && WindowDigit(d2, 1) && WindowDigit(d3, 1)
    ensures 0 <= Window(d1, d2, d3) < 8
    ensures Table(k)[Window(d1, d2, d3)] == Place(k, [1, d1, d2, d3])
  {
    var m := Window(d1, d2, d3);
    DivUnique(m, 2, d2 + 2 * d3, d1);
    DivUnique(d2 + 2 * d3, 2, d3, d2);
    DivUnique(m, 4, d3, d1 + 2 * d2);
    assert Table(k)[m] == Entry(k, m);
    assert [1, m % 2, (m / 2) % 2, m / 4] == [1, d1, d2, d3];
  }

  /** The conjugated entry picked by a window of negative digits d1, d2, d3 in {0, -1}. */
  lemma NegativeWindow(k: nat, d1: int, d2: int, d3: int)
    requires k < 4 && WindowDigit(d1, -1) && WindowDigit(d2, -1) && WindowDigit(d3, -1)
    ensures 0 <= Window(-d1, -d2, -d3) < 8
    ensures Conj(Table(k)[Window(-d1, -d2, -d3)]) == Place(k, [-1, d1, d2, d3])
  {
    PositiveWindow(k, -d1, -d2, -d3);
    ConjPlace(k, [1, -d1, -d2, -d3]);
  }

  /**
   * `select(g_k, 2 w + s)` with w the window of digits d1, d2, d3 in {0, s}:
   * the product of the table's bases raised to s, d1, d2, d3.
   */
  lemma WindowSelected(cur: Mono, k: nat, sg: int, d1: int, d2: int, d3: int, n: int)
    requires k < 4 && IsSign(sg) && WindowDigit(d1, sg) && WindowDigit(d2, sg) && WindowDigit(d3, sg)
    requires n == 2 * Window(d1, d2, d3) + sg
    ensures -15 <= n <= 15
    ensures Selected(cur, Table(k), JavaInt(n), Conj) == Place(k, [sg, d1, d2, d3])
  {
    if sg == 1 {
      PositiveSelected(cur, k, d1, d2, d3, n);
    } else {
      NegativeSelected(cur, k, d1, d2, d3, n);
    }
  }

  lemma PositiveSelected(cur: Mono, k: nat, d1: int, d2: int, d3: int, n: int)
    requires k < 4 && WindowDigit(d1, 1) && WindowDigit(d2, 1) && WindowDigit(d3, 1)
    requires n == 2 * Window(d1, d2, d3) + 1
    ensures 1 <= n <= 15
    ensures Selected(cur, Table(k), JavaInt(n), Conj) == Place(k, [1, d1, d2, d3])
  {
    var m := Window(d1, d2, d3);
    PositiveWindow(k, d1, d2, d3);
    OddIndex(n, m);
    SelectedOdd(cur, Table(k), n, Conj);
  }

  lemma NegativeSelected(cur: Mono, k: nat, d1: int, d2: int, d3: int, n: int)
    requires k < 4 && WindowDigit(d1, -1) && WindowDigit(d2, -1) && WindowDigit(d3, -1)
    requires n == 2 * Window(d1, d2, d3) - 1
    ensures -15 <= n <= -1
    ensures Selected(cur, Table(k), JavaInt(n), Conj) == Place(k, [-1, d1, d2, d3])
  {
    var m := Window(-d1, -d2, -d3);
    NegativeWindow(k, d1, d2, d3);
    OddIndex(-n, m);
    SelectedOdd(cur, Table(k), n, Conj);
  }

  /** The table index of the odd value n = 2 m + 1 is m. */
  lemma OddIndex(n: int, m: int)
    requires 0 <= m < 8 && n == 2 * m + 1
    ensures n % 2 == 1 && (-n) % 2 == 1 && (n - 1) / 2 == m
  {
    DivUnique(n, 2, m, 1);
    DivUnique(-n, 2, -m - 1, 1);
    DivUnique(n - 1, 2, m, 0);
  }

  lemma DigitsIn(t: nat, s: seq<int>, i: nat)
    requires AllSigns(s) && i < |s|
    ensures WindowDigit(Digits(t, s)[i], s[i])
  {
    DigitsAt(t, s, i);
  }

  /** The digit string of exponent l: its group's signs if it leads, else its digits. */
  function Stream(u: seq<nat>, S: seq<seq<int>>, nb: nat, l: nat): (d: seq<int>)
    requires |u| == 16 && SignRows(S, nb) && l < 16
    ensures |d| == nb
  {
    var k := GroupOf(l);
    if l == 4 * k then S[k] else Digits(u[l], S[k])
  }

  /** Position i of group k's four digit strings. */
  function ColumnAt(u: seq<nat>, S: seq<seq<int>>, nb: nat, k: nat, i: nat): seq<int>
    requires |u| == 16 && SignRows(S, nb) && k < 4 && i < nb
  {
    [S[k][i], Digits(u[4 * k + 1], S[k])[i], Digits(u[4 * k + 2], S[k])[i], Digits(u[4 * k + 3], S[k])[i]]
  }

  /**
   * The accumulator of the main loop at position i once groups below k are in:
   * those exponents read their strings from position i, the others from i + 1
   * and are doubled by the squaring still to come.
   */
  function Partial(u: seq<nat>, S: seq<seq<int>>, nb: nat, i: nat, k: nat): (p: Mono)
    requires |u| == 16 && SignRows(S, nb) && i < nb
    ensures |p| == 16
  {
    seq(16, l requires 0 <= l < 16 =>
      if GroupOf(l) < k then Val(Stream(u, S, nb, l)[i..]) else 2 * Val(Stream(u, S, nb, l)[i + 1..]))
  }

  /** Multiplying in group k's selection at position i. */
  lemma PartialStep(u: seq<nat>, S: seq<seq<int>>, nb: nat, i: nat, k: nat)
    requires |u| == 16 && SignRows(S, nb) && i < nb && k < 4
    ensures Mul(Partial(u, S, nb, i, k), Place(k, ColumnAt(u, S, nb, k, i))) == Partial(u, S, nb, i, k + 1)
  {
    var c := ColumnAt(u, S, nb, k, i);
    forall l | 0 <= l < 16
      ensures Partial(u, S, nb, i, k)[l] + Place(k, c)[l] == Partial(u, S, nb, i, k + 1)[l]
    {
      ValFrom(Stream(u, S, nb, l), i);
      if GroupOf(l) == k {
        assert Stream(u, S, nb, l)[i] == c[l - 4 * k];
      }
    }
  }

  /** Squaring moves the accumulator one position down. */
  lemma PartialSquare(u: seq<nat>, S: seq<seq<int>>, nb: nat, i: nat)
    requires |u| == 16 && SignRows(S, nb) && i + 1 < nb
    ensures USqr(Partial(u, S, nb, i + 1, 4)) == Partial(u, S, nb, i, 0)
  {
  }

  /** Before the top position nothing has been accumulated. */
  lemma PartialTop(u: seq<nat>, S: seq<seq<int>>, nb: nat)
    requires |u| == 16 && SignRows(S, nb) && nb >= 1
    ensures Partial(u, S, nb, nb - 1, 0) == One(16)
  {
    forall l | 0 <= l < 16
      ensures Stream(u, S, nb, l)[nb..] == []
    {
    }
  }

  /** After position 0, every exponent has read its whole string. */
  lemma PartialEnd(u: seq<nat>, S: seq<seq<int>>, nb: nat)
    requires |u| == 16 && SignRows(S, nb) && nb >= 1
    ensures Partial(u, S, nb, 0, 4) == seq(16, l requires 0 <= l < 16 => Val(Stream(u, S, nb, l)))
  {
    forall l | 0 <= l < 16
      ensures Stream(u, S, nb, l)[0..] == Stream(u, S, nb, l)
    {
    }
  }

  /** Selecting with group k's window value at position i picks group k's column. */
  lemma ColumnSelected(cur: Mono, g: array2<Mono>, u: seq<nat>, S: seq<seq<int>>, nb: nat, k: nat, i: nat, n: int)
    requires Tables(g) && |u| == 16 && SignRows(S, nb) && k < 4 && i < nb
    requires n == 2 * WindowAt(u, S, nb, k, i) + S[k][i]
    ensures -15 <= n <= 15
    ensures Selected(cur, Row(g, k), JavaInt(n), Conj) == Place(k, ColumnAt(u, S, nb, k, i))
  {
    var d1, d2, d3 := Digits(u[4 * k + 1], S[k])[i], Digits(u[4 * k + 2], S[k])[i], Digits(u[4 * k + 3], S[k])[i];
    DigitsIn(u[4 * k + 1], S[k], i);
    DigitsIn(u[4 * k + 2], S[k], i);
    DigitsIn(u[4 * k + 3], S[k], i);
    WindowSelected(cur, k, S[k][i], d1, d2, d3, n);
    RowTable(g, k);
  }

  /** `r.select(g_k, 2 w_k[i] + s_k[i])`: group k's bases raised to its digits at position i. */
  method SelectWindow(g: array2<Mono>, s: array2<int8>, w: array2<int8>, k: nat, i: nat, sg: int8, cur: Mono,
                      ghost u: seq<nat>, ghost S: seq<seq<int>>, ghost nb: nat) returns (r: Mono)
    requires Tables(g) && s.Length0 == 4 && w.Length0 == 4 && nb <= s.Length1 && nb <= w.Length1
    requires |u| == 16 && SignRows(S, nb) && k < 4 && i < nb
    requires sg as int == S[k][i]
    requires w[k, i] as int == WindowAt(u, S, nb, k, i)
    ensures r == Place(k, ColumnAt(u, S, nb, k, i))
  {
    var n := 2 * (w[k, i] as int) + sg as int;
    ColumnSelected(cur, g, u, S, nb, k, i, n);
    r := Selected(cur, Row(g, k), JavaInt(n), Conj);
  }

  /** Position i of the main loop after the squaring: the four selections multiplied into p. */
  method AddColumn(g: array2<Mono>, s: array2<int8>, w: array2<int8>, i: nat, p0: Mono, r0: Mono,
                   ghost u: seq<nat>, ghost S: seq<seq<int>>, ghost nb: nat) returns (p: Mono, r: Mono)
    requires Tables(g) && s.Length0 == 4 && w.Length0 == 4 && nb <= s.Length1 && nb <= w.Length1
    requires |u| == 16 && SignRows(S, nb) && i < nb
    requires forall k :: 0 <= k < 4 ==> s[k, i] as int == S[k][i] && w[k, i] as int == WindowAt(u, S, nb, k, i)
    requires p0 == Partial(u, S, nb, i, 0)
    ensures p == Partial(u, S, nb, i, 4)
  {
    p, r := p0, r0;
    for k := 0 to 4
      invariant p == Partial(u, S, nb, i, k)
    {
      r := SelectWindow(g, s, w, k, i, s[k, i], r, u, S, nb);
      PartialStep(u, S, nb, i, k);
      p := Mul(p, r);
    }
  }

  /** The top position: p selects group 1's entry, then the other three are multiplied in. */
  method TopColumn(g: array2<Mono>, s: array2<int8>, w: array2<int8>, p0: Mono, r0: Mono,
                   ghost u: seq<nat>, ghost S: seq<seq<int>>, nb: nat) returns (p: Mono, r: Mono)
    requires Tables(g) && s.Length0 == 4 && w.Length0 == 4 && nb <= s.Length1 && nb <= w.Length1
    requires |u| == 16 && SignRows(S, nb) && nb >= 1
    requires forall k :: 0 <= k < 4 ==> S[k][nb - 1] == 1 && w[k, nb - 1] as int == WindowAt(u, S, nb, k, nb - 1)
    ensures p == Partial(u, S, nb, nb - 1, 4)
  {
    var top := nb - 1;
    p := SelectWindow(g, s, w, 0, top, 1, p0, u, S, nb);
    PartialTop(u, S, nb);
    PartialStep(u, S, nb, top, 0);
    MulOne(p);
    r := r0;
    for k := 1 to 4
      invariant p == Partial(u, S, nb, top, k)
    {
      r := SelectWindow(g, s, w, k, top, 1, r, u, S, nb);
      PartialStep(u, S, nb, top, k);
      p := Mul(p, r);
    }
  }

  /**
   * "Main loop": from the top position down, square and multiply in the four
   * selected table entries; each exponent l ends up with the value of its
   * digit string.
   */
  method MainLoop(g: array2<Mono>, s: array2<int8>, w: array2<int8>, nb: nat,
                  ghost u: seq<nat>, ghost S: seq<seq<int>>) returns (p: Mono)
    requires Tables(g) && s.Length0 == 4 && w.Length0 == 4 && nb <= s.Length1 && nb <= w.Length1
    requires |u| == 16 && SignRows(S, nb) && nb >= 1
    requires forall k :: 0 <= k < 4 ==> S[k][nb - 1] == 1
    requires forall k, i :: 0 <= k < 4 && 0 <= i < nb ==>
               s[k, i] as int == S[k][i] && w[k, i] as int == WindowAt(u, S, nb, k, i)
    ensures p == seq(16, l requires 0 <= l < 16 => Val(Stream(u, S, nb, l)))
  {
    var r := One(16);
    p := One(16);
    p, r := TopColumn(g, s, w, p, r, u, S, nb);
    var i := nb as int - 2;
    while i >= 0
      invariant -1 <= i < nb - 1
      invariant p == Partial(u, S, nb, i + 1, 4)
    {
      PartialSquare(u, S, nb, i);
      p := USqr(p);
      p, r := AddColumn(g, s, w, i, p, r, u, S, nb);
      i := i - 1;
    }
    PartialEnd(u, S, nb);
  }

  // ------------------------------------------------------------------ pow16

  /** The exponents before "apply correction": leading ones of groups from k on still made odd. */
  function Uncorrected(u: seq<nat>, k: nat): (r: Mono)
    requires |u| == 16
    ensures |r| == 16
  {
    seq(16, l requires 0 <= l < 16 => if l == 4 * GroupOf(l) && GroupOf(l) >= k then MadeOdd(u[l]) else u[l])
  }

  /** "Apply correction" for group k: p times the conjugate of q[4k], kept when pb_k = 1. */
  lemma CorrectStep(u: seq<nat>, k: nat)
    requires |u| == 16 && k < 4
    ensures CMove(Uncorrected(u, k), Mul(Conj(Bases()[4 * k]), Uncorrected(u, k)), (1 - u[4 * k] % 2) as bv32)
            == Uncorrected(u, k + 1)
  {
    assert GroupOf(4 * k) == k;
    if u[4 * k] % 2 == 0 {
      forall l | 0 <= l < 16
        ensures Mul(Conj(Bases()[4 * k]), Uncorrected(u, k))[l] == Uncorrected(u, k + 1)[l]
      {
      }
    }
  }

  /** An even exponent below 2^n stays below 2^n when made odd. */
  lemma MadeOddBelow(t: nat, n: nat)
    requires n >= 1 && t < Pow2(n)
    ensures MadeOdd(t) < Pow2(n)
  {
    var P, h := Pow2(n - 1), t / 2;
    assert Pow2(n) == 2 * P;
    assert t == 2 * h + t % 2 && h < P;
  }

  /** The digit strings read back the exponents, leading ones made odd. */
  lemma StreamValues(u: seq<nat>, S: seq<seq<int>>, nb: nat)
    requires |u| == 16 && nb >= 1 && SignRows(S, nb)
    requires forall l :: 0 <= l < 16 && l % 4 != 0 ==> u[l] < Pow2(nb - 1)
    requires forall k :: 0 <= k < 4 ==> MadeOdd(u[4 * k]) < Pow2(nb) && S[k] == Signs(MadeOdd(u[4 * k]), nb)
    ensures seq(16, l requires 0 <= l < 16 => Val(Stream(u, S, nb, l))) == Uncorrected(u, 0)
  {
    forall l | 0 <= l < 16
      ensures Val(Stream(u, S, nb, l)) == Uncorrected(u, 0)[l]
    {
      var k := GroupOf(l);
      if l == 4 * k {
        SignsVal(MadeOdd(u[l]), nb);
      } else {
        DigitsVal(u[l], S[k]);
      }
    }
  }

  /** The copies t of the exponents, made odd, and the bit count nb. */
  method Prepare(u: seq<nat>) returns (t: array<nat>, pb: array<int>, nb: nat)
    requires |u| == 16
    requires forall i :: 0 <= i < 16 ==> u[i] < Pow2(NBITS)
    ensures fresh(t) && fresh(pb) && t.Length == 16 && pb.Length == 4
    ensures forall k :: 0 <= k < 4 ==> pb[k] == 1 - u[4 * k] % 2 && t[4 * k] == MadeOdd(u[4 * k])
    ensures forall l :: 0 <= l < 16 && l % 4 != 0 ==> t[l] == u[l]
    ensures 1 <= nb <= NBITS + 1
    ensures forall l :: 0 <= l < 16 && l % 4 != 0 ==> u[l] < Pow2(nb - 1)
    ensures forall k :: 0 <= k < 4 ==> MadeOdd(u[4 * k]) < Pow2(nb)
  {
    t := new nat[16];
    for i := 0 to 16
      invariant forall j :: 0 <= j < i ==> t[j] == u[j]
    {
      t[i] := u[i];
    }
    pb := MakeOdd(t);
    forall k | 0 <= k < 4 {
      MadeOddBelow(u[4 * k], NBITS);
    }
    forall l | 0 <= l < 16 && l % 4 == 0
      ensures t[l] < Pow2(NBITS)
    {
      assert t[4 * (l / 4)] == MadeOdd(u[4 * (l / 4)]);
    }
    nb := BitLength(t);
    BitLengthBounds(t[..], nb);
    Pow2Monotone(nb - 1, nb);
  }

  /** "Sign pivot" and "Recoded exponent" on fresh digit arrays of NBITS + 1 positions. */
  method RecodeAll(t: array<nat>, nb: nat, ghost u: seq<nat>) returns (s: array2<int8>, w: array2<int8>, ghost S: seq<seq<int>>)
    requires t.Length == 16 && 1 <= nb <= NBITS + 1 && |u| == 16
    requires forall k :: 0 <= k < 4 ==> t[4 * k] == MadeOdd(u[4 * k])
    requires forall l :: 0 <= l < 16 && l % 4 != 0 ==> t[l] == u[l]
    modifies t
    ensures fresh(s) && fresh(w) && s.Length0 == 4 && w.Length0 == 4 && nb <= s.Length1 && nb <= w.Length1
    ensures SignRows(S, nb)
    ensures forall k :: 0 <= k < 4 ==> S[k] == Signs(MadeOdd(u[4 * k]), nb) && S[k][nb - 1] == 1
    ensures forall k, i :: 0 <= k < 4 && 0 <= i < nb ==>
              s[k, i] as int == S[k][i] && w[k, i] as int == WindowAt(u, S, nb, k, i)
  {
    s := new int8[4, NBITS + 1];
    w := new int8[4, NBITS + 1];
    ghost var T: seq<nat> := [t[0], t[4], t[8], t[12]];
    SignPivot(t, s, nb, T);
    S := seq(4, k requires 0 <= k < 4 => Signs(T[k], nb));
    ghost var o := t[..];
    Recode(t, s, w, nb, S);
    forall k, i | 0 <= k < 4 && 0 <= i < nb
      ensures WindowAt(o, S, nb, k, i) == WindowAt(u, S, nb, k, i)
    {
      assert o[4 * k + 1] == u[4 * k + 1] && o[4 * k + 2] == u[4 * k + 2] && o[4 * k + 3] == u[4 * k + 3];
    }
  }

  /** "Apply correction": each group whose leading exponent was made odd gives the extra q[4k] back. */
  method Correct(p0: Mono, pb: array<int>, ghost u: seq<nat>) returns (p: Mono)
    requires |u| == 16 && pb.Length == 4
    requires forall k :: 0 <= k < 4 ==> pb[k] == 1 - u[4 * k] % 2
    requires p0 == Uncorrected(u, 0)
    ensures p == u
  {
    var q := Bases();
    p := p0;
    for k := 0 to 4
      invariant p == Uncorrected(u, k)
    {
      var r := Mul(Conj(q[4 * k]), p);
      CorrectStep(u, k);
      p := CMove(p, r, pb[k] as bv32);
    }
  }

  /**
   * `pow16(q, u)`: q[0]^u[0] * ... * q[15]^u[15] for normalised exponents, as
   * an exponent vector over the bases q: the vector u itself.
   */
  method Pow16(u: seq<nat>) returns (p: Mono)
    requires |u| == 16
    requires forall i :: 0 <= i < 16 ==> u[i] < Pow2(NBITS)
    ensures p == u
  {
    var t, pb, nb := Prepare(u);
    var g := BuildTables();
    var s, w, S := RecodeAll(t, nb, u);
    p := MainLoop(g, s, w, nb, u, S);
    Pow2Monotone(nb - 1, nb);
    StreamValues(u, S, nb);
    p := Correct(p, pb, u);
  }
}
