/**
 * FP48 = FP16[w]/(w^3 - XI): an element a + b*w + c*w^2 held as three FP16
 * fields that every operation updates in place.  The Karatsuba-style `mul`,
 * the Chung-Hasan `sqr` and the adjugate `inverse` are proved against the
 * schoolbook product `Product`, and `Product` is proved to be the product of
 * the two polynomials reduced by w^3 = XI.
 */
module Fp48 {
  import opened Fp16
  import opened ConstTime

  /** The value of an FP48: the three coefficients of a + b*w + c*w^2. */
  datatype Elem = Elem(a: Fp16, b: Fp16, c: Fp16)

  const ZERO := Elem(0, 0, 0)
  const ONE := Elem(1, 0, 0)

  /** The schoolbook product, collecting w^3 = XI and w^4 = XI*w. */
  function Product(x: Elem, y: Elem): Elem
  {
    Elem(x.a * y.a + XI * (x.b * y.c + x.c * y.b),
         x.a * y.b + x.b * y.a + XI * (x.c * y.c),
         x.a * y.c + x.b * y.b + x.c * y.a)
  }

  /** The five coefficients of (a + b*w + c*w^2) * (a' + b'*w + c'*w^2) as polynomials. */
  function PolynomialProduct(x: Elem, y: Elem): seq<int>
  {
    [x.a * y.a,
     x.a * y.b + x.b * y.a,
     x.a * y.c + x.b * y.b + x.c * y.a,
     x.b * y.c + x.c * y.b,
     x.c * y.c]
  }

  /** Reduction of a polynomial of degree at most 4 modulo w^3 - XI. */
  function ReduceCubic(p: seq<int>): Elem
    requires |p| == 5
  {
    Elem(p[0] + XI * p[3], p[1] + XI * p[4], p[2])
  }

  lemma ProductIsReducedPolynomialProduct(x: Elem, y: Elem)
    ensures Product(x, y) == ReduceCubic(PolynomialProduct(x, y))
  {
  }

  lemma ProductCommutes(x: Elem, y: Elem)
    ensures Product(x, y) == Product(y, x)
  {
  }

  lemma ProductIdentity(x: Elem)
    ensures Product(ONE, x) == x && Product(x, ONE) == x
  {
  }

  lemma Distributes(x1: int, x2: int, y1: int, y2: int)
    ensures (x1 + x2) * (y1 + y2) == x1 * y1 + x1 * y2 + x2 * y1 + x2 * y2
  {
  }

  lemma SquaresSum(p: int, q: int, r: int)
    ensures (p + q + r) * (p + q + r) == p * p + q * q + r * r + 2 * (p * q) + 2 * (p * r) + 2 * (q * r)
  {
  }

  lemma ScalesSum(k: int, p: int, q: int)
    ensures k * (p + q) == k * p + k * q
  {
  }

  /** Multiplication of every coefficient by one FP16 value. */
  function ScaleBy(x: Elem, n: Fp16): Elem
  {
    Elem(x.a * n, x.b * n, x.c * n)
  }

  /**
   * The adjugate (f0, f1, f2) that `inverse` builds: x * adj(x) has no w or
   * w^2 part.
   */
  function Adjugate(x: Elem): Elem
  {
    Elem(x.a * x.a - XI * (x.b * x.c),
         XI * (x.c * x.c) - x.a * x.b,
         x.b * x.b - x.a * x.c)
  }

  /** The FP16 value f3 that `inverse` inverts: a*f0 + XI*(b*f2 + c*f1). */
  function FieldNorm(x: Elem): Fp16
  {
    var f := Adjugate(x);
    x.a * f.a + XI * (x.b * f.c + x.c * f.b)
  }

  /** f3 is the norm of x from FP48 down to FP16: a^3 + XI*b^3 + XI^2*c^3 - 3*XI*a*b*c. */
  lemma NormIsCubicNorm(x: Elem)
    ensures FieldNorm(x) == x.a * x.a * x.a + XI * (x.b * x.b * x.b)
                       + XI * XI * (x.c * x.c * x.c) - 3 * XI * (x.a * x.b * x.c)
  {
  }

  lemma AdjugateProduct(x: Elem)
    ensures Product(x, Adjugate(x)) == Elem(FieldNorm(x), 0, 0)
  {
  }

  /** With n the inverse of the norm, the result of `inverse` is the inverse of x. */
  lemma {:induction false} InverseIsInverse(x: Elem, n: Fp16)
    requires FieldNorm(x) * n == 1
    ensures Product(x, ScaleBy(Adjugate(x), n)) == ONE
  {
    var f := Adjugate(x);
    ProductScales(x, f, n);
    AdjugateProduct(x);
  }

  lemma {:induction false} ProductScales(x: Elem, y: Elem, n: Fp16)
    ensures Product(x, ScaleBy(y, n)) == ScaleBy(Product(x, y), n)
  {
    ScalesFirst(x.a, x.b, x.c, y.a, y.b, y.c, n);
    ScalesSecond(x.a, x.b, x.c, y.a, y.b, y.c, n);
    ScalesThird(x.a, x.b, x.c, y.a, y.b, y.c, n);
  }

  lemma ScalesFirst(p: int, q: int, r: int, u: int, v: int, w: int, n: int)
    ensures p * (u * n) + XI * (q * (w * n) + r * (v * n)) == (p * u + XI * (q * w + r * v)) * n
  {
  }

  lemma ScalesSecond(p: int, q: int, r: int, u: int, v: int, w: int, n: int)
    ensures p * (v * n) + q * (u * n) + XI * (r * (w * n)) == (p * v + q * u + XI * (r * w)) * n
  {
  }

  lemma ScalesThird(p: int, q: int, r: int, u: int, v: int, w: int, n: int)
    ensures p * (w * n) + q * (v * n) + r * (u * n) == (p * w + q * v + r * u) * n
  {
  }

  /** FP48.conj in terms of FP16's two conjugations: conj on a and c, nconj on b. */
  function ConjValue(x: Elem, conj16: Fp16 -> Fp16, nconj16: Fp16 -> Fp16): Elem
  {
    Elem(conj16(x.a), nconj16(x.b), conj16(x.c))
  }

  /** When both FP16 conjugations are involutions, so is FP48.conj. */
  lemma ConjInvolution(x: Elem, conj16: Fp16 -> Fp16, nconj16: Fp16 -> Fp16)
    requires forall v :: conj16(conj16(v)) == v
    requires forall v :: nconj16(nconj16(v)) == v
    ensures ConjValue(ConjValue(x, conj16, nconj16), conj16, nconj16) == x
  {
  }

  /** The values held by a table of FP48 objects. */
  function Values(g: array<FP48>): seq<Elem>
    reads g, g[..]
  {
    seq(g.Length, i requires 0 <= i < g.Length reads g, g[..] => g[i].Value())
  }

  class FP48 {
    var a: Fp16
    var b: Fp16
    var c: Fp16

    function Value(): Elem
      reads this
    {
      Elem(a, b, c)
    }

    /** FP48(FP16 d): the element d of the subfield. */
    constructor FromFp16(d: Fp16)
      ensures Value() == Elem(d, 0, 0)
    {
      a, b, c := d, 0, 0;
    }

    /** FP48(int d): the small integer d, through FP16(int). */
    constructor FromInt(d: int)
      ensures Value() == Elem(d, 0, 0)
    {
      a, b, c := d, 0, 0;
    }

    constructor FromParts(d: Fp16, e: Fp16, f: Fp16)
      ensures Value() == Elem(d, e, f)
    {
      a, b, c := d, e, f;
    }

    constructor Copy(x: FP48)
      ensures Value() == x.Value()
    {
      a, b, c := x.a, x.b, x.c;
    }

    /** reduce(): reduces every coefficient modulo the field prime; the value is unchanged. */
    method Reduce()
      modifies this
      ensures Value() == old(Value())
    {
    }

    /** norm(): normalises the limbs of every coefficient; the value is unchanged. */
    method Norm()
      modifies this
      ensures Value() == old(Value())
    {
    }

    method IsZilch() returns (r: bool)
      ensures r <==> Value() == ZERO
    {
      r := a == 0 && b == 0 && c == 0;
    }

    method IsUnity() returns (r: bool)
      ensures r <==> Value() == ONE
    {
      var one: Fp16 := 1;
      r := a == one && b == 0 && c == 0;
    }

    method Equals(x: FP48) returns (r: bool)
      ensures r <==> Value() == x.Value()
    {
      r := a == x.a && b == x.b && c == x.c;
    }

    /** cmove(g, d): take g's value when d is 1, keep this one when d is 0. */
    method CMove(g: FP48, d: bv32)
      requires d == 0 || d == 1
      modifies this
      ensures Value() == ConstTime.CMove(old(Value()), old(g.Value()), d)
    {
      if d == 1 {
        a, b, c := g.a, g.b, g.c;
      }
    }

    method CopyFrom(x: FP48)
      modifies this
      ensures Value() == old(x.Value())
    {
      a, b, c := x.a, x.b, x.c;
    }

    method One()
      modifies this
      ensures Value() == ONE
    {
      a, b, c := 1, 0, 0;
    }

    method Conj(conj16: Fp16 -> Fp16, nconj16: Fp16 -> Fp16)
      modifies this
      ensures Value() == ConjValue(old(Value()), conj16, nconj16)
    {
      a := conj16(a);
      b := nconj16(b);
      c := conj16(c);
    }

    /**
     * Granger-Scott unitary squaring, as a formula: the new value is
     * (3a^2 + 2 nconj(a), 2 conj(b) + 3 XI c^2, 3b^2 + 2 nconj(c)).
     */
    method USqr(conj16: Fp16 -> Fp16, nconj16: Fp16 -> Fp16)
      modifies this
      ensures Value() == Elem(3 * (old(a) * old(a)) + 2 * nconj16(old(a)),
                              2 * conj16(old(b)) + 3 * TimesI(old(c) * old(c)),
                              3 * (old(b) * old(b)) + 2 * nconj16(old(c)))
    {
      var A: Fp16 := a;
      var B: Fp16 := c;
      var C: Fp16 := b;
      var D: Fp16 := 0;

      a := a * a;
      D := a; D := D + a;
      a := a + D;
      A := nconj16(A);
      A := A + A;
      a := a + A;
      B := B * B;
      B := TimesI(B);
      D := B; D := D + B;
      B := B + D;
      C := C * C;
      D := C; D := D + C;
      C := C + D;
      b := conj16(b);
      b := b + b;
      c := nconj16(c);
      c := c + c;
      b := b + B;
      c := c + C;
    }

    /** Chung-Hasan squaring: the value becomes its own product. */
    method Sqr()
      modifies this
      ensures Value() == Product(old(Value()), old(Value()))
    {
      ghost var xa, xb, xc := a, b, c;
      SquaresSum(xc, xa, xb);
      var A: Fp16 := a;
      var B: Fp16 := b;
      var C: Fp16 := c;
      var D: Fp16 := a;

      A := A * A;
      B := B * c;
      B := B + B;
      C := C * C;
      D := D * b;
      D := D + D;
      c := c + a;
      c := c + b;
      c := c * c;
      a := A;
      A := A + B;
      A := A + C;
      A := A + D;
      A := -A;
      assert B == xb * xc + xc * xb;
      B := TimesI(B);
      C := TimesI(C);
      a := a + B;
      b := C; b := b + D;
      c := c + A;
    }

    /**
     * Karatsuba-style multiplication this = this * y; `y` may be this object
     * itself, since every read of `y` precedes the write of that field.
     */
    method Mul(y: FP48)
      modifies this
      ensures Value() == Product(old(Value()), old(y.Value()))
    {
      ghost var xa, xb, xc, ya, yb, yc := a, b, c, y.a, y.b, y.c;
      Distributes(xa, xb, ya, yb);
      Distributes(xb, xc, yb, yc);
      Distributes(xa, xc, ya, yc);
      var z0: Fp16 := a;
      var z1: Fp16 := 0;
      var z2: Fp16 := b;
      var z3: Fp16 := 0;
      var t0: Fp16 := a;
      var t1: Fp16 := y.a;

      z0 := z0 * y.a;
      z2 := z2 * y.b;
      t0 := t0 + b;
      t1 := t1 + y.b;
      z1 := t0; z1 := z1 * t1;
      t0 := b; t0 := t0 + c;
      t1 := y.b; t1 := t1 + y.c;
      z3 := t0; z3 := z3 * t1;
      t0 := z0; t0 := -t0;
      t1 := z2; t1 := -t1;
      z1 := z1 + t0;
      b := z1; b := b + t1;
      z3 := z3 + t1;
      z2 := z2 + t0;
      t0 := a; t0 := t0 + c;
      t1 := y.a; t1 := t1 + y.c;
      t0 := t0 * t1;
      z2 := z2 + t0;
      t0 := c; t0 := t0 * y.c;
      t1 := t0; t1 := -t1;
      c := z2; c := c + t1;
      z3 := z3 + t1;
      assert z3 == xb * yc + xc * yb;
      t0 := TimesI(t0);
      b := b + t0;
      z3 := TimesI(z3);
      a := z0; a := a + z3;
    }

    /**
     * inverse(): builds the adjugate (f0, f1, f2) and the norm f3, inverts f3
     * in FP16 (`inv16`, FP16.inverse) and scales the adjugate by it.
     */
    method Inverse(inv16: Fp16 -> Fp16)
      modifies this
      ensures Value() == ScaleBy(Adjugate(old(Value())), inv16(FieldNorm(old(Value()))))
    {
      ghost var xa, xb, xc := a, b, c;
      var f0: Fp16 := a;
      var f1: Fp16 := b;
      var f2: Fp16 := a;
      var f3: Fp16 := 0;

      f0 := f0 * f0;
      f1 := f1 * c;
      f1 := TimesI(f1);
      f0 := f0 - f1;
      f1 := c; f1 := f1 * f1;
      f1 := TimesI(f1);
      f2 := f2 * b;
      f1 := f1 - f2;
      f2 := b; f2 := f2 * f2;
      f3 := a; f3 := f3 * c;
      f2 := f2 - f3;
      f3 := b; f3 := f3 * f2;
      f3 := TimesI(f3);
      a := a * f0;
      f3 := f3 + a;
      c := c * f1;
      c := TimesI(c);
      f3 := f3 + c;
      ScalesSum(XI, xb * f2, xc * f1);
      assert f3 == FieldNorm(Elem(xa, xb, xc));
      f3 := inv16(f3);
      a := f0; a := a * f3;
      b := f1; b := b * f3;
      c := f2; c := c * f3;
    }

    /** The eight conditional moves of `select`, keyed by `teq(i, k)`. */
    method LookupMoves(g: array<FP48>, i: bv32)
      requires g.Length >= 8
      requires i < SIGN_BIT
      modifies this
      ensures Value() == Lookup(old(Value()), old(Values(g)), i)
    {
      ghost var cur, vals := Value(), Values(g);
      var k: bv32 := 0;
      while k < 8
        invariant k <= 8
        invariant Value() == LookupPrefix(cur, vals, i, k)
        invariant forall j :: 0 <= j < g.Length ==> g[j] == this || g[j].Value() == vals[j]
        invariant forall j :: 0 <= j < g.Length && g[j] == this ==> vals[j] == cur
      {
        LookupStep(g[k], i, k, cur, vals);
        k := k + 1;
      }
      LookupIsPrefix(cur, vals, i);
    }

    /** Move k of `select`: cmove(g[k], teq(i, k)), where g[k] may be this object itself. */
    method LookupStep(gk: FP48, i: bv32, k: bv32, ghost cur: Elem, ghost vals: seq<Elem>)
      requires |vals| >= 8 && k < 8 && i < SIGN_BIT
      requires Value() == LookupPrefix(cur, vals, i, k)
      requires gk.Value() == if gk == this then Value() else vals[k]
      requires gk == this ==> vals[k] == cur
      modifies this
      ensures Value() == LookupPrefix(cur, vals, i, k + 1)
    {
      if Teq(i, k) == 1 {
        PrefixUntouched(cur, vals, i, k);
      }
      CMove(gk, Teq(i, k));
    }

    /**
     * select(g, b): constant-time lookup of entry (|b|-1)/2 of the window
     * table, conjugated when b is negative.  `this` may itself be one of the
     * entries.
     */
    method Select(g: array<FP48>, b: bv32, conj16: Fp16 -> Fp16, nconj16: Fp16 -> Fp16)
      requires g.Length >= 8
      modifies this
      ensures Value() == Selected(old(Value()), old(Values(g)), b, v => ConjValue(v, conj16, nconj16))
    {
      var m := SignMask(b);
      var babs := TableIndex(b);
      LookupMoves(g, babs);
      var invf := new FP48.Copy(this);
      invf.Conj(conj16, nconj16);
      CMove(invf, m & 1);
    }
  }
}
