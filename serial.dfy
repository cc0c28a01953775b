/**
 * FP48.toBytes and FP48.fromBytes. An element is a tower
 * FP48 = (FP16, FP16, FP16), FP16 = (FP8, FP8), FP8 = (FP4, FP4),
 * FP4 = (FP2, FP2), FP2 = (BIG, BIG), so it holds 48 base-field
 * coefficients. Both directions visit them in the same order (a before b
 * before c, geta before getb, getA before getB) and give slot k the bytes
 * [k * MODBYTES, (k + 1) * MODBYTES) of the buffer. A coefficient is its
 * value; BIG.toBytes and BIG.fromBytes are parameters `enc` and `dec`.
 */
module Serial {
  import opened Big

  datatype Option<T> = None | Some(value: T)

  /** What BIG.toBytes leaves in its MODBYTES-byte buffer. */
  type Block = s: seq<int8> | |s| == MODBYTES witness seq(MODBYTES, i => 0 as int8)

  /** The coefficient layout of FP2 (getA, getB) up to FP48 (a, b, c). */
  datatype Tower2 = Tower2(A: nat, B: nat)
  datatype Tower4 = Tower4(a: Tower2, b: Tower2)
  datatype Tower8 = Tower8(a: Tower4, b: Tower4)
  datatype Tower16 = Tower16(a: Tower8, b: Tower8)
  datatype Tower48 = Tower48(a: Tower16, b: Tower16, c: Tower16)

  // ---------------------------------------------------------------------
  // Flattening the tower

  function Coeffs2(x: Tower2): (r: seq<nat>)
    ensures |r| == 2
  {
    [x.A, x.B]
  }

  function Coeffs4(x: Tower4): (r: seq<nat>)
    ensures |r| == 4
  {
    Coeffs2(x.a) + Coeffs2(x.b)
  }

  function Coeffs8(x: Tower8): (r: seq<nat>)
    ensures |r| == 8
  {
    Coeffs4(x.a) + Coeffs4(x.b)
  }

  function Coeffs16(x: Tower16): (r: seq<nat>)
    ensures |r| == 16
  {
    Coeffs8(x.a) + Coeffs8(x.b)
  }

  /** The 48 coefficients of an element in serialisation order. */
  function Coeffs(x: Tower48): (r: seq<nat>)
    ensures |r| == 48
  {
    Coeffs16(x.a) + Coeffs16(x.b) + Coeffs16(x.c)
  }

  /** The constructors fromBytes applies, rebuilding the tower from its coefficients. */
  function Build2(c: seq<nat>): (x: Tower2)
    requires |c| == 2
    ensures Coeffs2(x) == c
  {
    Tower2(c[0], c[1])
  }

  function Build4(c: seq<nat>): (x: Tower4)
    requires |c| == 4
    ensures Coeffs4(x) == c
  {
    assert c == c[..2] + c[2..];
    Tower4(Build2(c[..2]), Build2(c[2..]))
  }

  function Build8(c: seq<nat>): (x: Tower8)
    requires |c| == 8
    ensures Coeffs8(x) == c
  {
    assert c == c[..4] + c[4..];
    Tower8(Build4(c[..4]), Build4(c[4..]))
  }

  function Build16(c: seq<nat>): (x: Tower16)
    requires |c| == 16
    ensures Coeffs16(x) == c
  {
    assert c == c[..8] + c[8..];
    Tower16(Build8(c[..8]), Build8(c[8..]))
  }

  function Build(c: seq<nat>): (x: Tower48)
    requires |c| == 48
    ensures Coeffs(x) == c
  {
    assert c == c[..16] + c[16..32] + c[32..];
    Tower48(Build16(c[..16]), Build16(c[16..32]), Build16(c[32..]))
  }

  /** Flattening loses nothing: an element is rebuilt from its coefficients. */
  lemma BuildCoeffs(x: Tower48)
    ensures Build(Coeffs(x)) == x
  {
    var c := Coeffs(x);
    assert c[..16] == Coeffs16(x.a) && c[16..32] == Coeffs16(x.b) && c[32..] == Coeffs16(x.c);
    Build16Coeffs(x.a);
    Build16Coeffs(x.b);
    Build16Coeffs(x.c);
  }

  lemma Build16Coeffs(x: Tower16)
    ensures Build16(Coeffs16(x)) == x
  {
    var c := Coeffs16(x);
    assert c[..8] == Coeffs8(x.a) && c[8..] == Coeffs8(x.b);
    Build8Coeffs(x.a);
    Build8Coeffs(x.b);
  }

  lemma Build8Coeffs(x: Tower8)
    ensures Build8(Coeffs8(x)) == x
  {
    var c := Coeffs8(x);
    assert c[..4] == Coeffs4(x.a) && c[4..] == Coeffs4(x.b);
    Build4Coeffs(x.a);
    Build4Coeffs(x.b);
  }

  lemma Build4Coeffs(x: Tower4)
    ensures Build4(Coeffs4(x)) == x
  {
    var c := Coeffs4(x);
    assert c[..2] == Coeffs2(x.a) && c[2..] == Coeffs2(x.b);
  }

  // ---------------------------------------------------------------------
  // The accessor chains of the source

  function Half2(x: Tower2, s: nat): nat
    requires s < 2
  {
    if s == 0 then x.A else x.B
  }

  function Half4(x: Tower4, r: nat): Tower2
    requires r < 2
  {
    if r == 0 then x.a else x.b
  }

  function Half8(x: Tower8, q: nat): Tower4
    requires q < 2
  {
    if q == 0 then x.a else x.b
  }

  function Half16(x: Tower16, p: nat): Tower8
    requires p < 2
  {
    if p == 0 then x.a else x.b
  }

  function Third(x: Tower48, t: nat): Tower16
    requires t < 3
  {
    if t == 0 then x.a else if t == 1 then x.b else x.c
  }

  /**
   * The coefficient the source reaches through a chain such as
   * b.geta().getb().geta().getB(): t picks a, b or c, and each of p, q, r, s
   * picks the first (0) or second (1) half one level down.
   */
  function Path(x: Tower48, t: nat, p: nat, q: nat, r: nat, s: nat): nat
    requires t < 3 && p < 2 && q < 2 && r < 2 && s < 2
  {
    Half2(Half4(Half8(Half16(Third(x, t), p), q), r), s)
  }

  /** Slot 16t + 8p + 4q + 2r + s of the flattening is the coefficient at that accessor chain. */
  lemma CoeffsAt(x: Tower48, t: nat, p: nat, q: nat, r: nat, s: nat)
    requires t < 3 && p < 2 && q < 2 && r < 2 && s < 2
    ensures Coeffs(x)[16 * t + 8 * p + 4 * q + 2 * r + s] == Path(x, t, p, q, r, s)
  {
    var y := Third(x, t);
    assert Coeffs(x)[16 * t..16 * t + 16] == Coeffs16(y);
    Coeffs16At(y, p, q, r, s);
  }

  lemma Coeffs16At(x: Tower16, p: nat, q: nat, r: nat, s: nat)
    requires p < 2 && q < 2 && r < 2 && s < 2
    ensures Coeffs16(x)[8 * p + 4 * q + 2 * r + s] == Half2(Half4(Half8(Half16(x, p), q), r), s)
  {
    var y := Half16(x, p);
    assert Coeffs16(x)[8 * p..8 * p + 8] == Coeffs8(y);
    Coeffs8At(y, q, r, s);
  }

  lemma Coeffs8At(x: Tower8, q: nat, r: nat, s: nat)
    requires q < 2 && r < 2 && s < 2
    ensures Coeffs8(x)[4 * q + 2 * r + s] == Half2(Half4(Half8(x, q), r), s)
  {
    var y := Half8(x, q);
    assert Coeffs8(x)[4 * q..4 * q + 4] == Coeffs4(y);
  }

  // ---------------------------------------------------------------------
  // The byte layout

  lemma SlotBound(k: nat, n: nat)
    requires k < n
    ensures k * MODBYTES + MODBYTES <= n * MODBYTES
  {
    assert (k + 1) * MODBYTES <= n * MODBYTES;
  }

  /** The MODBYTES bytes of slot k: [k * MODBYTES, (k + 1) * MODBYTES). */
  function Field(b: seq<int8>, k: nat): (f: Block)
    requires k * MODBYTES + MODBYTES <= |b|
    ensures forall i :: 0 <= i < MODBYTES ==> f[i] == b[k * MODBYTES + i]
  {
    b[k * MODBYTES..k * MODBYTES + MODBYTES]
  }

  /** Consecutive fixed-width fields, one per coefficient. */
  function Blocks(c: seq<nat>, enc: nat -> Block): (b: seq<int8>)
    ensures |b| == |c| * MODBYTES
  {
    if |c| == 0 then [] else enc(c[0]) + Blocks(c[1..], enc)
  }

  /** The bytes toBytes writes: 48 * MODBYTES of them. */
  function Encoding(x: Tower48, enc: nat -> Block): (b: seq<int8>)
    ensures |b| == 48 * MODBYTES
  {
    Blocks(Coeffs(x), enc)
  }

  /** Byte i of field k of the blocks is byte i of the k-th coefficient's encoding. */
  lemma {:induction false} BlocksAt(c: seq<nat>, enc: nat -> Block, k: nat, i: nat)
    requires k < |c| && i < MODBYTES
    ensures k * MODBYTES + i < |c| * MODBYTES
    ensures Blocks(c, enc)[k * MODBYTES + i] == enc(c[k])[i]
  {
    SlotBound(k, |c|);
    if k > 0 {
      BlocksAt(c[1..], enc, k - 1, i);
      assert k * MODBYTES + i == MODBYTES + ((k - 1) * MODBYTES + i);
    }
  }

  /** toBytes puts coefficient k in field k. */
  lemma EncodingAt(x: Tower48, enc: nat -> Block, k: nat)
    requires k < 48
    ensures k * MODBYTES + MODBYTES <= 48 * MODBYTES
    ensures Field(Encoding(x, enc), k) == enc(Coeffs(x)[k])
  {
    SlotBound(k, 48);
    forall i | 0 <= i < MODBYTES
      ensures Field(Encoding(x, enc), k)[i] == enc(Coeffs(x)[k])[i]
    {
      BlocksAt(Coeffs(x), enc, k, i);
    }
  }

  /** The coefficient fromBytes reads from field k of b. */
  function FieldValue(b: seq<int8>, k: nat, dec: Block -> nat): nat
    requires k < 48 && |b| >= 48 * MODBYTES
  {
    SlotBound(k, 48);
    dec(Field(b, k))
  }

  /**
   * What fromBytes returns: the element whose slot k is decoded from field k,
   * or None on a buffer shorter than the 48 fields, where the source fails
   * with an out-of-bounds exception. Bytes beyond the 48 fields are ignored.
   */
  function Decode(b: seq<int8>, dec: Block -> nat): (r: Option<Tower48>)
    ensures r.None? <==> |b| < 48 * MODBYTES
    ensures r.Some? ==> forall k :: 0 <= k < 48 ==> Coeffs(r.value)[k] == FieldValue(b, k, dec)
  {
    if |b| < 48 * MODBYTES then None
    else Some(Build(seq(48, k requires 0 <= k < 48 => FieldValue(b, k, dec))))
  }

  /** fromBytes after toBytes yields each coefficient passed through BIG's own round trip. */
  lemma DecodeEncoding(x: Tower48, enc: nat -> Block, dec: Block -> nat)
    ensures Decode(Encoding(x, enc), dec)
         == Some(Build(seq(48, k requires 0 <= k < 48 => dec(enc(Coeffs(x)[k])))))
  {
    var b := Encoding(x, enc);
    forall k | 0 <= k < 48
      ensures FieldValue(b, k, dec) == dec(enc(Coeffs(x)[k]))
    {
      EncodingAt(x, enc, k);
    }
    assert seq(48, k requires 0 <= k < 48 => FieldValue(b, k, dec))
        == seq(48, k requires 0 <= k < 48 => dec(enc(Coeffs(x)[k])));
  }

  /** When BIG's codec round-trips on the coefficients of x, fromBytes(toBytes(x)) is x. */
  lemma RoundTrip(x: Tower48, enc: nat -> Block, dec: Block -> nat)
    requires forall k :: 0 <= k < 48 ==> dec(enc(Coeffs(x)[k])) == Coeffs(x)[k]
    ensures Decode(Encoding(x, enc), dec) == Some(x)
  {
    DecodeEncoding(x, enc, dec);
    assert seq(48, k requires 0 <= k < 48 => dec(enc(Coeffs(x)[k]))) == Coeffs(x);
    BuildCoeffs(x);
  }

  /** A position below n fields lies at some byte i of some field k < n. */
  lemma FieldOf(j: nat, n: nat) returns (k: nat, i: nat)
    requires j < n * MODBYTES
    ensures k < n && i < MODBYTES && j == k * MODBYTES + i
  {
    k, i := j / MODBYTES, j % MODBYTES;
    if k >= n {
      MulAtLeast(k, n);
    }
  }

  lemma MulAtLeast(k: nat, n: nat)
    requires k >= n
    ensures k * MODBYTES >= n * MODBYTES
  {
  }

  /** fromBytes then toBytes gives back the 48 fields, when BIG's codec round-trips on them. */
  lemma EncodingDecode(b: seq<int8>, enc: nat -> Block, dec: Block -> nat)
    requires |b| == 48 * MODBYTES
    requires forall k :: 0 <= k < 48 ==> enc(FieldValue(b, k, dec)) == Field(b, k)
    ensures Decode(b, dec).Some? && Encoding(Decode(b, dec).value, enc) == b
  {
    var x := Decode(b, dec).value;
    var e := Encoding(x, enc);
    forall j | 0 <= j < |b|
      ensures e[j] == b[j]
    {
      var k, i := FieldOf(j, 48);
      SlotBound(k, 48);
      EncodingByte(b, enc, dec, x, k, i);
    }
  }

  lemma EncodingByte(b: seq<int8>, enc: nat -> Block, dec: Block -> nat, x: Tower48, k: nat, i: nat)
    requires |b| == 48 * MODBYTES && k < 48 && i < MODBYTES
    requires k * MODBYTES + MODBYTES <= |b|
    requires Coeffs(x)[k] == FieldValue(b, k, dec)
    requires enc(FieldValue(b, k, dec)) == Field(b, k)
    ensures Encoding(x, enc)[k * MODBYTES + i] == b[k * MODBYTES + i]
  {
    BlocksAt(Coeffs(x), enc, k, i);
  }

  // ---------------------------------------------------------------------
  // The two methods

  /**
   * FP48.toBytes: field k of w receives coefficient k, copied byte by byte
   * from BIG.toBytes' buffer. On a buffer shorter than 48 fields the source
   * writes as far as the buffer reaches and then fails; `ok` is false then.
   */
  method ToBytes(x: Tower48, w: array<int8>, enc: nat -> Block) returns (ok: bool)
    modifies w
    ensures ok <==> w.Length >= 48 * MODBYTES
    ensures forall j :: 0 <= j < w.Length && j < 48 * MODBYTES ==> w[j] == Encoding(x, enc)[j]
    ensures forall j :: 48 * MODBYTES <= j < w.Length ==> w[j] == old(w[j])
  {
    var c := Coeffs(x);
    ghost var e := Encoding(x, enc);
    var k := 0;
    while k < 48
      invariant 0 <= k <= 48
      invariant k * MODBYTES <= w.Length
      invariant forall j :: 0 <= j < k * MODBYTES ==> w[j] == e[j]
      invariant forall j :: k * MODBYTES <= j < w.Length ==> w[j] == old(w[j])
    {
      var t := enc(c[k]);
      var base := k * MODBYTES;
      SlotBound(k, 48);
      var i := 0;
      while i < MODBYTES
        invariant 0 <= i <= MODBYTES
        invariant base + i <= w.Length
        invariant forall j :: 0 <= j < base + i ==> w[j] == e[j]
        invariant forall j :: base + i <= j < w.Length ==> w[j] == old(w[j])
      {
        if base + i >= w.Length {
          // out of bounds: Java's toBytes throws ArrayIndexOutOfBoundsException here
          return false;
        }
        BlocksAt(c, enc, k, i);
        w[base + i] := t[i];
        i := i + 1;
      }
      assert base + MODBYTES == (k + 1) * MODBYTES;
      k := k + 1;
    }
    return true;
  }

  /**
   * FP48.fromBytes: field k of w is copied into a MODBYTES-byte buffer and
   * decoded as coefficient k; the tower is then built from the coefficients.
   */
  method FromBytes(w: array<int8>, dec: Block -> nat) returns (r: Option<Tower48>)
    ensures r == Decode(w[..], dec)
  {
    var c: seq<nat> := [];
    var t := new int8[MODBYTES];
    var k := 0;
    while k < 48
      invariant 0 <= k <= 48
      invariant |c| == k
      invariant forall m :: 0 <= m < k ==> m * MODBYTES + MODBYTES <= w.Length
      invariant forall m :: 0 <= m < k ==> c[m] == dec(Field(w[..], m))
    {
      SlotBound(k, 48);
      var ok := CopyField(w, t, k * MODBYTES);
      if !ok {
        // out of bounds: Java's fromBytes throws ArrayIndexOutOfBoundsException here
        return None;
      }
      c := c + [dec(t[..])];
      k := k + 1;
    }
    ghost var b := w[..];
    assert 47 * MODBYTES + MODBYTES == 48 * MODBYTES;
    assert c == seq(48, m requires 0 <= m < 48 => FieldValue(b, m, dec));
    return Some(Build(c));
  }

  /** The copy loop of fromBytes for one field, failing where it would read past w. */
  method CopyField(w: array<int8>, t: array<int8>, base: nat) returns (ok: bool)
    requires t.Length == MODBYTES && t != w
    modifies t
    ensures ok <==> base + MODBYTES <= w.Length
    ensures ok ==> t[..] == w[base..base + MODBYTES]
  {
    var i := 0;
    while i < MODBYTES
      invariant 0 <= i <= MODBYTES
      invariant i == 0 || base + i <= w.Length
      invariant forall j :: 0 <= j < i ==> t[j] == w[base + j]
    {
      if base + i >= w.Length {
        return false;
      }
      t[i] := w[base + i];
      i := i + 1;
    }
    return true;
  }
}
