# FP48 of the BLS48 curve, modelled in Dafny

`FP48` is the degree-48 extension field of the BLS48 pairing. It is built as
a cubic extension FP16[w]/(w^3 - XI), and an element is held as three FP16
coefficients (a, b, c) that every operation updates in place. This project
models that class in four parts:

- **The ring layer** (`fp16.dfy`, `fp48.dfy`, class `Fp48.FP48`). It covers
  construction, copying, the zero/unity/equality tests, the conditional move,
  conjugation, the Granger-Scott unitary squaring, the Chung-Hasan squaring,
  the Karatsuba-style multiplication and the adjugate inversion.
  - FP16 is modelled as a commutative ring: the integers.
  - `times_i` is multiplication by a constant XI whose value is left open.
  - mul and sqr are proved equal to the schoolbook product. That product is
    proved to be the polynomial product reduced by w^3 = XI.
  - inverse is proved to give x * x^-1 = 1 whenever FP16's inverse inverts the
    norm.
- **Constant-time helpers** (`constant_time.dfy`): `teq`, `cmove` and the
  window lookup `select`. Java `int` values are 32-bit words (`bv32`). The
  model follows Java's arithmetic exactly: the sign mask `b >> 31`, the
  magnitude `(b ^ m) - m`, and division by 2 that truncates toward zero.
- **The exponentiations** (`group.dfy`, `recoding.dfy`, `exponent.dfy`,
  `multi_exp.dfy`): `pow`, `pinpow` and the side-channel-resistant
  `pow16 = q[0]^u[0] ... q[15]^u[15]` of Bos-Costello / Faz-Hernandez-Longa-Sanchez.
  - They run in a free abelian group. An element is its exponent vector over
    the bases, `mul` adds vectors, `usqr` doubles them and `conj` (the inverse
    of a unitary element) negates them.
  - `pow` is proved to compute x^e for e >= 1; for e = 0 it returns x itself
    (see Findings).
  - `pinpow` is proved to compute x^(e mod 2^bts) for 0 <= bts <= 32. For
    larger bts Java's shift distance `e >> i` wraps mod 32, and the exponent
    is the one `PinPow`'s contract gives: pinpow(1, 33) raises x to 2^32 + 1.
    For bts <= 0 it returns x^0, except for bts = -2^31: there Java's
    `bts - 1` wraps to 2^31 - 1 and the ladder runs 2^31 rungs.
  - `pow16` works on arrays, as the source does: it builds the four window
    tables, makes the leading exponents odd, takes the bit length, computes the
    sign pivot, recodes the exponents, runs the constant-time main loop and
    applies the correction. It is proved to return exactly the product
    q[0]^u[0] ... q[15]^u[15].
- **Serialisation** (`serial.dfy`): `toBytes` and `fromBytes` over the
  48-coefficient tower layout FP48 → FP16 → FP8 → FP4 → FP2 → BIG. Both
  directions use the same slot order and the same byte offsets. They round-trip
  whenever BIG's own byte codec does.

The widths of BIG (`NBITS = NLEN * BASEBITS`, `MODBYTES`) are symbolic
constants in `big.dfy`, so every result holds for any curve's choice of them.

## Model

| member | source | states |
|---|---|---|
| Fp48.FP48.FromFp16 | src/main/java/org/apache/milagro/amcl/BLS48/FP48.java:135-140 | FP48(d) is the subfield element d + 0w + 0w^2 |
| Fp48.FP48.FromInt | src/main/java/org/apache/milagro/amcl/BLS48/FP48.java:142-147 | FP48(int d) is the integer d embedded in the subfield |
| Fp48.FP48.FromParts | src/main/java/org/apache/milagro/amcl/BLS48/FP48.java:149-154 | FP48(d, e, f) is d + e w + f w^2 |
| Fp48.FP48.Copy | src/main/java/org/apache/milagro/amcl/BLS48/FP48.java:156-161 | the copy constructor gives a new object with x's value |
| Fp48.FP48.Reduce | src/main/java/org/apache/milagro/amcl/BLS48/FP48.java:30-35 | reduce leaves the field value unchanged |
| Fp48.FP48.Norm | src/main/java/org/apache/milagro/amcl/BLS48/FP48.java:38-43 | norm leaves the field value unchanged |
| Fp48.FP48.IsZilch | src/main/java/org/apache/milagro/amcl/BLS48/FP48.java:45-48 | true exactly when all three coefficients are zero |
| Fp48.FP48.IsUnity | src/main/java/org/apache/milagro/amcl/BLS48/FP48.java:89-92 | true exactly when the element is 1: a = 1, b = c = 0 |
| Fp48.FP48.Equals | src/main/java/org/apache/milagro/amcl/BLS48/FP48.java:94-97 | true exactly when the two values agree coefficient by coefficient |
| Fp48.FP48.CMove | src/main/java/org/apache/milagro/amcl/BLS48/FP48.java:50-55 | with d = 1 this takes g's value (read before the write, so g may be this); with d = 0 nothing changes |
| Fp48.FP48.CopyFrom | src/main/java/org/apache/milagro/amcl/BLS48/FP48.java:114-119 | this takes x's value |
| Fp48.FP48.One | src/main/java/org/apache/milagro/amcl/BLS48/FP48.java:121-126 | this becomes 1 |
| Fp48.FP48.Conj | src/main/java/org/apache/milagro/amcl/BLS48/FP48.java:128-133 | a and c pass through FP16 conj and b through FP16 nconj |
| Fp48.ConjInvolution | src/main/java/org/apache/milagro/amcl/BLS48/FP48.java:128-133 | conj applied twice is the identity when FP16's two conjugations are involutions |
| Fp48.FP48.USqr | src/main/java/org/apache/milagro/amcl/BLS48/FP48.java:164-200 | the new value is (3a^2 + 2 nconj(a), 2 conj(b) + 3 XI c^2, 3b^2 + 2 nconj(c)), Granger-Scott's squaring formula for unitary elements |
| Fp48.FP48.Sqr | src/main/java/org/apache/milagro/amcl/BLS48/FP48.java:203-241 | the Chung-Hasan steps leave x * x, the schoolbook square |
| Fp48.FP48.Mul | src/main/java/org/apache/milagro/amcl/BLS48/FP48.java:244-304 | the Karatsuba steps leave x * y, also when y is this object |
| Fp48.ProductIsReducedPolynomialProduct | src/main/java/org/apache/milagro/amcl/BLS48/FP48.java:244-304 | the product is the product of the two quadratics in w, reduced by w^3 = XI |
| Fp48.ProductCommutes | src/main/java/org/apache/milagro/amcl/BLS48/FP48.java:244-304 | x * y = y * x |
| Fp48.ProductIdentity | src/main/java/org/apache/milagro/amcl/BLS48/FP48.java:244-304 | 1 is a two-sided identity of the product |
| Fp48.FP48.Inverse | src/main/java/org/apache/milagro/amcl/BLS48/FP48.java:400-439 | the result is the adjugate (f0, f1, f2) scaled by FP16's inverse of the norm f3 |
| Fp48.NormIsCubicNorm | src/main/java/org/apache/milagro/amcl/BLS48/FP48.java:400-439 | f3 = a^3 + XI b^3 + XI^2 c^3 - 3 XI abc, the norm from FP48 to FP16 |
| Fp48.AdjugateProduct | src/main/java/org/apache/milagro/amcl/BLS48/FP48.java:400-439 | x times its adjugate is f3 with no w or w^2 part |
| Fp48.InverseIsInverse | src/main/java/org/apache/milagro/amcl/BLS48/FP48.java:400-439 | if n inverts f3 then x times inverse's result is 1 |
| ConstTime.Teq | src/main/java/org/apache/milagro/amcl/BLS48/FP48.java:59-64 | teq is 0 or 1; it is 1 exactly when b = c or b ^ c exceeds 2^31; on non-negative arguments it is equality |
| ConstTime.TeqMinusOneZero | src/main/java/org/apache/milagro/amcl/BLS48/FP48.java:59-64 | on negative arguments teq is not equality: teq(-1, 0) = 1 |
| ConstTime.MagnitudeRange | src/main/java/org/apache/milagro/amcl/BLS48/FP48.java:69-70 | (b ^ m) - m is at most 2^31 and is 0 only for b = 0 |
| ConstTime.TableIndex | src/main/java/org/apache/milagro/amcl/BLS48/FP48.java:69-72 | the index (abs(b) - 1) / 2 is a non-negative Java int |
| ConstTime.LookupAt | src/main/java/org/apache/milagro/amcl/BLS48/FP48.java:74-81 | for an index n below 8 the eight conditional moves leave exactly g[n] |
| ConstTime.LookupAbove | src/main/java/org/apache/milagro/amcl/BLS48/FP48.java:74-81 | for an index of 8 or more no move fires |
| ConstTime.SelectedAt | src/main/java/org/apache/milagro/amcl/BLS48/FP48.java:67-86 | select leaves g[(abs(b) - 1) / 2] when that index is below 8, conjugated exactly when b is negative |
| ConstTime.SelectedOutside | src/main/java/org/apache/milagro/amcl/BLS48/FP48.java:67-86 | for an index of 8 or more select keeps the old value, conjugated when b is negative |
| ConstTime.SelectedOdd | src/main/java/org/apache/milagro/amcl/BLS48/FP48.java:67-86 | for odd b in -15..15: entry (b - 1) / 2 for positive b, the conjugate of entry (-b - 1) / 2 for negative b |
| Fp48.FP48.LookupMoves | src/main/java/org/apache/milagro/amcl/BLS48/FP48.java:74-81 | the loop of conditional moves computes the lookup, also when this object is one of the table entries |
| Fp48.FP48.Select | src/main/java/org/apache/milagro/amcl/BLS48/FP48.java:67-86 | the object's new value is the branch-free selection over the table's values, conjugation by FP48.conj |
| Fp48.FP48.LookupStep | src/main/java/org/apache/milagro/amcl/BLS48/FP48.java:74-81 | move k of the lookup, cmove(g[k], teq(b, k)), extends the object's value from the first k conditional moves to the first k + 1, also when g[k] is this object |
| Exponent.Pow | src/main/java/org/apache/milagro/amcl/BLS48/FP48.java:789-814 | for e >= 1 the result is x^e; for e = 0 it is x itself |
| Exponent.PowStep | src/main/java/org/apache/milagro/amcl/BLS48/FP48.java:801-809 | one pass squares and multiplies by x or its conjugate, taking the exponent from bit i + 1 on to bit i on |
| Exponent.AccumulatedStep | src/main/java/org/apache/milagro/amcl/BLS48/FP48.java:800-809 | the exponent held doubles and gains bit_i(3e) - bit_i(e) in each pass |
| Exponent.AccumulatedTop | src/main/java/org/apache/milagro/amcl/BLS48/FP48.java:797-800 | before the loop the exponent held is 1 (nbits(3e) >= 2) |
| Exponent.AccumulatedEnd | src/main/java/org/apache/milagro/amcl/BLS48/FP48.java:800-810 | after the pass for bit 1 the exponent held is e |
| Exponent.ZeroPowerIsNotInput | src/main/java/org/apache/milagro/amcl/BLS48/FP48.java:797-800 | for x other than 1, x^0 differs from x, the value pow(0) returns |
| Exponent.PowChecked | src/main/java/org/apache/milagro/amcl/BLS48/FP48.java:789-814 | pow with e = 0 answered by 1 gives x^e for every e |
| Exponent.PinPow | src/main/java/org/apache/milagro/amcl/BLS48/FP48.java:817-830 | the ladder returns x raised to the number the bits i0 .. 0 of e spell, where i0 is Java's 32-bit bts - 1: x^0 when i0 < 0, and for bts = -2^31, where i0 wraps to 2^31 - 1, the full 2^31-rung ladder |
| Exponent.Dec32 | src/main/java/org/apache/milagro/amcl/BLS48/FP48.java:822 | `bts - 1` in 32-bit arithmetic: within the int range and congruent to bts - 1 mod 2^32 |
| Exponent.PinPowMinBts | src/main/java/org/apache/milagro/amcl/BLS48/FP48.java:822-825 | for bts = -2^31 and e = 1 the ladder runs over 2^31 bits and its exponent is odd, so pinpow does not return x^0 |
| Exponent.LadderParity | src/main/java/org/apache/milagro/amcl/BLS48/FP48.java:825-827 | a nonempty ladder's exponent has the parity of bit 0 of e, the last bit it reads |
| Exponent.Rung | src/main/java/org/apache/milagro/amcl/BLS48/FP48.java:825-827 | a rung on (x^k, x^(k+1)) with bit b gives (x^(2k+b), x^(2k+b+1)) |
| Exponent.LadderIsMod | src/main/java/org/apache/milagro/amcl/BLS48/FP48.java:823-825 | for bts <= 32 the ladder's exponent is e mod 2^bts, for negative e too |
| Exponent.LadderBits | src/main/java/org/apache/milagro/amcl/BLS48/FP48.java:823-825 | the bits read by (e >> i) & 1 from bit n up spell the word's bits n .. bts - 1 |
| Exponent.LadderSplit | src/main/java/org/apache/milagro/amcl/BLS48/FP48.java:823-825 | the ladder's exponent over bits n .. bts - 1 is the part below bit m plus 2^(m - n) times the part from bit m on |
| Exponent.LadderPeriodic | src/main/java/org/apache/milagro/amcl/BLS48/FP48.java:825 | since the shift distance is taken mod 32, the ladder over bits n + 32 .. bts + 31 spells the same number as over bits n .. bts - 1 |
| Exponent.LadderWraps | src/main/java/org/apache/milagro/amcl/BLS48/FP48.java:817-829 | for 32 <= bts <= 64 the ladder's exponent is e mod 2^32 plus 2^32 times (e mod 2^(bts - 32)), not e mod 2^bts |
| Exponent.PinPowWrapsAbove32 | src/main/java/org/apache/milagro/amcl/BLS48/FP48.java:817-829 | for e = 1 and bts = 33 the ladder's exponent is 2^32 + 1, while e mod 2^33 is 1 |
| MultiExp.FrobEntry | src/main/java/org/apache/milagro/amcl/BLS48/FP48.java:912-921 | frob(f, 4) applied to an entry of table k gives the same entry of table k + 1 |
| MultiExp.BuildFirstTable | src/main/java/org/apache/milagro/amcl/BLS48/FP48.java:903-910 | g1[m] is q[0] times q[1], q[2] and q[3] for the set bits of m |
| MultiExp.BuildTables | src/main/java/org/apache/milagro/amcl/BLS48/FP48.java:903-921 | every entry k, m of the four tables is q[4k] times q[4k+1], q[4k+2] and q[4k+3] for the set bits of m |
| MultiExp.MadeOdd | src/main/java/org/apache/milagro/amcl/BLS48/FP48.java:925-926 | t + (1 - parity(t)) is odd and is t or t + 1 |
| MultiExp.MakeOdd | src/main/java/org/apache/milagro/amcl/BLS48/FP48.java:924-939 | the four leading exponents are made odd, pb records which were even, the other twelve are untouched |
| MultiExp.OrAll | src/main/java/org/apache/milagro/amcl/BLS48/FP48.java:943-946 | the or of all exponents is at least each of them |
| MultiExp.OrAllBelow | src/main/java/org/apache/milagro/amcl/BLS48/FP48.java:943-946 | the or of values below 2^n is below 2^n |
| MultiExp.BitLength | src/main/java/org/apache/milagro/amcl/BLS48/FP48.java:942-947 | nb = 1 + nbits(or of the sixteen exponents) |
| MultiExp.BitLengthBounds | src/main/java/org/apache/milagro/amcl/BLS48/FP48.java:942-947 | nb fits the digit arrays (nb <= NBITS + 1) and every exponent is below 2^(nb - 1) |
| Recoding.NBitsBounds | src/main/java/org/apache/milagro/amcl/BLS48/FP48.java:947 | n lies in [2^(nbits(n) - 1), 2^nbits(n)) |
| Recoding.Or | src/main/java/org/apache/milagro/amcl/BLS48/FP48.java:945 | the bitwise or is at least each operand |
| Recoding.OrBelow | src/main/java/org/apache/milagro/amcl/BLS48/FP48.java:945 | the or of two values below 2^n is below 2^n |
| MultiExp.SignStep | src/main/java/org/apache/milagro/amcl/BLS48/FP48.java:955-956 | shifting t[4k] right once and writing 2 parity - 1 gives sign i of the pivot |
| MultiExp.SignColumn | src/main/java/org/apache/milagro/amcl/BLS48/FP48.java:954-962 | one column i of the sign pivot: each leading exponent t[4k] goes from T[k] / 2^i to T[k] / 2^(i+1), s[k][i] becomes sign i of T[k]'s sign string, and every other exponent and every other column of s is unchanged |
| MultiExp.SignPivot | src/main/java/org/apache/milagro/amcl/BLS48/FP48.java:949-964 | row k of s holds the sign string of the odd leading exponent t[4k]; the other exponents are untouched |
| Recoding.SignsAt | src/main/java/org/apache/milagro/amcl/BLS48/FP48.java:954-962 | sign i is 2 bit_(i+1)(t) - 1, the top sign is 1 |
| Recoding.SignsVal | src/main/java/org/apache/milagro/amcl/BLS48/FP48.java:949-964 | the signs spell t made odd: sum of s[i] 2^i = t - parity(t) + 1 |
| Recoding.Digit | src/main/java/org/apache/milagro/amcl/BLS48/FP48.java:971 | the digit s * parity(t) is 0 or s, and non-zero exactly when t is odd |
| Recoding.Next | src/main/java/org/apache/milagro/amcl/BLS48/FP48.java:972-973 | after fshr(1) and dec(bt >> 1) the residual r satisfies t = 2r + bt |
| Recoding.DigitsVal | src/main/java/org/apache/milagro/amcl/BLS48/FP48.java:967-1012 | the digit string of an exponent at most 2^(nb - 1) spells that exponent exactly |
| Recoding.DigitsAt | src/main/java/org/apache/milagro/amcl/BLS48/FP48.java:970-977 | digit i is the digit of the residual the loop holds before column i |
| MultiExp.RecodeDigit | src/main/java/org/apache/milagro/amcl/BLS48/FP48.java:971-974 | bt is the digit of t[j] and t[j] becomes the residual; nothing else changes |
| MultiExp.PartialWindowBound | src/main/java/org/apache/milagro/amcl/BLS48/FP48.java:975-976 | the window after j digits lies strictly between -2^(j-1) and 2^(j-1), so it fits a byte |
| MultiExp.WindowStep | src/main/java/org/apache/milagro/amcl/BLS48/FP48.java:975-976 | w += bt * k with k = 2^(j-1) adds digit j to the window, which stays in (-8, 8) |
| MultiExp.RecodeGroup | src/main/java/org/apache/milagro/amcl/BLS48/FP48.java:968-977 | one group's pass over column i advances its three exponents by one digit and returns their window d1 + 2 d2 + 4 d3 |
| MultiExp.RecodeCell | src/main/java/org/apache/milagro/amcl/BLS48/FP48.java:968-977 | group k's cell at column i: w[k][i] becomes the window that the digit strings of the original exponents give, the exponents step from the residuals before group k to those after it, and every other cell of w and column i of s are unchanged |
| MultiExp.RecodeColumn | src/main/java/org/apache/milagro/amcl/BLS48/FP48.java:967-1012 | one column of the recoding: the four groups' windows are written and the residuals advanced |
| MultiExp.Recode | src/main/java/org/apache/milagro/amcl/BLS48/FP48.java:966-1012 | w[k][i] is the window of group k's digits at column i, as the digit strings of the original exponents define it |
| MultiExp.PositiveWindow | src/main/java/org/apache/milagro/amcl/BLS48/FP48.java:903-910 | for sign 1 the window names the table entry holding exactly the bases whose digit is set |
| MultiExp.NegativeWindow | src/main/java/org/apache/milagro/amcl/BLS48/FP48.java:903-910 | for sign -1 the conjugate of the entry at the negated window is the right product of inverses |
| MultiExp.WindowSelected | src/main/java/org/apache/milagro/amcl/BLS48/FP48.java:1026-1033 | select(g_k, 2 w + s) returns the product of the four bases of group k raised to (s, d1, d2, d3) |
| MultiExp.ColumnSelected | src/main/java/org/apache/milagro/amcl/BLS48/FP48.java:1026-1033 | the same for column i of the recoded exponent |
| MultiExp.SelectWindow | src/main/java/org/apache/milagro/amcl/BLS48/FP48.java:1026 | the selection for group k at column i is that column's factor |
| MultiExp.PartialStep | src/main/java/org/apache/milagro/amcl/BLS48/FP48.java:1027-1033 | multiplying in group k's factor extends the accumulated product by one group |
| MultiExp.PartialSquare | src/main/java/org/apache/milagro/amcl/BLS48/FP48.java:1025 | usqr moves the accumulator from column i + 1 to column i |
| MultiExp.AddColumn | src/main/java/org/apache/milagro/amcl/BLS48/FP48.java:1026-1033 | the four select/mul pairs of one column multiply in that column's four factors |
| MultiExp.TopColumn | src/main/java/org/apache/milagro/amcl/BLS48/FP48.java:1016-1022 | the top column, whose signs are all 1, starts the product |
| MultiExp.MainLoop | src/main/java/org/apache/milagro/amcl/BLS48/FP48.java:1015-1035 | the main loop leaves base l raised to the value of digit stream l, for all sixteen l |
| MultiExp.StreamValues | src/main/java/org/apache/milagro/amcl/BLS48/FP48.java:924-1012 | the digit streams spell u[l], with each leading exponent made odd |
| MultiExp.CorrectStep | src/main/java/org/apache/milagro/amcl/BLS48/FP48.java:1038-1040 | multiplying by conj(q[4k]) under pb takes the exponent of q[4k] from its odd form back to u[4k] |
| MultiExp.Correct | src/main/java/org/apache/milagro/amcl/BLS48/FP48.java:1037-1052 | after the four corrections the result is exactly q^u |
| MultiExp.Prepare | src/main/java/org/apache/milagro/amcl/BLS48/FP48.java:897-947 | the exponents are copied and made odd, pb recorded, and nb bounds every exponent |
| MultiExp.RecodeAll | src/main/java/org/apache/milagro/amcl/BLS48/FP48.java:888-1012 | the sign and window arrays hold the pivot and the recoded windows of u |
| MultiExp.Pow16 | src/main/java/org/apache/milagro/amcl/BLS48/FP48.java:877-1056 | for exponents below 2^NBITS, pow16 returns exactly q[0]^u[0] ... q[15]^u[15] |
| Serial.Build | src/main/java/org/apache/milagro/amcl/BLS48/FP48.java:474-671 | the nested constructors of fromBytes place the 48 coefficients so that flattening gives them back in order |
| Serial.BuildCoeffs | src/main/java/org/apache/milagro/amcl/BLS48/FP48.java:474-779 | rebuilding an element from its flattened coefficients gives the element back |
| Serial.CoeffsAt | src/main/java/org/apache/milagro/amcl/BLS48/FP48.java:674-779 | slot 16t + 8p + 4q + 2r + s holds the coefficient reached through a/b/c, then geta or getb three times, then getA or getB |
| Serial.EncodingAt | src/main/java/org/apache/milagro/amcl/BLS48/FP48.java:674-779 | toBytes writes coefficient k to the bytes [k MODBYTES, (k + 1) MODBYTES) |
| Serial.Decode | src/main/java/org/apache/milagro/amcl/BLS48/FP48.java:474-671 | fromBytes fails exactly on a buffer shorter than 48 MODBYTES; otherwise slot k is decoded from the bytes [k MODBYTES, (k + 1) MODBYTES) |
| Serial.DecodeEncoding | src/main/java/org/apache/milagro/amcl/BLS48/FP48.java:474-779 | fromBytes(toBytes(x)) is x with every coefficient passed through BIG's own round trip |
| Serial.RoundTrip | src/main/java/org/apache/milagro/amcl/BLS48/FP48.java:474-779 | when BIG's codec round-trips on x's coefficients, fromBytes(toBytes(x)) = x |
| Serial.EncodingDecode | src/main/java/org/apache/milagro/amcl/BLS48/FP48.java:474-779 | toBytes(fromBytes(b)) = b for a buffer of 48 MODBYTES bytes whose fields BIG's codec round-trips |
| Serial.ToBytes | src/main/java/org/apache/milagro/amcl/BLS48/FP48.java:674-779 | the first 48 MODBYTES bytes of w become the encoding; a shorter w receives the part that fits and the call fails |
| Serial.FromBytes | src/main/java/org/apache/milagro/amcl/BLS48/FP48.java:474-671 | the slot-by-slot copy loop computes Decode of the buffer, failing on a short buffer |
| Serial.CopyField | src/main/java/org/apache/milagro/amcl/BLS48/FP48.java:483 | the copy of one field succeeds exactly when the field lies inside w, and then copies it byte for byte |

## Left out

- `smul`, `frob`, `trace`, `compow` and `toString` are not part of this model, and neither are the getters `geta`/`getb`/`getc`.
- FP16 arithmetic is not modelled. FP16 is a commutative ring (the integers) with a symbolic non-residue XI. FP16's `conj`, `nconj` and `inverse` are function parameters, and `reduce`/`norm` keep the value.
- Fp48.FP48.USqr: only the formula is stated. That it equals `sqr` on unitary elements depends on FP16's conjugations, which are not modelled. The exponentiations therefore take usqr to be squaring.
- Fp48.FP48.Mul: associativity of the FP48 product is not proved. The exponentiations run in a free abelian group of exponent vectors, and that group model supplies it. Only the unitary elements that pairing code passes to these routines behave like that group, with conj as the inverse.
- MultiExp.Pow16: the sixteen bases are free generators. `frob(f, 4)` is modelled as the shift q[j] → q[4 + j], which holds when the caller passes q[4k + j] = frob^(4k)(q[j]), as the algorithm assumes. The Frobenius constants (`ROM.Fra`, `ROM.Frb`) are not modelled.
- MultiExp.Pow16: the source writes the four groups out one after another. The model loops over the groups in the recoding, the column multiplications and the top column, and keeps the four steps of the sign pivot explicit.
- MultiExp.Pow16: the source's initial `p = FP48(0)` is modelled as the identity. It is overwritten by the first `select`, whose index is always in range. The final `p.reduce()` does not change the value and is not modelled.
- MultiExp.Pow16: the byte arrays `s` and `w` hold small values (signs and windows in -7..7), so Java's byte arithmetic never wraps there. They are `int8` arrays and the windows are proved to lie in (-8, 8).
- MultiExp.Pow16: the exponents must be normalised BIGs below 2^NBITS, which is what the digit arrays of length NBITS + 1 allow for.
- Constant-time behaviour (no secret-dependent branches or memory accesses) is not a property Dafny can state. The model keeps `teq` and `select`'s sign mask, magnitude and index arithmetic as Java's 32-bit bit-vector code and proves what it computes. `cmove` is modelled by its effect (a move when the flag is 1, none when it is 0), because FP48.cmove only delegates to FP16.cmove, whose masking lies behind the FP16 abstraction.
- Exponent.LadderIsMod: holds only for 0 <= bts <= 32. Java reads bit i as `(e >> i) & 1`, and the shift distance wraps mod 32, so for larger bts the exponent is not e mod 2^bts; Exponent.LadderWraps states what it is for 32 <= bts <= 64 and Exponent.PinPowWrapsAbove32 gives the input e = 1, bts = 33. The model states this behaviour as Java has it.
- Exponent.Pow: the BIG exponent is a natural number. `nbits`, `bit`, `pmul(3)` and `norm` are modelled on its value, not on BIG's limbs.
- Serialisation works on a separate layout type of 48 BIG values, because the ring model of FP16 has no coefficient layout. BIG.toBytes and BIG.fromBytes are parameters; the round-trip lemmas take BIG's own round trip as a hypothesis.
- Serial.ToBytes, Serial.FromBytes: the source throws `ArrayIndexOutOfBoundsException` on a short buffer. The model returns `false` or `None` instead, after the same partial writes. The 48 unrolled blocks are a loop over the slots. Bytes are Java's signed bytes (`int8`).
- Serial.FromBytes: the source builds the tower as it reads. The model collects the 48 coefficients and then applies the same constructors (`Build`).
- Clocks, randomness, I/O and concurrency play no part in this class.

## Findings

| source | as written | input that shows it | evidently intended | confidence | as-written member | corrected member |
|---|---|---|---|---|---|---|
| src/main/java/org/apache/milagro/amcl/BLS48/FP48.java:797-812 | `pow` starts from w = this and loops from nbits(3e) - 2 down to 1; for e = 0, nbits(0) = 0, so no pass runs and the result is this | e = 0 and any x other than 1: pow returns x, not x^0 = 1 | return 1 for the zero exponent | not executed | Exponent.Pow, Exponent.ZeroPowerIsNotInput | Exponent.PowChecked |
