# sigsim in Dafny

sigsim is a toy for learning elliptic-curve signatures on curves small enough to
enumerate. It has three layers:

- a prime field `F_p` whose elements are `int64` values;
- a short-Weierstrass curve `y^2 = x^3 + ax + b` over that field, with the
  identity as a flagged point. The curve can add points, multiply by a scalar,
  list every point, and find a point's order by counting or by baby-step
  giant-step;
- ECDSA over a base point of order `n`: truncating a digest, making keys,
  signing with a given nonce, verifying, and recovering the secret key from two
  signatures that share a nonce.

This project models those layers and proves what they compute. It has these
modules:

- `Wrappers` holds `Option` and `Result`.
- `Numbers` holds the integer facts the rest uses: `int64` and its `uint64`
  reading, powers, gcd and Bezout, primes, products, and modular arithmetic.
- `Field` models `pkg/field/field.go`.
- `Primes` models the trial-division factoriser of `pkg/math/prime.go`.
- `Curve`, `CurvePoints`, `CurveOrder` and `CurveGroup` model `pkg/ec/curve.go`.
  `CurveGroup` holds the consequences of the group law that the curve code and
  ECDSA rely on.
- `Ecdsa` models `pkg/ecdsa/sign.go`.
- `Vectors` checks values that the repository's tests pin.

**Form.** The source's loops are methods proved against specification
functions:

- `Canonicalize` against `Canonical`;
- `Inverse`/`InverseBig` against the recursive Euclid `ModInverse`;
- `Exponentiate` against `Pow(i, j) mod p`;
- `ScalarM` against the double-and-add `ScalarMul`;
- the bit scan in `NewCurve`;
- `PrimeFactors`, `Points`, `Order`, `OrderBG` and `approxOrder`.

The code that only composes calls (field addition and multiplication, curve
addition, signing, verification, key recovery) becomes functions.

**Integer width.** `int64` is the subset type `i64`. The field's `Add` and
`Multiply` lift a negative operand by `p` once and then read the result as
`uint64`, as the Go code does. An operand at or below `-p` therefore wraps
modulo `2^64` instead of being reduced.

## Model

| member | source | states |
|---|---|---|
| Field.P | pkg/field/field.go:37-40 | the order read back from the field is at least 2 exactly when the field is usable |
| Field.NewFinite | pkg/field/field.go:30-40 | the field's modulus reads back through `P`, and the field is usable (`p >= 2`) exactly when the modulus is at least 2 |
| Field.Element | pkg/field/field.go:43-53 | true exactly for `0 <= i < p` |
| Field.Canonical | pkg/field/field.go:57-78 | the canonical representative is an element, congruent to the input, and equal to it when the input already is an element |
| Field.Canonicalize | pkg/field/field.go:57-67 | for `i >= p` the result is `i mod p`; below `p` the loop adds `p` only while the value is negative; either way it ends at the canonical representative, so an element comes back unchanged |
| Field.CanonicalizeBig | pkg/field/field.go:70-78 | big-integer Euclidean reduction gives the same canonical representative |
| Field.Add | pkg/field/field.go:81-93 | the sum is an element; it is the `uint64` reading of each lifted operand, summed mod `p`; for operands above `-p` it is `(i + j) mod p` |
| Field.Multiply | pkg/field/field.go:96-108 | the product is an element; it is the 128-bit product of the `uint64` readings mod `p`; for operands above `-p` it is `(i * j) mod p` |
| Field.MulFitsReduced | pkg/field/field.go:96-108 | an operand in `(-p, p)` keeps the 128-bit product's high word below `p`, so `bits.Div64` does not panic |
| Field.ModInverse | pkg/field/field.go:146-165 | the extended Euclid loop yields an element or the error naming the input |
| Field.Inverse | pkg/field/field.go:146-165 | the `int64` loop computes ModInverse |
| Field.InverseBig | pkg/field/field.go:115-142 | the big-integer loop computes ModInverseBig |
| Field.EuclidInvariant | pkg/field/field.go:123-141 | the loop keeps `t·a ≡ r (mod p)` and ends on `gcd(r, newR)`; truncating and Euclidean quotients agree on non-negative remainders |
| Field.InverseMeaning | pkg/field/field.go:115-165 | for `i >= 0`: an inverse exists iff `gcd(i mod p, p) = 1`; when it does, `i · inverse ≡ 1`; the `int64` and big-integer versions agree |
| Field.ExponentRound | pkg/field/field.go:180-186 | one round of square-and-multiply extends the exponent by one bit: `r ≡ i^(j mod 2^(b+1))` and `base ≡ i^(2^(b+1))` |
| Field.Exponentiate | pkg/field/field.go:169-189 | the 64-round loop returns `i^j mod p`, `j` read as `uint64` |
| Field.ExponentDone | pkg/field/field.go:169-189 | after all 64 bits the partial power is the full power |
| Fermat.Fermat | pkg/field/field.go:196-229 | Fermat's little theorem, which the `p ≡ 3 (mod 4)` square root relies on: `a^(p-1) ≡ 1 (mod p)` for a prime `p` not dividing `a` |
| Fermat.ScaledPermutes | pkg/field/field.go:196-229 | for a prime `p` not dividing `a`, `a·1, ..., a·(p-1)` mod `p` is a permutation of `1, ..., p-1` |
| Field.SqrtFindsRoot | pkg/field/field.go:196-229 | for a prime `p ≡ 3 (mod 4)`, every square `i = y^2 mod p` gets a root, and that root is `y` or `-y` mod `p` |
| Field.Sqrt | pkg/field/field.go:193-229 | fails with `UnsupportedField` exactly when `p ≢ 3 (mod 4)`; 0 is its own root; a returned root is an element squaring to `i`; any other failure names `i` as a non-square |
| Primes.PrimeFactors | pkg/math/prime.go:5-29 | the returned factors are all prime, in non-decreasing order, and multiply to `n` |
| Primes.TrialRound | pkg/math/prime.go:15-21 | dividing out an odd candidate keeps the factoring invariant and leaves no divisor below the next odd candidate |
| Primes.DivideOut | pkg/math/prime.go:9-12 | repeated division by `d` appends only copies of `d`, keeps the product and leaves a rest that `d` does not divide |
| Primes.Residual | pkg/math/prime.go:24-26 | once the candidate's square passes the rest, the rest is 1 or a prime at least the candidate |
| Primes.CofactorPrime | pkg/math/prime.go:15-26 | a rest with no divisor below a candidate whose square exceeds it is prime |
| Primes.SmallestDivisorPrime | pkg/math/prime.go:15-21 | the smallest divisor found by trial division is prime |
| Primes.FactorListEdges | pkg/math/prime.go:5-29 | a prime factor list is empty exactly for 1, and for a prime `n` it is `[n]` |
| Numbers.PrimeMultiplicity | pkg/math/prime.go:5-29 | in a list of primes, each prime `f` occurs as many times as `f` divides the product |
| Curve.Equal | pkg/ec/curve.go:27-37 | true exactly for identical points |
| Curve.Discriminant | pkg/ec/curve.go:132-143 | `4a^3 + 27b^2` over the integers vanishes only for `a <= 0` with `a` and `b` both zero or both non-zero, and does vanish at `a = b = 0`; so for non-negative coefficients it is zero exactly when `a = b = 0` |
| Curve.BitSize | pkg/ec/curve.go:98-106 | the bit scan gives 64 for a negative modulus, 0 below 2, and otherwise the bit length: `2^(bs-1) <= p < 2^bs` |
| Curve.NewCurve | pkg/ec/curve.go:83-124 | rejects `a` that is not an element, then `b` that is not an element, then a zero discriminant, each with its own error; otherwise returns the curve with those coefficients, no base point, `n = 0` and the bit length of `p` |
| Curve.Valid | pkg/ec/curve.go:383-395 | true exactly for the identity or a point satisfying `y^2 ≡ x^3 + ax + b (mod p)` |
| Curve.RightSide | pkg/ec/curve.go:290-307 | the field evaluation of `x^3 + ax + b` is its residue mod `p` |
| Curve.Y | pkg/ec/curve.go:290-307 | a returned ordinate is an element on the curve at `x` that Valid accepts; a failure names `x`; when no ordinate in `[0, p)` fits, it fails |
| Curve.YFindsRoot | pkg/ec/curve.go:290-307 | for a prime `p ≡ 3 (mod 4)`, an abscissa with some point `(x, y)` on the curve gets an ordinate, and it is `y` or `-y` mod `p` |
| Curve.Slope | pkg/ec/curve.go:323-351 | no slope exactly when the denominator (`2y` or `x2 - x1`) has no inverse mod `p`; otherwise an element `m` with `m·den ≡ num` |
| Curve.Chord | pkg/ec/curve.go:353-361 | the sum for slope `m` has element coordinates and satisfies `x3 ≡ m^2 - x1 - x2`, `y3 ≡ m(x1 - x3) - y1` |
| Curve.Add | pkg/ec/curve.go:311-322 | the identity on either side returns the other point; the result stays within bounds |
| Curve.AddMeaning | pkg/ec/curve.go:311-362 | the sum of finite points is the identity exactly when the slope's denominator is not invertible; otherwise it is the reflected third intersection for a slope of the line (the tangent when the points are equal) |
| Curve.ScalarM | pkg/ec/curve.go:368-380 | the 64-round double-and-add loop computes ScalarMul |
| Curve.ScalarMul | pkg/ec/curve.go:368-380 | the ladder's result stays within bounds, and `0·P` is the identity |
| Curve.LadderZero | pkg/ec/curve.go:368-380 | with no bits set the ladder leaves its accumulator as it is, whatever the number of rounds |
| Curve.LadderRepeat | pkg/ec/curve.go:368-380 | under the group law, a ladder that starts from multiples of `P` ends on the multiple LadderCount gives |
| Curve.LadderCountValue | pkg/ec/curve.go:368-380 | the ladder over `n` bits adds `(k mod 2^n)` times the doubled point |
| Curve.ScalarMulRepeat | pkg/ec/curve.go:368-380 | under the group law on `P`'s multiples, `k·P` by the ladder is `P` added to itself `k` times |
| CurvePoints.AllPointsMeaning | pkg/ec/curve.go:185-228 | a point belongs to the curve's points exactly when it is the identity or has element coordinates and Valid accepts it |
| CurvePoints.Points | pkg/ec/curve.go:185-228 | always includes the identity and only curve points; for `p ≢ 3 (mod 4)` it is every point; for `p ≡ 3 (mod 4)` it is the square-root pairs; for a prime `p` it is every point |
| CurvePoints.PointsComplete | pkg/ec/curve.go:185-228 | either branch's set holds the identity and only curve points, and for a prime `p` all of them |
| CurvePoints.GridInRoots | pkg/ec/curve.go:194-210 | for a prime `p ≡ 3 (mod 4)` the square-root branch finds every curve point with abscissa below the scan's end |
| CurvePoints.RootFound | pkg/ec/curve.go:194-210 | every finite curve point is in the pair the square-root branch records at its abscissa |
| CurvePoints.Column | pkg/ec/curve.go:213-219 | trying every `y` at `x` adds exactly the curve points in that column |
| CurvePoints.RootStep | pkg/ec/curve.go:194-210 | one abscissa adds Y's root and its negation `p - y` when Valid accepts |
| CurvePoints.RootPair | pkg/ec/curve.go:194-210 | what the square-root branch records are curve points at `x`: Y's root when there is one, and its negation `p - y` when the root is not 0; nothing when Y fails |
| CurvePoints.NegationOnCurve | pkg/ec/curve.go:203-207 | `(x, p - y)` is on the curve with `(x, y)` |
| CurvePoints.RootsInGrid | pkg/ec/curve.go:194-210 | the square-root branch lists only curve points |
| CurveOrder.Order | pkg/ec/curve.go:416-455 | returns the first `i >= 1` with `(i + 1)·P = P`, or nothing where the source panics once the count passes `4p` |
| CurveOrder.OrderIsOrder | pkg/ec/curve.go:416-455 | under the group law on `P`'s multiples and an odd modulus, the count Order returns is the order of `P`: that multiple is the identity and no smaller positive multiple is |
| CurveOrder.ReturnIsIdentity | pkg/ec/curve.go:423-443 | the multiple at which the running sum comes back to `P` is the identity |
| CurveOrder.NoFiniteIdempotent | pkg/ec/curve.go:323-337 | over an odd modulus, doubling a finite point never gives the same point |
| CurveOrder.FirstReturnMeaning | pkg/ec/curve.go:423-443 | a returned count is the first return to `P`; no count means no return up to the bound |
| CurveOrder.FirstReturnBeforeIdentity | pkg/ec/curve.go:423-443 | before the first return to `P`, no multiple of `P` is the identity |
| CurveOrder.BabySteps | pkg/ec/curve.go:481-483 | a fresh table of `m` points whose `j`-th entry is `j·P`, so its abscissas are the baby steps |
| CurveOrder.GiantStep | pkg/ec/curve.go:555 | the candidate is the point `(p + 1)·P + (2km)·P` the scan compares |
| CurveOrder.FirstMatch | pkg/ec/curve.go:557-569 | returns the first table index whose abscissa equals the candidate's, or none |
| CurveOrder.TryGiant | pkg/ec/curve.go:552-569 | a hit at giant step `k` is the scan's answer there, reported with `p + 1 + 2km`; a miss moves the scan to `k + 1` |
| CurveOrder.ApproxOrder | pkg/ec/curve.go:546-586 | returns the first giant step and the first baby step that match, as `(p + 1 + 2km, j)`, and nothing when no pair matches |
| CurveOrder.ScanMeaning | pkg/ec/curve.go:552-569 | the scan's hit is the first matching pair in scan order; no hit means no pair matches |
| CurveOrder.MatchFromMeaning | pkg/ec/curve.go:557-569 | the inner scan's hit is the first matching index; no hit means no index matches |
| CurveOrder.ChooseSign | pkg/ec/curve.go:515-522 | picks `mp + j` when that multiple is the identity, else `mp - j`; either is at least 1 |
| CurveOrder.Minimise | pkg/ec/curve.go:524-541 | the reduced value is between 1 and `mp`; it annihilates `P` whenever `mp` does; it annihilates `P` whenever it is smaller than `mp` |
| CurveOrder.OrderBG | pkg/ec/curve.go:472-544 | fails exactly when no giant step matches; otherwise the result lies in `[1, mp']` for the chosen `mp' = mp ± j`, annihilates `P` when `mp'` does, and annihilates `P` when it is smaller |
| CurveGroup.RepeatPeriodic | pkg/ec/curve.go:368-380 | once `n·P` is the identity, multiples repeat with period `n` |
| CurveGroup.PrimeOrderNonzero | pkg/ec/curve.go:524-541 | for a prime `n` with `n·P` the identity and `P` finite, no multiple strictly between 0 and `n` is the identity |
| CurveGroup.ScalarMulOfMultiple | pkg/ec/curve.go:368-380 | ScalarM by `k` of `d·P` is `(k·d)·P` |
| CurveGroup.SumOfMultiples | pkg/ecdsa/sign.go:160 | `a·G + b·(d·G)` is `(a + b·d mod n)·G` |
| CurveGroup.RepeatFiniteOrIdentity | pkg/ec/curve.go:311-362 | multiples of a finite point are finite or exactly the identity |
| Ecdsa.Truncate | pkg/ecdsa/sign.go:203-220 | the truncated digest lies in `[0, 2^bs)` |
| Ecdsa.TruncateLeadingBits | pkg/ecdsa/sign.go:203-220 | the result is the big-endian value of the whole digest shifted right to its leading `bs` bits |
| Ecdsa.BigEndian | pkg/ecdsa/sign.go:212 | the big-endian reading of `n` bytes is below `256^n` |
| Ecdsa.BigEndianAppend | pkg/ecdsa/sign.go:212 | reading bytes big-endian is positional: `a ++ b` reads as `a·256^k + b` where `k` is the length of `b` |
| Ecdsa.GenerateKey | pkg/ecdsa/sign.go:29-40 | keeps the secret and curve, and the public point is `d·G` |
| Ecdsa.PublicKeyValid | pkg/ecdsa/sign.go:29-40 | on a base point of prime order, a secret in `[1, n)` gives a public point that is finite, on the curve and annihilated by `n` |
| Ecdsa.RawSign | pkg/ecdsa/sign.go:91-116 | a signature has both halves in `[1, n)`, and `r` is the abscissa of `k·G` reduced mod `n` |
| Ecdsa.RawSignMeaning | pkg/ecdsa/sign.go:91-116 | signing fails exactly when `r = 0`, `k` is not invertible mod `n`, or `z + r·d ≡ 0`; otherwise `s·k ≡ z + r·d (mod n)` |
| Ecdsa.SignValue | pkg/ecdsa/sign.go:106-113 | a value the `s` step returns lies in `[1, n)` |
| Ecdsa.SignFrom | pkg/ecdsa/sign.go:110 | `k⁻¹·(z + r·d)` is an element of the field mod `n` |
| Ecdsa.SignValueMeaning | pkg/ecdsa/sign.go:106-113 | the `s` step fails exactly when `k` has no inverse or `z + r·d ≡ 0`; otherwise it solves the signing equation |
| Ecdsa.SameNonce | pkg/ecdsa/sign.go:91-116 | two signatures with one nonce share `r`, and share `s` exactly when the digests agree mod `n` |
| Ecdsa.Verify | pkg/ecdsa/sign.go:119-169 | acceptance implies a finite public point on the curve that `n` annihilates, `r` and `s` in `[1, n)`, `s` invertible mod `n`, and a finite check point `u1·G + u2·P` whose abscissa is `r` mod `n` |
| Ecdsa.VerifyAccepts | pkg/ecdsa/sign.go:119-169 | the converse: Verify accepts when every check passes and `u1·G + u2·P` has abscissa `r` mod `n` |
| Ecdsa.CheckPoint | pkg/ecdsa/sign.go:157-160 | the check point is within bounds and is `(z·w mod n)·G + (r·w mod n)·P`, the field products written out |
| Ecdsa.CheckPointSum | pkg/ecdsa/sign.go:157-160 | against a public point `d·G`, the check point is the `(u1 + u2·d) mod n`-th multiple of `G` |
| Ecdsa.CheckPointOfSignature | pkg/ecdsa/sign.go:157-163 | for a valid signature and `w = s⁻¹`, `u1·G + u2·P` is `k·G` |
| Ecdsa.SignedVerifies | pkg/ecdsa/sign.go:119-169 | a signature satisfying the signing equation for the key's secret verifies |
| Ecdsa.SignThenVerify | pkg/ecdsa/sign.go:29-169 | on a base point of prime order, whatever RawSign returns for a key from GenerateKey, Verify accepts |
| Ecdsa.Negate | pkg/ecdsa/sign.go:178-191 | Go's `int64` negation, with the most negative value its own negation |
| Ecdsa.Recover | pkg/ecdsa/sign.go:171-199 | a recovered key is an element mod `n`; it fails on `s2 - s1` exactly when that difference has no inverse, on `r` exactly when the difference has one and `r` has none, and reports a mismatch only for two different keys; RecoverSound shows that a returned key signs both messages |
| Ecdsa.RecoverSound | pkg/ecdsa/sign.go:185-198 | when Recover returns `d`, both signatures satisfy `s·k ≡ z + r·d` with one nonce `k`, so two keys that differ always give an error |
| Ecdsa.SolveAsWritten | pkg/ecdsa/sign.go:171-199 | a returned key lies in `[0, n)`, and for digests already below `n` it agrees with the corrected Solve |
| Ecdsa.Solve | pkg/ecdsa/sign.go:171-199 | a returned key lies in `[0, n)` |
| Ecdsa.RecoverKey | pkg/ecdsa/sign.go:171-199 | on reduced digests, two distinct signatures with one nonce recover the secret mod `n` |
| Ecdsa.RecoverNonce | pkg/ecdsa/sign.go:178-183 | `(z2 - z1)·(s2 - s1)⁻¹` is the shared nonce |
| Ecdsa.KeyFrom | pkg/ecdsa/sign.go:190-191 | `(s·k - z)·r⁻¹` through the field operations is an element mod `n`; KeyFromValue pins its value |
| Ecdsa.KeyFromValue | pkg/ecdsa/sign.go:190-191 | the field operations compute `((s·k mod n - z) mod n)·r⁻¹ mod n` for element operands |
| Ecdsa.RecoverKeyFrom | pkg/ecdsa/sign.go:185-191 | `(s·k - z)·r⁻¹` is the secret |
| Ecdsa.SolveRecovers | pkg/ecdsa/sign.go:171-199 | with digests reduced mod `n`, `solve` returns the secret of any two distinct signatures that share a nonce |
| Ecdsa.NonceReuseRevealsKey | pkg/ecdsa/sign.go:171-199 | two signatures RawSign makes with one nonce on digests that differ mod `n` give the secret back |
| Ecdsa.SolveAsWrittenWrongKey | pkg/ecdsa/sign.go:178-191 | on the example below, `solve` as written returns 207 where the secret is 5; the corrected `solve` returns 5 |
| Vectors.CanonicalOver89 | pkg/field/field.go:57-67 | over 89: `-1 → 88`, `157 → 68`, `89 → 0` |
| Vectors.AddOver97 | pkg/field/field.go:81-93 | over 97: `-40 + -38 = 19` |
| Vectors.TruncateTenBits | pkg/ecdsa/sign.go:203-220 | the leading 10 bits of `ab cd ef` are `0x2af` |
| Vectors.ChordOnC5 | pkg/ec/curve.go:338-361 | on `y^2 = x^3 + 2x + 3` over 5, `(1, 4) + (3, 1) = (2, 0)` |

## Left out

- Field.InverseMeaning: stated only for `i >= 0`. For a negative input the
  truncating Euclid loop can return a non-inverse: over 101, `Inverse(-1)`
  returns 1. The repository's tests pin that value, so it is behaviour, not a
  bug. The model computes it; the meaning lemma does not cover it.
- Field.Exponentiate: requires the base in `(-p, p)` and `j < p`. The source
  panics for a base or exponent at or above `p`. It accepts a base at or below
  `-p`, and that base wraps in `Multiply`; this case is not modelled.
- Field.Sqrt: requires the input in `(-p, p)` for the same reason. The source
  panics at or above `p`.
- Curve.Y and Curve.RightSide: require the abscissa in `(-p, p)`, where the
  source's `Exponentiate` neither panics nor wraps.
- Primes.PrimeFactors: requires `n >= 1`. For 0 the source's halving loop
  never ends. For a negative input it returns a list whose product is not the
  input (`-6` gives `[2]`).
- Primes.PrimeFactors: the loop test `i*i <= n` is on unbounded integers. In
  the source `i*i` is an `int64` and wraps once `i` passes 3037000499. When
  what is left of `n` after the small factors is at least `3037000499^2` and
  has no odd factor up to that bound, the source keeps looping on a negative
  square where the model stops and returns the rest as a prime.
- Field.Multiply: requires MulFits, which is exactly the condition under which
  `bits.Div64` does not panic (the 128-bit product's high word below `p`). The
  panicking inputs are not modelled.
- Curve.ScalarMulRepeat, CurveGroup lemmas, Ecdsa.SignedVerifies and
  Ecdsa.SignThenVerify: the group law on the base point's multiples, closure
  on the curve and the prime order of `G` are hypotheses (`MultiplesAdd`,
  `PrimeOrderBase`). They are not proved from the chord-and-tangent formulas.
  The source does not check them either.
- CurvePoints.Points: returns a set; the source copies the same set into a
  slice in map order. For `p ≡ 3 (mod 4)` and a composite `p` the result is
  proved to contain only curve points, not to contain all of them.
- CurveOrder.Order: the count is unbounded and the panic past `4p` is `None`.
  The progress printing and timing are left out.
- CurveOrder.OrderBG: the giant steps run in a single sequential scan. The
  source splits them over `Parallel` goroutines and takes whichever hit
  arrives first. A scan that never hits blocks forever in the source and is
  `None` here. The step count `m`, which the source derives from `p^(1/4)` in
  floating point, is a parameter. It is required to fit with the `int64`
  arithmetic and to be at most `p + 1`; the source's value always is.
- CurveOrder.OrderBG: the result is proved to annihilate `P` whenever the
  chosen multiple `mp ± j` does or the reduction shrank it; it is not proved to
  be `P`'s order, because the source does not always return the order. Minimise
  divides by each prime factor with floor division and does not check that the
  factor divides. Over `p = 41`, for a point of order 2 with `mp = 42` and
  factors `[2, 3, 7]`, it goes `42 → 14 → 4`, stops at `4 / 7 = 0` and returns
  4. The match also compares abscissas only, and the identity's abscissa is 0,
  so any point `(0, y)` matches a table entry for the identity.
- Ecdsa.Truncate: requires `0 <= bs <= 31` and a digest long enough for
  `(bs + 7) / 8` bytes. The source panics above 31 and on a short slice, and
  those paths are not modelled.
- Ecdsa.Verify: requires the digest to fit, even though the source returns
  before truncating when an earlier check fails.
- Ecdsa.CheckPoint: requires `r >= 0`, which Verify has established before it
  is reached.
- Ecdsa.Solve: requires `n >= 2` so that the field is usable. Its partner
  lemmas assume a prime `n`.
- Ecdsa.RecoverKeyFrom: requires `s` to be an element, as every signature is.
- The public `GenerateKey` and `Sign` draw random secrets and nonces and retry
  until `rawSign` succeeds. Randomness is left out. The model takes the secret
  and the nonce as parameters (`generateKey`, `rawSign`).
- `Curve.Verify` (a Miller–Rabin primality check), `CountPoints`,
  `RandomPoint`, `Valid2`, the demonstration curves, `compat.go`, the `cmd/`
  tools and all printing are not part of this model.
- The repository's tests that compute orders and point counts of concrete
  curves are not restated as vectors.

## Findings

| source | as written | input that shows it | evidently intended | confidence | as-written member | corrected member |
|---|---|---|---|---|---|---|
| pkg/ecdsa/sign.go:178-191 | `solve` passes the digests to the field's `Add` as `-z1` and `-z2` without reducing them. `Add` lifts a negative operand by `n` only once, so a digest above `n` wraps modulo `2^64` | `n = 233`, `bs = 8`, secret `d = 5`, nonce `k = 7`, `r = 100`; digest bytes `[240]` and `[10]` give `s1 = 139` and `s2 = 206`; `solve` returns 207. The repository's TestSolve (in `pkg/ecdsa/sign_test.go`, which is not part of this model) hashes its message with SHA-256, whose first byte 0xf5 = 245 is already above `n = 233`, while the second digest starts with 0x28 = 40. By the text, `solve` then computes `d1 = d2 = d + 64·s2·((s2 - s1)·r)⁻¹ mod 233` and returns it without an error, so that test case cannot return its expected `D = 23` | reduce the digests mod `n` before negating them, so that `solve` returns `d = 5` | not executed | Ecdsa.SolveAsWrittenWrongKey | Ecdsa.NonceReuseRevealsKey |
