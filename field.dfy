// The finite prime field of pkg/field/field.go.  A field is the value of its
// order `p`; the straight-line operations are functions, the ones the source
// writes as loops (Canonicalize, Inverse, InverseBig, Exponentiate) are
// methods proved against the function that specifies them.
module Field {
  import opened Wrappers
  import opened Numbers
  import Fermat

  /** The number of bits Exponentiate scans. */
  const BIT_LENGTH: nat := 64

  datatype Finite = Finite(p: i64)

  datatype FieldError =
    | NotInvertible(i: int)
    | UnsupportedField(p: int)
    | NotSquare(i: int)

  /** The orders the arithmetic is defined for: below 2 the 128-bit division can fault. */
  predicate Valid(f: Finite)
  {
    2 <= f.p
  }

  function NewFinite(p: i64): (f: Finite)
    ensures P(f) == p
    ensures Valid(f) <==> p >= 2
  {
    Finite(p)
  }

  /** The order of the field, at least 2 exactly for the fields the arithmetic is defined for. */
  function P(f: Finite): (p: i64)
    ensures Valid(f) <==> p >= 2
  {
    f.p
  }

  function Element(f: Finite, i: int): (b: bool)
    ensures b <==> 0 <= i < f.p
  {
    if i < 0 then false
    else if i >= f.p then false
    else true
  }

  /** The canonical representative of `i`: the element congruent to it. */
  function Canonical(f: Finite, i: int): (r: int)
    requires f.p > 0
    ensures Element(f, r)
    ensures (r - i) % f.p == 0
    ensures Element(f, i) ==> r == i
  {
    ModSelfDiff(i, f.p);
    if 0 <= i < f.p then ModSmall(i, f.p); i % f.p else i % f.p
  }

  /** Reduces `i` with Go's `%` when it is at least `p`, else adds `p` until it is not negative. */
  method Canonicalize(f: Finite, i: i64) returns (r: i64)
    requires f.p > 0
    ensures r == Canonical(f, i)
    ensures i >= f.p ==> r == i % f.p
  {
    if i >= f.p {
      QuoRem(i, f.p);
      r := Rem(i, f.p);
    } else {
      r := i;
      while r < 0
        invariant i <= r < f.p
        invariant r % f.p == i % f.p
        decreases 0 - r as int
      {
        ModMultiple(r, 1, f.p);
        r := r + f.p;
      }
      ModSmall(r, f.p);
    }
  }

  /** `canonicalize` on a big integer: `big.Int.Mod` is already Euclidean. */
  function CanonicalizeBig(f: Finite, z: int): (r: int)
    requires f.p > 0
    ensures r == Canonical(f, z)
  {
    var m := z % f.p;
    if m < 0 then m + f.p else m
  }

  /** The operand Go hands to the 128-bit arithmetic: `i + p` for negative `i`, read as `uint64`. */
  function Wrap(f: Finite, i: i64): (w: int)
    requires Valid(f)
    ensures 0 <= w < TWO_64
    ensures -f.p < i ==> w % f.p == i % f.p && (i < f.p ==> w < f.p)
  {
    var lifted: i64 := if i < 0 then i + f.p else i;
    ModMultiple(i, 1, f.p);
    U64(lifted)
  }

  /** `bits.Add64` followed by `bits.Div64`; the carry word is below `p`, so the division never faults. */
  function Add(f: Finite, i: i64, j: i64): (r: i64)
    requires Valid(f)
    ensures Element(f, r)
    ensures r == (Wrap(f, i) + Wrap(f, j)) % f.p
    ensures -f.p < i && -f.p < j ==> r == (i + j) % f.p
  {
    var total := Wrap(f, i) + Wrap(f, j);
    var sum, carry := total % TWO_64, total / TWO_64;
    ModAdd(Wrap(f, i), Wrap(f, j), f.p);
    ModAdd(i, j, f.p);
    (carry * TWO_64 + sum) % f.p
  }

  /** `bits.Div64` panics unless the high word of the 128-bit product is below `p`. */
  predicate MulFits(f: Finite, i: i64, j: i64)
    requires Valid(f)
  {
    Wrap(f, i) * Wrap(f, j) < f.p * TWO_64
  }

  /** One factor in `(-p, p)` is enough for the product to fit. */
  lemma MulFitsReduced(f: Finite, i: i64, j: i64)
    requires Valid(f) && -f.p < i < f.p
    ensures MulFits(f, i, j) && MulFits(f, j, i)
  {
    MulStrict(Wrap(f, i), Wrap(f, j), f.p, TWO_64);
    assert Wrap(f, j) * Wrap(f, i) == Wrap(f, i) * Wrap(f, j);
  }

  /** `bits.Mul64` followed by `bits.Div64`. */
  function Multiply(f: Finite, i: i64, j: i64): (r: i64)
    requires Valid(f) && MulFits(f, i, j)
    ensures Element(f, r)
    ensures r == (Wrap(f, i) * Wrap(f, j)) % f.p
    ensures -f.p < i && -f.p < j ==> r == (i * j) % f.p
  {
    var product := Wrap(f, i) * Wrap(f, j);
    var hi, lo := product / TWO_64, product % TWO_64;
    ModMul(Wrap(f, i), Wrap(f, j), f.p);
    ModMul(i, j, f.p);
    (hi * TWO_64 + lo) % f.p
  }

  // ---------------------------------------------------------------------
  // Inverses

  /**
    * The extended Euclidean loop on `(t, newT, r, newR)`, returning the final
    * `(t, r)`.  `truncated` selects Go's `int64` quotient (Inverse) or
    * `big.Int.Div`'s Euclidean quotient (InverseBig).
    */
  function EuclidLoop(truncated: bool, t: int, newT: int, r: int, newR: int): (int, int)
    decreases Abs(newR)
  {
    if newR == 0 then (t, r)
    else
      var q := if truncated then Quo(r, newR) else r / newR;
      StepShrinks(truncated, r, newR, q);
      EuclidLoop(truncated, newT, t - q * newT, newR, r - q * newR)
  }

  /** Either quotient leaves a remainder smaller than the divisor. */
  lemma StepShrinks(truncated: bool, r: int, newR: int, q: int)
    requires newR != 0 && q == if truncated then Quo(r, newR) else r / newR
    ensures Abs(r - q * newR) < Abs(newR)
  {
    if truncated {
      QuoRem(r, newR);
      assert q * newR == newR * Quo(r, newR);
    } else {
      EuclidRem(r, newR);
    }
  }

  /** What Inverse computes: the loop started on `(0, 1, p, i % p)`; a final remainder above 1 is a failure. */
  function ModInverse(f: Finite, i: int): (res: Result<int, FieldError>)
    requires Valid(f)
    ensures res.Ok? ==> Element(f, res.value)
    ensures res.Err? ==> res.error == NotInvertible(i)
  {
    var (t, r) := EuclidLoop(true, 0, 1, f.p, Rem(i, f.p));
    if r > 1 then Err(NotInvertible(i)) else Ok(Canonical(f, t))
  }

  /** What InverseBig computes: the same loop with Euclidean quotients, canonicalized as a big integer. */
  function ModInverseBig(f: Finite, i: int): (res: Result<int, FieldError>)
    requires Valid(f)
    ensures res.Ok? ==> Element(f, res.value)
    ensures res.Err? ==> res.error == NotInvertible(i)
  {
    var (t, r) := EuclidLoop(false, 0, 1, f.p, Rem(i, f.p));
    if r > 1 then Err(NotInvertible(i)) else Ok(CanonicalizeBig(f, t))
  }

  method Inverse(f: Finite, i: i64) returns (res: Result<int, FieldError>)
    requires Valid(f)
    ensures res == ModInverse(f, i)
  {
    var t, r, newT, newR := 0, f.p as int, 1, Rem(i, f.p);
    while newR != 0
      invariant EuclidLoop(true, t, newT, r, newR) == EuclidLoop(true, 0, 1, f.p, Rem(i, f.p))
      decreases Abs(newR)
    {
      QuoRem(r, newR);
      var q := Quo(r, newR);
      t, newT := newT, t - q * newT;
      r, newR := newR, r - q * newR;
    }
    if r > 1 {
      return Err(NotInvertible(i));
    }
    var c := Canonical(f, t);
    res := Ok(c);
  }

  method InverseBig(f: Finite, i: i64) returns (res: Result<int, FieldError>)
    requires Valid(f)
    ensures res == ModInverseBig(f, i)
  {
    var t, r, newT, newR := 0, f.p as int, 1, Rem(i, f.p);
    while newR != 0
      invariant EuclidLoop(false, t, newT, r, newR) == EuclidLoop(false, 0, 1, f.p, Rem(i, f.p))
      decreases Abs(newR)
    {
      EuclidRem(r, newR);
      var q := r / newR;
      t, newT := newT, t - q * newT;
      r, newR := newR, r - q * newR;
    }
    if r > 1 {
      return Err(NotInvertible(i));
    }
    res := Ok(CanonicalizeBig(f, t));
  }

  /** One step of the loop keeps `t * a ≡ r (mod p)`. */
  lemma EuclidStep(p: int, a: int, t: int, newT: int, r: int, newR: int, q: int)
    requires p > 0 && (t * a - r) % p == 0 && (newT * a - newR) % p == 0
    ensures ((t - q * newT) * a - (r - q * newR)) % p == 0
  {
    assert (t - q * newT) * a - (r - q * newR) == (-q) * (newT * a - newR) + (t * a - r);
    DividesLinear(p, newT * a - newR, t * a - r, -q);
  }

  /**
    * On non-negative remainders the loop computes the gcd of its remainders and
    * keeps the Bezout relation `t * a ≡ r (mod p)`; both quotient rules agree.
    */
  lemma {:induction false} EuclidInvariant(truncated: bool, p: int, a: int, t: int, newT: int, r: nat, newR: nat)
    requires p > 0 && (t * a - r) % p == 0 && (newT * a - newR) % p == 0
    ensures EuclidLoop(truncated, t, newT, r, newR) == EuclidLoop(!truncated, t, newT, r, newR)
    ensures EuclidLoop(truncated, t, newT, r, newR).1 == Gcd(r, newR)
    ensures (EuclidLoop(truncated, t, newT, r, newR).0 * a - Gcd(r, newR)) % p == 0
    decreases newR
  {
    if newR != 0 {
      QuoRem(r, newR);
      var q := r / newR;
      assert Quo(r, newR) == q;
      EuclidRem(r, newR);
      EuclidStep(p, a, t, newT, r, newR, q);
      assert r - q * newR == r % newR;
      assert Gcd(r, newR) == Gcd(newR, r % newR);
      assert EuclidLoop(truncated, t, newT, r, newR) == EuclidLoop(truncated, newT, t - q * newT, newR, r % newR);
      assert EuclidLoop(!truncated, t, newT, r, newR) == EuclidLoop(!truncated, newT, t - q * newT, newR, r % newR);
      EuclidInvariant(truncated, p, a, newT, t - q * newT, newR, r % newR);
    }
  }

  /** For `0 <= a < p` the gcd does not depend on the argument order. */
  lemma GcdSwap(a: nat, p: nat)
    requires a < p
    ensures Gcd(a, p) == Gcd(p, a)
  {
    ModSmall(a, p);
  }

  /** A Bezout coefficient of `i mod p` is an inverse of `i` once reduced. */
  lemma InverseOfResidue(p: int, i: int, t: int)
    requires p >= 2 && (t * (i % p) - 1) % p == 0
    ensures (i * (t % p)) % p == 1
  {
    var a := i % p;
    var k := (t * a - 1) / p;
    assert t * a - 1 == k * p;
    DivModUnique(t * a, k, 1, p);
    ModMod(i, p);
    ModMod(t, p);
    ModMulCongruent(i, a, t % p, t, p);
    assert a * t == t * a;
  }

  /**
    * For a non-negative `i`, Inverse succeeds exactly when `i mod p` is coprime
    * to `p`, and then returns the element `t` with `i * t ≡ 1 (mod p)`;
    * InverseBig agrees with it there.
    */
  lemma InverseMeaning(f: Finite, i: int)
    requires Valid(f) && 0 <= i
    ensures ModInverse(f, i).Ok? <==> Gcd(i % f.p, f.p) == 1
    ensures ModInverse(f, i).Ok? ==> (i * ModInverse(f, i).value) % f.p == 1
    ensures ModInverseBig(f, i) == ModInverse(f, i)
  {
    var p := f.p as int;
    var a := i % p;
    QuoRem(i, p);
    assert Rem(i, p) == a;
    assert (0 * a - p) % p == 0 by { DivModUnique(-p, -1, 0, p); }
    assert (1 * a - a) % p == 0;
    EuclidInvariant(true, p, a, 0, 1, p, a);
    var res := EuclidLoop(true, 0, 1, p, a);
    GcdSwap(a, p);
    GcdDivides(p, a);
    assert res.1 == Gcd(a, p);
    if res.1 == 1 {
      InverseOfResidue(p, i, res.0);
    }
  }

  // ---------------------------------------------------------------------
  // Exponentiation and square roots

  /** The running power after `b` rounds of the square-and-multiply scan. */
  lemma ExponentStep(f: Finite, i0: int, e: nat, b: nat, r: int, base: int, set_: bool)
    requires Valid(f)
    requires r % f.p == Pow(i0, e % Pow2(b)) % f.p
    requires base % f.p == Pow(i0, Pow2(b)) % f.p
    requires set_ <==> (e / Pow2(b)) % 2 == 1
    ensures (if set_ then r * base else r) % f.p == Pow(i0, e % Pow2(b + 1)) % f.p
    ensures (base * base) % f.p == Pow(i0, Pow2(b + 1)) % f.p
  {
    var p := f.p as int;
    ModDouble(e, Pow2(b));
    assert Pow2(b + 1) == 2 * Pow2(b);
    var low := e % Pow2(b);
    PowAdd(i0, Pow2(b), Pow2(b));
    ModMulCongruent(base, Pow(i0, Pow2(b)), base, Pow(i0, Pow2(b)), p);
    if set_ {
      assert e % Pow2(b + 1) == low + Pow2(b);
      PowAdd(i0, low, Pow2(b));
      ModMulCongruent(r, Pow(i0, low), base, Pow(i0, Pow2(b)), p);
    } else {
      assert e % Pow2(b + 1) == low;
    }
  }

  /** One round of Exponentiate keeps both loop invariants. */
  lemma ExponentRound(f: Finite, i0: int, j: i64, b: nat, r: i64, base: i64)
    requires Valid(f) && -f.p < r < f.p && -f.p < base < f.p
    requires MulFits(f, r, base) && MulFits(f, base, base)
    requires r % f.p == Pow(i0, U64(j) % Pow2(b)) % f.p
    requires base % f.p == Pow(i0, Pow2(b)) % f.p
    ensures var r' := if Bit(j, b) then Multiply(f, r, base) else r;
      r' % f.p == Pow(i0, U64(j) % Pow2(b + 1)) % f.p
    ensures Multiply(f, base, base) % f.p == Pow(i0, Pow2(b + 1)) % f.p
  {
    ExponentStep(f, i0, U64(j), b, r, base, Bit(j, b));
    ModMod(r * base, f.p);
    ModMod(base * base, f.p);
  }

  /** Square-and-multiply over the 64 bits of `j`; panics unless `i < p` and `j < p`. */
  method Exponentiate(f: Finite, i: i64, j: i64) returns (r: i64)
    requires Valid(f) && -f.p < i < f.p && j < f.p
    ensures Element(f, r)
    ensures r == Pow(i, U64(j)) % f.p
  {
    r := 1;
    var base := i;
    var b := 0;
    ModSmall(1, f.p);
    ModSmall(0, Pow2(0));
    while b < BIT_LENGTH
      invariant 0 <= b <= BIT_LENGTH
      invariant -f.p < r < f.p && -f.p < base < f.p
      invariant r % f.p == Pow(i, U64(j) % Pow2(b)) % f.p
      invariant base % f.p == Pow(i, Pow2(b)) % f.p
    {
      MulFitsReduced(f, r, base);
      MulFitsReduced(f, base, base);
      ExponentRound(f, i, j, b, r, base);
      if Bit(j, b) {
        r := Multiply(f, r, base);
      }
      base := Multiply(f, base, base);
      b := b + 1;
    }
    ExponentDone(f, i, j, r);
    r := Canonicalize(f, r);
  }

  lemma ExponentDone(f: Finite, i: int, j: i64, r: int)
    requires Valid(f) && -f.p < r < f.p
    requires r % f.p == Pow(i, U64(j) % Pow2(BIT_LENGTH)) % f.p
    ensures r % f.p == Pow(i, U64(j)) % f.p
  {
    Pow2Word();
    ModSmall(U64(j), Pow2(64));
  }

  /**
    * The square root for `p ≡ 3 (mod 4)`: `x = i^((p+1)/4)`, accepted only if
    * `x * x` gives back `i`.  Panics for `i >= p`.
    */
  function Sqrt(f: Finite, i: i64): (res: Result<int, FieldError>)
    requires Valid(f) && -f.p < i < f.p
    ensures f.p % 4 != 3 <==> res == Err(UnsupportedField(f.p))
    ensures f.p % 4 == 3 && i == 0 ==> res == Ok(0)
    ensures res.Ok? ==> Element(f, res.value) && (res.value * res.value) % f.p == i
    ensures res.Err? && f.p % 4 == 3 ==> res.error == NotSquare(i)
  {
    var rem := f.p % 4;
    if rem != 3 then Err(UnsupportedField(f.p))
    else if i == 0 then Ok(0)
    else
      var e := (f.p + 1) / 4;
      var x: i64 := Pow(i, e) % f.p;
      MulFitsReduced(f, x, x);
      var j := Multiply(f, x, x);
      if i == j then Ok(Canonical(f, x)) else Err(NotSquare(i))
  }

  /**
    * Sqrt over a prime order `p ≡ 3 (mod 4)` finds a root of every quadratic
    * residue `i = y^2`, and the root it returns is `y` or `-y`.  Euler's
    * criterion: `x = i^((p+1)/4)` squares to `y^(p+1) = y^2 · y^(p-1) ≡ y^2`.
    */
  lemma SqrtFindsRoot(f: Finite, i: i64, y: int)
    requires Valid(f) && Prime(f.p) && f.p % 4 == 3
    requires 0 <= i < f.p && (y * y) % f.p == i
    ensures Sqrt(f, i).Ok?
    ensures (Sqrt(f, i).value - y) % f.p == 0 || (Sqrt(f, i).value + y) % f.p == 0
  {
    if i != 0 {
      EulerSquare(f.p, i, y);
    }
    var v := Sqrt(f, i).value;
    SquareRootsAgree(f.p, v, y);
  }

  /** `(i^((p+1)/4))^2 ≡ i` for a nonzero square `i` modulo a prime `p ≡ 3 (mod 4)`. */
  lemma EulerSquare(p: int, i: int, y: int)
    requires Prime(p) && p % 4 == 3 && i != 0 && (y * y) % p == i
    ensures var x := Pow(i, (p + 1) / 4) % p; (x * x) % p == i
  {
    var e := (p + 1) / 4;
    var n := 2 * (2 * e);
    QuarterExponent(p, e);
    SquareOfPower(p, i, e);
    PowMod(y * y, 2 * e, p);
    PowSquare(y, 2 * e);
    RootNotMultiple(p, y, i);
    FermatSquare(p, y, n);
  }

  lemma QuarterExponent(p: int, e: int)
    requires p % 4 == 3 && e == (p + 1) / 4
    ensures 2 * (2 * e) == p + 1
  {
  }

  lemma SquareOfPower(p: int, i: int, e: nat)
    requires p > 0
    ensures var x := Pow(i, e) % p; (x * x) % p == Pow(i, 2 * e) % p
  {
    var w := Pow(i, e);
    ModMod(w, p);
    ModMulCongruent(w % p, w, w % p, w, p);
    PowAdd(i, e, e);
  }

  /** `y^(p+1) ≡ y^2` modulo a prime `p` not dividing `y`. */
  lemma FermatSquare(p: int, y: int, n: nat)
    requires Prime(p) && y % p != 0 && n == p + 1
    ensures Pow(y, n) % p == (y * y) % p
  {
    PowAdd(y, p - 1, 2);
    PowSmall(y);
    Fermat.Fermat(y, p);
    ModSmall(1, p);
    ModMulCongruent(Pow(y, p - 1), 1, y * y, y * y, p);
  }

  /** A root of a non-zero residue is not a multiple of the modulus. */
  lemma RootNotMultiple(p: int, y: int, i: int)
    requires p > 0 && i != 0 && (y * y) % p == i
    ensures y % p != 0
  {
    if y % p == 0 {
      var q := y / p;
      assert y == q * p;
      assert y * y == 0 + (q * y) * p;
      ModMultiple(0, q * y, p);
    }
  }

  /** Two square roots of the same residue modulo a prime are equal or opposite. */
  lemma SquareRootsAgree(p: int, v: int, y: int)
    requires Prime(p) && (v * v) % p == (y * y) % p
    ensures (v - y) % p == 0 || (v + y) % p == 0
  {
    ModEqual(v * v, y * y, p);
    assert v * v - y * y == (v - y) * (v + y);
    EuclidLemma(p, v - y, v + y);
  }
}
