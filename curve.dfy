// Short Weierstrass curves y^2 = x^3 + ax + b over a Field.Finite, after
// pkg/ec/curve.go: points, construction, the on-curve test, y-recovery, the
// chord-and-tangent addition and double-and-add scalar multiplication.
module Curve {
  import opened Wrappers
  import opened Numbers
  import Field

  /** A point; the identity element has `inf` set and its coordinates are then ignored by Add. */
  datatype Point = Point(x: i64, y: i64, inf: bool)

  /** Go's `Point{Inf: true}`. */
  const Identity: Point := Point(0, 0, true)

  datatype Curve = Curve(f: Field.Finite, a: i64, b: i64, g: Point, n: i64, bs: int)

  datatype CurveError =
    | InvalidCoefficientA(a: int)
    | InvalidCoefficientB(b: int)
    | SingularCurve(a: int, b: int)
    | NotOnCurve(x: int)

  /** `Point.Equal`: coordinates and the identity flag all match. */
  function Equal(p: Point, q: Point): (eq: bool)
    ensures eq <==> p == q
  {
    if p.x != q.x then false
    else if p.y != q.y then false
    else p.inf == q.inf
  }

  /** Finite coordinates lie in `(-p, p)`, where the field arithmetic does not fault. */
  predicate InBounds(c: Curve, p: Point)
  {
    p.inf || (-(c.f.p as int) < p.x < c.f.p && -(c.f.p as int) < p.y < c.f.p)
  }

  /** The coefficients as the field arithmetic sees them (negative ones are lifted once by `p`). */
  function CoefA(c: Curve): int
    requires Field.Valid(c.f)
  {
    Field.Wrap(c.f, c.a)
  }

  function CoefB(c: Curve): int
    requires Field.Valid(c.f)
  {
    Field.Wrap(c.f, c.b)
  }

  /** `y^2 ≡ x^3 + ax + b (mod p)`. */
  predicate OnCurve(c: Curve, x: int, y: int)
    requires Field.Valid(c.f)
  {
    (y * y - Cubic(c, x)) % c.f.p == 0
  }

  /** The right-hand side `x^3 + ax + b` over the integers. */
  function Cubic(c: Curve, x: int): int
    requires Field.Valid(c.f)
  {
    x * x * x + CoefA(c) * x + CoefB(c)
  }

  // ---------------------------------------------------------------------
  // Construction

  /**
    * `4a^3 + 27b^2` over the integers, not reduced mod `p`.  It vanishes
    * only when `a <= 0` and `a`, `b` are both zero or both nonzero, so for
    * non-negative coefficients only at `a = b = 0`.
    */
  function Discriminant(a: int, b: int): (d: int)
    ensures d == 0 ==> a <= 0 && (a == 0 <==> b == 0)
    ensures a == 0 && b == 0 ==> d == 0
  {
    PowSmall(a);
    PowSmall(b);
    CubeSquareZero(a, b);
    4 * Pow(a, 3) + 27 * Pow(b, 2)
  }

  lemma CubeSquareZero(a: int, b: int)
    ensures 4 * (a * a * a) + 27 * (b * b) == 0 ==> a <= 0 && (a == 0 <==> b == 0)
  {
    if b > 0 {
      MulLeft(1, b, b);
    } else if b < 0 {
      MulLeft(1, -b, -b);
    }
    if a > 0 {
      MulLeft(1, a, a);
      MulLeft(1, a * a, a);
    } else if a < 0 {
      MulLeft(1, -a, -a);
      MulLeft(a, -1, a * a);
    }
  }

  /**
    * The bit size of `p`: one more than its highest set bit among bits 63
    * down to 1, or 0 when there is none.
    */
  method BitSize(p: i64) returns (bs: int)
    ensures 0 <= bs <= 64 && bs != 1
    ensures p < 0 ==> bs == 64
    ensures 0 <= p < 2 ==> bs == 0
    ensures p >= 2 ==> BitSizeOf(p, bs)
  {
    bs := 0;
    var i := Field.BIT_LENGTH - 1;
    while i > 0
      invariant 0 <= i <= 63
      invariant forall k :: i < k < 64 ==> !Bit(p, k)
    {
      if Bit(p, i) {
        bs := i + 1;
        break;
      }
      i := i - 1;
    }
    BitSizeMeaning(p, bs);
  }

  /** `p` has exactly `bs` significant bits: `2^(bs-1) <= p < 2^bs`, with at least two. */
  predicate BitSizeOf(p: int, bs: int)
  {
    bs >= 2 && Pow2(bs - 1) <= p < Pow2(bs)
  }

  /** What the scan of BitSize finds, in terms of the value of `p`. */
  lemma BitSizeMeaning(p: i64, bs: int)
    requires 0 <= bs <= 64 && bs != 1
    requires bs > 0 ==> Bit(p, bs - 1) && forall i :: bs <= i < 64 ==> !Bit(p, i)
    requires bs == 0 ==> forall i :: 1 <= i < 64 ==> !Bit(p, i)
    ensures p < 0 ==> bs == 64
    ensures 0 <= p < 2 ==> bs == 0
    ensures p >= 2 ==> BitSizeOf(p, bs)
  {
    Pow2Word();
    if p >= 2 {
      HighestBit(p, bs);
    } else if p < 0 {
      DivModUnique(U64(p), 1, U64(p) - TWO_63, TWO_63);
      assert Bit(p, 63);
    } else if bs > 0 {
      Pow2Monotone(1, bs - 1);
      assert Pow2(1) == 2;
      BitAbove(p, bs - 1);
    }
  }

  /** For `p >= 2`, the highest set bit found by BitSize places `p` in `[2^(bs-1), 2^bs)`. */
  lemma HighestBit(p: i64, bs: int)
    requires p >= 2 && 0 <= bs <= 64 && bs != 1
    requires bs > 0 ==> Bit(p, bs - 1) && forall i :: bs <= i < 64 ==> !Bit(p, i)
    requires bs == 0 ==> forall i :: 1 <= i < 64 ==> !Bit(p, i)
    ensures BitSizeOf(p, bs)
  {
    Pow2Word();
    var b := HighestBitAt(p, 63);
    if bs == 0 {
      assert false;
    }
    if b < bs - 1 {
      assert false;
    }
    if b > bs - 1 {
      assert false;
    }
  }

  /**
    * The highest set bit of a value in `[2, 2^(top+1))`, with the bounds it
    * puts on the value.
    */
  lemma HighestBitAt(p: int, top: nat) returns (b: nat)
    requires 2 <= p < Pow2(top + 1) && p < TWO_63
    requires top <= 63
    ensures 1 <= b <= top && Bit(p, b) && Pow2(b) <= p < Pow2(b + 1)
    ensures forall i :: b < i < 64 ==> !Bit(p, i)
    decreases top
  {
    if top == 0 {
      assert false;
    }
    if p >= Pow2(top) {
      DivModUnique(p, 1, p - Pow2(top), Pow2(top));
      b := top;
      forall i | b < i < 64 ensures !Bit(p, i) {
        Pow2Monotone(top + 1, i);
        BitAbove(p, i);
      }
    } else {
      b := HighestBitAt(p, top - 1);
    }
  }

  /** Bits at or above the bit length of a non-negative value are clear. */
  lemma BitAbove(p: int, i: nat)
    requires 0 <= p < Pow2(i) && p < TWO_63
    ensures !Bit(p, i)
  {
    DivModUnique(p, 0, p, Pow2(i));
  }

  /** `NewCurve`: both coefficients must be field elements and the integer discriminant non-zero. */
  method NewCurve(f: Field.Finite, a: i64, b: i64) returns (res: Result<Curve, CurveError>)
    ensures !Field.Element(f, a) ==> res == Err(InvalidCoefficientA(a))
    ensures Field.Element(f, a) && !Field.Element(f, b) ==> res == Err(InvalidCoefficientB(b))
    ensures res.Ok? ==> res.value.f == f && res.value.a == a && res.value.b == b &&
                        res.value.g == Point(0, 0, false) && res.value.n == 0
    ensures res.Ok? && f.p >= 2 ==> BitSizeOf(f.p, res.value.bs)
    ensures Field.Element(f, a) && Field.Element(f, b) ==>
      (res.Err? <==> Discriminant(a, b) == 0) && (res.Err? ==> res.error == SingularCurve(a, b))
  {
    if !Field.Element(f, a) {
      res := Err(InvalidCoefficientA(a));
    } else if !Field.Element(f, b) {
      res := Err(InvalidCoefficientB(b));
    } else {
      var bs := BitSize(f.p);
      var c := Curve(f, a, b, Point(0, 0, false), 0, bs);
      if Discriminant(c.a, c.b) == 0 {
        res := Err(SingularCurve(a, b));
      } else {
        res := Ok(c);
      }
    }
  }

  // ---------------------------------------------------------------------
  // The curve equation

  /**
    * `Valid`: the identity, or a point satisfying the curve equation.  The
    * source raises `y` and `x` with Exponentiate, which panics unless `3 < p`.
    */
  function Valid(c: Curve, p: Point): (ok: bool)
    requires Field.Valid(c.f) && 3 < c.f.p && InBounds(c, p)
    ensures ok <==> p.inf || OnCurve(c, p.x, p.y)
  {
    if p.inf then true
    else
      var lhs: i64 := Pow(p.y, 2) % c.f.p;
      var rhs := RightSide(c, p.x);
      PowSmall(p.y);
      ModEqual(p.y * p.y, Cubic(c, p.x), c.f.p);
      lhs == rhs
  }

  /** `x^3 + ax + b` reduced mod `p`, as Valid and Y compute it. */
  function RightSide(c: Curve, x: i64): (r: i64)
    requires Field.Valid(c.f) && 3 < c.f.p && -(c.f.p as int) < x < c.f.p
    ensures Field.Element(c.f, r)
    ensures r == Cubic(c, x) % c.f.p
  {
    var p := c.f.p;
    var cube: i64 := Pow(x, 3) % p;
    Field.MulFitsReduced(c.f, x, c.a);
    var ax := Field.Multiply(c.f, c.a, x);
    var sum := Field.Add(c.f, cube, ax);
    var r := Field.Add(c.f, sum, c.b);
    assert cube == (x * x * x) % p by {
      PowSmall(x);
    }
    assert ax == (CoefA(c) * x) % p by {
      ModMulCongruent(CoefA(c), CoefA(c), Field.Wrap(c.f, x), x, p);
    }
    assert sum == (cube + ax) % p;
    assert r == (sum + CoefB(c)) % p;
    RightSideCongruent(p, x * x * x, CoefA(c) * x, CoefB(c), cube, ax, r);
    r
  }

  lemma RightSideCongruent(p: int, s: int, t: int, b: int, cube: int, ax: int, r: int)
    requires p > 0 && cube == s % p && ax == t % p
    requires r == ((cube + ax) % p + b) % p
    ensures r == (s + t + b) % p
  {
    var u := cube + ax;
    ModLeft(u, b, p);
    assert r == (u + b) % p;
    var v := ax + b;
    ModLeft(s, v, p);
    assert u + b == s % p + v;
    assert r == (s + v) % p;
    var w := s + b;
    ModLeft(t, w, p);
    assert s + v == t % p + w;
    assert r == (t + w) % p;
    assert t + w == s + t + b;
  }

  /** `Y`: a square root of `x^3 + ax + b`, or an error when Sqrt fails. */
  function Y(c: Curve, x: i64): (res: Result<int, CurveError>)
    requires Field.Valid(c.f) && 3 < c.f.p && -(c.f.p as int) < x < c.f.p
    ensures res.Ok? ==> Field.Element(c.f, res.value) && OnCurve(c, x, res.value)
    ensures res.Ok? ==> Valid(c, Point(x, res.value, false))
    ensures res.Err? ==> res.error == NotOnCurve(x)
    ensures (forall y :: 0 <= y < c.f.p ==> !OnCurve(c, x, y)) ==> res.Err?
  {
    var rhs := RightSide(c, x);
    match Field.Sqrt(c.f, rhs)
    case Err(_) => Err(NotOnCurve(x))
    case Ok(y) =>
      ModEqual(y * y, Cubic(c, x), c.f.p);
      Ok(y)
  }

  /**
    * Over a prime `p ≡ 3 (mod 4)` Y misses no abscissa: whenever `(x, y)` is
    * on the curve, Y returns `y` or its negation.
    */
  lemma YFindsRoot(c: Curve, x: i64, y: int)
    requires Field.Valid(c.f) && 3 < c.f.p && Prime(c.f.p) && c.f.p % 4 == 3
    requires -(c.f.p as int) < x < c.f.p && OnCurve(c, x, y)
    ensures Y(c, x).Ok?
    ensures (Y(c, x).value - y) % c.f.p == 0 || (Y(c, x).value + y) % c.f.p == 0
  {
    var rhs := RightSide(c, x);
    ModEqual(y * y, Cubic(c, x), c.f.p);
    ModMod(Cubic(c, x), c.f.p);
    Field.SqrtFindsRoot(c.f, rhs, y);
  }

  // ---------------------------------------------------------------------
  // Addition

  /** The slope's numerator: `3x^2 + a` when doubling, `y2 - y1` otherwise. */
  function Num(c: Curve, p: Point, q: Point): int
    requires Field.Valid(c.f)
  {
    if p == q then 3 * (p.x * p.x) + CoefA(c) else q.y - p.y
  }

  /** The slope's denominator: `2y` when doubling, `x2 - x1` otherwise. */
  function Den(p: Point, q: Point): int
  {
    if p == q then 2 * p.y else q.x - p.x
  }

  /** `m` is a slope of the line through `p` and `q` (the tangent when they are equal). */
  predicate IsSlope(c: Curve, p: Point, q: Point, m: int)
    requires Field.Valid(c.f)
  {
    (m * Den(p, q) - Num(c, p, q)) % c.f.p == 0
  }

  /** The third intersection, reflected: SEC 1 section 2.2.1's formulas for a given slope. */
  predicate ChordPoint(c: Curve, p: Point, q: Point, m: int, r: Point)
    requires Field.Valid(c.f)
  {
    !r.inf && ChordXIs(c, p, q, m, r.x) && ChordYIs(c, p, m, r.x, r.y)
  }

  /** `rx ≡ m^2 - x1 - x2`, reduced. */
  predicate ChordXIs(c: Curve, p: Point, q: Point, m: int, rx: int)
    requires Field.Valid(c.f)
  {
    rx == (m * m - p.x - q.x) % c.f.p
  }

  /** `ry ≡ m(x1 - rx) - y1`, reduced. */
  predicate ChordYIs(c: Curve, p: Point, m: int, rx: int, ry: int)
    requires Field.Valid(c.f)
  {
    ry == (m * (p.x - rx) - p.y) % c.f.p
  }

  /** Numerator and denominator as the source computes them, reduced into the field. */
  function SlopeTerms(c: Curve, p: Point, q: Point): (nd: (i64, i64))
    requires Field.Valid(c.f) && InBounds(c, p) && InBounds(c, q) && !p.inf && !q.inf
    ensures Field.Element(c.f, nd.0) && nd.0 == Num(c, p, q) % c.f.p
    ensures Field.Element(c.f, nd.1) && nd.1 == Den(p, q) % c.f.p
  {
    var f := c.f;
    if Equal(p, q) then
      Field.MulFitsReduced(f, p.x, p.x);
      var xx := Field.Multiply(f, p.x, p.x);
      Field.MulFitsReduced(f, xx, 3);
      var m3 := Field.Multiply(f, 3, xx);
      var m := Field.Add(f, m3, c.a);
      Field.MulFitsReduced(f, p.y, 2);
      var inv := Field.Multiply(f, 2, p.y);
      TangentTerms(f.p, p.x * p.x, xx, m3, CoefA(c), m);
      (m, inv)
    else
      var m := Field.Add(f, q.y, -p.y);
      var inv := Field.Add(f, q.x, -p.x);
      (m, inv)
  }

  lemma TangentTerms(p: int, s: int, xx: int, m3: int, a: int, m: int)
    requires p > 0 && xx == s % p && m3 == (3 * xx) % p && m == (m3 + a) % p
    ensures m == (3 * s + a) % p
  {
    ModMod(s, p);
    ModMulCongruent(3, 3, xx, s, p);
    assert m3 == (3 * s) % p;
    ModLeft(3 * s, a, p);
    assert m == (3 * s + a) % p;
  }

  /** Multiplying the numerator by an inverse of the denominator gives a slope. */
  lemma SlopeFromInverse(p: int, n: int, d: int, num: int, den: int, inv: int, m: int)
    requires p > 1 && num == n % p && den == d % p && (den * inv) % p == 1
    requires m == (num * inv) % p
    ensures (m * d - n) % p == 0
  {
    var e := num * inv;
    assert (m * d) % p == (e * den) % p by {
      ModMod(e, p);
      ModMod(d, p);
      ModMulCongruent(m, e, d, den, p);
    }
    assert (e * den) % p == num % p by {
      assert e * den == num * (den * inv);
      ModMod(den * inv, p);
      ModMulCongruent(num, num, den * inv, 1, p);
    }
    ModMod(n, p);
    ModEqual(m * d, n, p);
  }

  /** The sum's `x` coordinate for slope `m`, as the source computes it: `m^2 - x1 - x2`. */
  function ChordAbscissa(c: Curve, p: Point, q: Point, m: i64): (rx: i64)
    requires Field.Valid(c.f) && InBounds(c, p) && InBounds(c, q) && !p.inf && !q.inf
    requires Field.Element(c.f, m)
    ensures Field.Element(c.f, rx) && ChordXIs(c, p, q, m, rx)
  {
    var f := c.f;
    Field.MulFitsReduced(f, m, m);
    var mm := Field.Multiply(f, m, m);
    var sx := Field.Add(f, mm, -p.x);
    var rx := Field.Add(f, sx, -q.x);
    ChordX(f.p, m * m, p.x, q.x, mm, sx, rx);
    rx
  }

  /** The sum's `y` coordinate for slope `m`, as the source computes it: `m(x1 - x3) - y1`. */
  function ChordOrdinate(c: Curve, p: Point, m: i64, rx: i64): (ry: i64)
    requires Field.Valid(c.f) && InBounds(c, p) && !p.inf
    requires Field.Element(c.f, m) && Field.Element(c.f, rx)
    ensures Field.Element(c.f, ry) && ChordYIs(c, p, m, rx, ry)
  {
    var f := c.f;
    var dx := Field.Add(f, p.x, -rx);
    Field.MulFitsReduced(f, dx, m);
    var dm := Field.Multiply(f, dx, m);
    var ry := Field.Add(f, dm, -p.y);
    ChordY(f.p, m, p.x, p.y, rx, dx, dm, ry);
    ry
  }

  lemma ChordX(p: int, s: int, x1: int, x2: int, mm: int, sx: int, rx: int)
    requires p > 0 && mm == s % p && sx == (mm + -x1) % p && rx == (sx + -x2) % p
    ensures rx == (s - x1 - x2) % p
  {
    ModLeft(s, -x1, p);
    assert sx == (s + -x1) % p;
    ModLeft(s + -x1, -x2, p);
    assert rx == (s + -x1 + -x2) % p;
    assert s + -x1 + -x2 == s - x1 - x2;
  }

  lemma ChordY(p: int, m: int, x1: int, y1: int, rx: int, dx: int, dm: int, ry: int)
    requires p > 0 && dx == (x1 + -rx) % p && dm == (dx * m) % p && ry == (dm + -y1) % p
    ensures ry == (m * (x1 - rx) - y1) % p
  {
    var e := x1 + -rx;
    var t := e * m;
    ModMod(e, p);
    ModMulCongruent(dx, e, m, m, p);
    assert dm == t % p;
    ModLeft(t, -y1, p);
    assert ry == (t + -y1) % p;
    assert t + -y1 == m * (x1 - rx) - y1;
  }

  /**
    * The slope Add uses for two finite points: the numerator times the
    * inverse of the denominator, or None when the denominator has no inverse
    * mod `p`.
    */
  function Slope(c: Curve, p: Point, q: Point): (m: Option<i64>)
    requires Field.Valid(c.f) && InBounds(c, p) && InBounds(c, q) && !p.inf && !q.inf
    ensures m.None? <==> Gcd(Den(p, q) % c.f.p, c.f.p) != 1
    ensures m.Some? ==> Field.Element(c.f, m.value) && IsSlope(c, p, q, m.value)
  {
    var (num, den) := SlopeTerms(c, p, q);
    Field.InverseMeaning(c.f, den);
    ModMod(Den(p, q), c.f.p);
    match Field.ModInverse(c.f, den)
    case Err(_) => None
    case Ok(inv) =>
      Field.MulFitsReduced(c.f, num, inv);
      var m := Field.Multiply(c.f, num, inv);
      assert (den * inv) % c.f.p == 1 by {
        assert den * inv == inv * den;
      }
      SlopeFromInverse(c.f.p, Num(c, p, q), Den(p, q), num, den, inv, m);
      Some(m)
  }

  /**
    * `Add`: the identity is neutral; otherwise the tangent (equal points) or
    * chord slope is taken, and a denominator that is not invertible mod `p`
    * gives `Point{Inf: true}`.  AddMeaning states what the sum is.
    */
  function Add(c: Curve, p: Point, q: Point): (r: Point)
    requires Field.Valid(c.f) && InBounds(c, p) && InBounds(c, q)
    ensures InBounds(c, r)
    ensures p.inf ==> r == q
    ensures !p.inf && q.inf ==> r == p
  {
    if p.inf then q
    else if q.inf then p
    else
      match Slope(c, p, q)
      case None => Identity
      case Some(m) => Chord(c, p, q, m)
  }

  /** The finite sum for slope `m`: the chord formulas evaluated with the field operations. */
  function Chord(c: Curve, p: Point, q: Point, m: i64): (r: Point)
    requires Field.Valid(c.f) && InBounds(c, p) && InBounds(c, q) && !p.inf && !q.inf
    requires Field.Element(c.f, m)
    ensures Field.Element(c.f, r.x) && Field.Element(c.f, r.y)
    ensures ChordPoint(c, p, q, m, r)
  {
    var rx := ChordAbscissa(c, p, q, m);
    Point(rx, ChordOrdinate(c, p, m, rx), false)
  }

  /**
    * The sum of two finite points is the identity exactly when the slope's
    * denominator has no inverse mod `p`; otherwise Slope finds a slope of the
    * line through the points (the tangent when they are equal) and the sum is
    * the reflected third intersection of that line with the curve.
    */
  lemma AddMeaning(c: Curve, p: Point, q: Point)
    requires Field.Valid(c.f) && InBounds(c, p) && InBounds(c, q) && !p.inf && !q.inf
    ensures Add(c, p, q).inf <==> Gcd(Den(p, q) % c.f.p, c.f.p) != 1
    ensures Add(c, p, q).inf ==> Add(c, p, q) == Identity
    ensures !Add(c, p, q).inf ==>
      Slope(c, p, q).Some? && IsSlope(c, p, q, Slope(c, p, q).value) &&
      ChordPoint(c, p, q, Slope(c, p, q).value, Add(c, p, q))
  {
    match Slope(c, p, q)
    case None =>
    case Some(m) =>
      assert Add(c, p, q) == Chord(c, p, q, m);
  }

  // ---------------------------------------------------------------------
  // Scalar multiplication

  /**
    * Curve addition made total, the identity standing in outside its domain.
    * The repeated sum and the ladder are stated for any addition and
    * instantiated with this one; on in-bounds points it is Add.
    */
  function Sum(c: Curve): (Point, Point) -> Point
  {
    (x: Point, y: Point) =>
      if Field.Valid(c.f) && InBounds(c, x) && InBounds(c, y) then Add(c, x, y) else Identity
  }

  /** `i` successive additions of `p` under `add`, starting from the identity. */
  function RepeatOf(add: (Point, Point) -> Point, i: nat, p: Point): Point
    decreases i
  {
    if i == 0 then Identity else add(RepeatOf(add, i - 1, p), p)
  }

  /** `k` successive additions of `p` on the curve, as Order performs them. */
  function Repeat(c: Curve, k: nat, p: Point): Point
  {
    RepeatOf(Sum(c), k, p)
  }

  lemma {:induction false} RepeatInBounds(c: Curve, k: nat, p: Point)
    ensures InBounds(c, Repeat(c, k, p))
  {
    if k > 0 {
      assert Repeat(c, k, p) == Sum(c)(Repeat(c, k - 1, p), p);
    }
  }

  /**
    * The double-and-add loop of ScalarM under `add`, with `n` rounds left:
    * `k` holds the bits not yet scanned, `r` the accumulator and `d` the
    * current doubling of the point.  Only `n` has to decrease; naming `d`
    * too keeps the verifier from unrolling all 64 rounds whenever `n` is
    * the literal bit length.
    */
  function Ladder(add: (Point, Point) -> Point, k: nat, r: Point, d: Point, n: nat): (l: Point)
    decreases n, d
  {
    if n == 0 then r
    else Ladder(add, k / 2, if k % 2 == 1 then add(r, d) else r, add(d, d), n - 1)
  }

  /**
    * What `ScalarM(k, p)` computes: the ladder over the 64 bits of `k`.  It
    * stays in bounds, and `0·P` is the identity.
    */
  function ScalarMul(c: Curve, k: i64, p: Point): (q: Point)
    ensures InBounds(c, q)
    ensures k == 0 ==> q == Identity
  {
    LadderInBounds(c, U64(k), Identity, p, Field.BIT_LENGTH);
    LadderZero(Sum(c), U64(k), Identity, p, Field.BIT_LENGTH);
    Ladder(Sum(c), U64(k), Identity, p, Field.BIT_LENGTH)
  }

  /** With no bits left to scan, the ladder keeps its accumulator however many rounds remain. */
  lemma {:induction false} LadderZero(add: (Point, Point) -> Point, k: nat, r: Point, d: Point, n: nat)
    ensures k == 0 ==> Ladder(add, k, r, d, n) == r
    decreases n
  {
    if n > 0 && k == 0 {
      LadderZero(add, k / 2, r, add(d, d), n - 1);
    }
  }

  /** The ladder under Sum never leaves the bounds. */
  lemma {:induction false} LadderInBounds(c: Curve, k: nat, r: Point, d: Point, n: nat)
    requires InBounds(c, r)
    ensures InBounds(c, Ladder(Sum(c), k, r, d, n))
    decreases n
  {
    if n > 0 {
      var add := Sum(c);
      LadderInBounds(c, k / 2, if k % 2 == 1 then add(r, d) else r, add(d, d), n - 1);
    }
  }

  method ScalarM(c: Curve, k: i64, p: Point) returns (r: Point)
    requires Field.Valid(c.f) && InBounds(c, p)
    ensures r == ScalarMul(c, k, p)
    ensures InBounds(c, r)
  {
    r := Identity;
    var d := p;
    var b := 0;
    ghost var add, rest, n := Sum(c), U64(k), Field.BIT_LENGTH;
    while b < Field.BIT_LENGTH
      invariant 0 <= b <= Field.BIT_LENGTH && n == Field.BIT_LENGTH - b
      invariant rest == U64(k) / Pow2(b)
      invariant InBounds(c, r) && InBounds(c, d)
      invariant Ladder(add, rest, r, d, n) == ScalarMul(c, k, p)
    {
      DivDiv(U64(k), Pow2(b), 2);
      assert Pow2(b + 1) == Pow2(b) * 2;
      assert Bit(k, b) <==> rest % 2 == 1;
      assert add(r, d) == Add(c, r, d) && add(d, d) == Add(c, d, d);
      if Bit(k, b) {
        r := Add(c, r, d);
      }
      d := Add(c, d, d);
      b, rest, n := b + 1, rest / 2, n - 1;
    }
  }

  /** Adding the `i`-th and `j`-th multiple of `p` under `add` gives the `(i + j)`-th. */
  predicate AddsUp(add: (Point, Point) -> Point, p: Point, i: nat, j: nat)
  {
    add(RepeatOf(add, i, p), RepeatOf(add, j, p)) == RepeatOf(add, i + j, p)
  }

  /** Any two multiples of `p` under `add` add up. */
  ghost predicate Additive(add: (Point, Point) -> Point, p: Point)
  {
    forall i: nat, j: nat :: AddsUp(add, p, i, j)
  }

  /**
    * The group law on the multiples of `p`, as a hypothesis.  It holds on
    * every curve of prime order over a prime field; it is not proved here.
    */
  ghost predicate MultiplesAdd(c: Curve, p: Point)
  {
    Additive(Sum(c), p)
  }

  /**
    * How many copies of the point the ladder's accumulator holds after `n`
    * rounds (`k` is in the decreases clause for the same reason as in Ladder).
    */
  function LadderCount(k: nat, a: nat, e: nat, n: nat): nat
    decreases n, k
  {
    if n == 0 then a
    else LadderCount(k / 2, if k % 2 == 1 then a + e else a, e + e, n - 1)
  }

  /** The count in closed form: the low `n` bits of `k` times the step, added to the start. */
  lemma {:induction false} LadderCountValue(k: nat, a: nat, e: nat, n: nat)
    ensures LadderCount(k, a, e, n) == a + (k % Pow2(n)) * e
    decreases n
  {
    if n == 0 {
      assert k % 1 == 0;
    } else {
      LadderCountValue(k / 2, if k % 2 == 1 then a + e else a, e + e, n - 1);
      LadderArith(k, a, e, n);
    }
  }

  lemma LadderArith(k: nat, a: nat, e: nat, n: nat)
    requires n > 0
    ensures (if k % 2 == 1 then a + e else a) + ((k / 2) % Pow2(n - 1)) * (e + e) == a + (k % Pow2(n)) * e
  {
    assert Pow2(n) == 2 * Pow2(n - 1);
    ModDouble(k, 1);
    var h := k / 2;
    DivModUnique(k, h, k % 2, 2);
    var q := h / Pow2(n - 1);
    var low := h % Pow2(n - 1);
    assert h == q * Pow2(n - 1) + low;
    assert k == q * Pow2(n) + (2 * low + k % 2);
    DivModUnique(k, q, 2 * low + k % 2, Pow2(n));
    assert low * (e + e) == (2 * low) * e;
  }

  /**
    * For any addition under which the multiples of `p` add up, `n` rounds of
    * the ladder started on the `a`-th and `e`-th multiples reach the
    * LadderCount-th multiple.
    */
  lemma {:induction false} LadderRepeat(add: (Point, Point) -> Point, p: Point, k: nat, a: nat, e: nat, n: nat)
    requires Additive(add, p)
    ensures Ladder(add, k, RepeatOf(add, a, p), RepeatOf(add, e, p), n) == RepeatOf(add, LadderCount(k, a, e, n), p)
    decreases n
  {
    if n > 0 {
      assert AddsUp(add, p, e, e);
      assert AddsUp(add, p, a, e);
      LadderRepeat(add, p, k / 2, if k % 2 == 1 then a + e else a, e + e, n - 1);
    }
  }

  /** Under the group law, `ScalarM(k, p)` is `k` successive additions of `p` (for `k >= 0`). */
  lemma ScalarMulRepeat(c: Curve, k: i64, p: Point)
    requires Field.Valid(c.f) && InBounds(c, p) && MultiplesAdd(c, p) && k >= 0
    ensures ScalarMul(c, k, p) == Repeat(c, k, p)
  {
    var add := Sum(c);
    assert RepeatOf(add, 1, p) == p by {
      assert RepeatOf(add, 1, p) == add(Identity, p);
    }
    assert LadderCount(k, 0, 1, Field.BIT_LENGTH) == k by {
      LadderCountValue(k, 0, 1, Field.BIT_LENGTH);
      Pow2Word();
      ModSmall(k, Pow2(64));
    }
    LadderRepeat(add, p, k, 0, 1, Field.BIT_LENGTH);
  }
}
