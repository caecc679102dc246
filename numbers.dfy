// Integer facts the model rests on: Go's 64-bit integers and their bits,
// truncating division, powers, greatest common divisors with Bezout
// coefficients, primality and products of factor lists.
module Numbers {

  const TWO_63: int := 0x8000_0000_0000_0000
  const TWO_64: int := 0x1_0000_0000_0000_0000

  /** Go's `int64`. */
  type i64 = x: int | -TWO_63 <= x < TWO_63

  /** Go's `uint64(v)`: the same 64 bits read as an unsigned number. */
  function U64(v: i64): (u: int)
    ensures 0 <= u < TWO_64
    ensures 0 <= v ==> u == v
    ensures v < 0 ==> u == v + TWO_64
  {
    if v < 0 then v + TWO_64 else v
  }

  function Pow2(n: nat): (r: int)
    ensures r >= 1
  {
    if n == 0 then 1 else 2 * Pow2(n - 1)
  }

  /** `v & (1 << b) != 0` for a Go int64 `v`: bit `b` of its two's complement. */
  predicate Bit(v: i64, b: nat)
  {
    (U64(v) / Pow2(b)) % 2 == 1
  }

  function Abs(x: int): nat
  {
    if x < 0 then -x else x
  }

  /** Go's `a / b` on integers: the quotient truncated toward zero. */
  function Quo(a: int, b: int): int
    requires b != 0
  {
    var q := Abs(a) / Abs(b);
    if (a < 0) == (b < 0) then q else -q
  }

  /** Go's `a % b` on integers: the remainder has the sign of `a`. */
  function Rem(a: int, b: int): int
    requires b != 0
  {
    var r := Abs(a) % Abs(b);
    if a < 0 then -r else r
  }

  function Pow(b: int, e: nat): int
  {
    if e == 0 then 1 else b * Pow(b, e - 1)
  }

  /** `d` divides `n`. */
  predicate Divides(d: int, n: int)
    requires d != 0
  {
    n % d == 0
  }

  predicate Prime(n: int)
  {
    n >= 2 && forall d :: 2 <= d < n ==> !Divides(d, n)
  }

  /** Greatest common divisor by Euclid's algorithm. */
  function Gcd(a: nat, b: nat): nat
    decreases b
  {
    if b == 0 then a else Gcd(b, a % b)
  }

  function Product(s: seq<int>): int
  {
    if s == [] then 1 else s[0] * Product(s[1..])
  }

  // ---------------------------------------------------------------------
  // Division and remainder

  lemma MulLeft(a: int, b: int, c: int)
    requires a <= b && c >= 0
    ensures a * c <= b * c
  {
    assert b * c - a * c == (b - a) * c;
  }

  /** Euclidean division is determined by its defining equation. */
  lemma DivModUnique(x: int, q: int, r: int, m: int)
    requires m > 0 && 0 <= r < m && x == q * m + r
    ensures x / m == q && x % m == r
  {
    var q', r' := x / m, x % m;
    if q' < q {
      MulLeft(q' + 1, q, m);
    } else if q' > q {
      MulLeft(q + 1, q', m);
    }
  }

  lemma ModMultiple(x: int, k: int, m: int)
    requires m > 0
    ensures (x + k * m) % m == x % m
  {
    DivModUnique(x + k * m, x / m + k, x % m, m);
  }

  lemma ModAdd(x: int, y: int, m: int)
    requires m > 0
    ensures (x + y) % m == (x % m + y % m) % m
  {
    var qx, qy := x / m, y / m;
    assert x == qx * m + x % m && y == qy * m + y % m;
    assert x + y == (x % m + y % m) + (qx + qy) * m;
    ModMultiple(x % m + y % m, qx + qy, m);
  }

  lemma ModSub(x: int, y: int, m: int)
    requires m > 0
    ensures (x - y) % m == (x % m - y % m) % m
  {
    var qx, qy := x / m, y / m;
    assert x == qx * m + x % m && y == qy * m + y % m;
    assert x - y == (x % m - y % m) + (qx - qy) * m;
    ModMultiple(x % m - y % m, qx - qy, m);
  }

  /** Reducing one summand first does not change the sum's remainder. */
  lemma ModLeft(x: int, y: int, m: int)
    requires m > 0
    ensures (x % m + y) % m == (x + y) % m
  {
    assert x == (x / m) * m + x % m;
    ModMultiple(x % m + y, x / m, m);
  }

  lemma ModLeftSub(x: int, y: int, m: int)
    requires m > 0
    ensures (x % m - y) % m == (x - y) % m
  {
    ModLeft(x, -y, m);
  }

  /** Two numbers differ by a multiple of `m` exactly when their remainders agree. */
  lemma ModEqual(u: int, v: int, m: int)
    requires m > 0
    ensures (u - v) % m == 0 <==> u % m == v % m
  {
    ModSub(u, v, m);
    var d := u % m - v % m;
    if d < 0 {
      DivModUnique(d, -1, d + m, m);
    } else {
      DivModUnique(d, 0, d, m);
    }
  }

  /** The small powers as products. */
  lemma PowSmall(x: int)
    ensures Pow(x, 2) == x * x && Pow(x, 3) == x * x * x
  {
    assert Pow(x, 1) == x;
    assert Pow(x, 2) == x * Pow(x, 1);
    assert Pow(x, 3) == x * Pow(x, 2);
  }

  lemma ModMul(x: int, y: int, m: int)
    requires m > 0
    ensures (x * y) % m == ((x % m) * (y % m)) % m
  {
    var a, b := x / m, y / m;
    var u, v := x % m, y % m;
    assert x * y == u * v + (a * v + b * u + a * b * m) * m by {
      assert x == a * m + u && y == b * m + v;
    }
    ModMultiple(u * v, a * v + b * u + a * b * m, m);
  }

  lemma ModMod(x: int, m: int)
    requires m > 0
    ensures (x % m) % m == x % m
  {
    DivModUnique(x % m, 0, x % m, m);
  }

  /** Congruent factors give congruent products. */
  lemma ModMulCongruent(x: int, x': int, y: int, y': int, m: int)
    requires m > 0 && x % m == x' % m && y % m == y' % m
    ensures (x * y) % m == (x' * y') % m
  {
    ModMul(x, y, m);
    ModMul(x', y', m);
  }

  lemma ModSmall(x: int, m: int)
    requires 0 <= x < m
    ensures x % m == x
  {
    DivModUnique(x, 0, x, m);
  }

  lemma DividesProduct(d: int, n: int, k: int)
    requires d > 0 && Divides(d, n)
    ensures Divides(d, k * n)
  {
    var q := n / d;
    assert n == q * d;
    assert k * n == (k * q) * d;
    DivModUnique(k * n, k * q, 0, d);
  }

  lemma DividesLinear(d: int, u: int, v: int, k: int)
    requires d > 0 && Divides(d, u) && Divides(d, v)
    ensures Divides(d, k * u + v)
  {
    assert u == (u / d) * d && v == (v / d) * d;
    assert k * u + v == (k * (u / d) + v / d) * d;
    DivModUnique(k * u + v, k * (u / d) + v / d, 0, d);
  }

  /** A number minus its remainder is a multiple of the modulus. */
  lemma ModSelfDiff(x: int, m: int)
    requires m > 0
    ensures (x % m - x) % m == 0
  {
    assert x == (x / m) * m + x % m;
    DivModUnique(x % m - x, -(x / m), 0, m);
  }

  /** The remainder of Euclidean division, from the quotient. */
  lemma EuclidRem(a: int, b: int)
    requires b != 0
    ensures a - (a / b) * b == a % b
    ensures 0 <= a % b < Abs(b)
  {
  }

  lemma MulStrict(a: int, b: int, x: int, y: int)
    requires 0 <= a < x && 0 <= b < y
    ensures a * b < x * y
  {
    MulLeft(b, y, a);
    assert a * b <= a * y;
    assert x * y - a * y == (x - a) * y;
  }

  /** A positive multiple of `d` is at least `d`. */
  lemma DivisorLe(d: int, n: int)
    requires d > 0 && n > 0 && Divides(d, n)
    ensures d <= n
  {
    var q := n / d;
    assert n == q * d;
    if q <= 0 {
      MulLeft(q, 0, d);
    }
    MulLeft(1, q, d);
  }

  // ---------------------------------------------------------------------
  // Truncating division

  /** Go's division identity `a == b * (a / b) + a % b`, with the remainder
      taking the sign of the dividend and smaller than the divisor. */
  lemma QuoRem(a: int, b: int)
    requires b != 0
    ensures a == b * Quo(a, b) + Rem(a, b)
    ensures Abs(Rem(a, b)) < Abs(b)
    ensures a >= 0 ==> Rem(a, b) >= 0
    ensures a <= 0 ==> Rem(a, b) <= 0
    ensures a >= 0 && b > 0 ==> Quo(a, b) == a / b && Rem(a, b) == a % b
  {
    QuoRemIdentity(a, b);
    assert Rem(a, b) == (if a < 0 then -(Abs(a) % Abs(b)) else Abs(a) % Abs(b));
  }

  lemma QuoRemIdentity(a: int, b: int)
    requires b != 0
    ensures a == b * Quo(a, b) + Rem(a, b)
  {
    var y: int := Abs(b);
    var q: int, r: int := Abs(a) / y, Abs(a) % y;
    assert Abs(a) == y * q + r;
    assert Quo(a, b) == (if (a < 0) == (b < 0) then q else -q);
    assert Rem(a, b) == (if a < 0 then -r else r);
    QuoRemSigns(a, b, y, q, r);
  }

  /** The identity of QuoRem, case by case on the signs of the operands. */
  lemma QuoRemSigns(a: int, b: int, y: int, q: int, r: int)
    requires y == Abs(b) && y > 0 && Abs(a) == y * q + r
    ensures a == b * (if (a < 0) == (b < 0) then q else -q) + (if a < 0 then -r else r)
  {
    if a < 0 && b < 0 {
      assert b * q == -(y * q);
    } else if a < 0 {
      assert b * (-q) == -(y * q);
    } else if b < 0 {
      assert b * (-q) == y * q;
    }
  }

  // ---------------------------------------------------------------------
  // Powers

  lemma PowAdd(b: int, e1: nat, e2: nat)
    ensures Pow(b, e1 + e2) == Pow(b, e1) * Pow(b, e2)
    decreases e1
  {
    if e1 > 0 {
      PowAdd(b, e1 - 1, e2);
    }
  }

  lemma PowSquare(b: int, e: nat)
    ensures Pow(b, 2 * e) == Pow(b * b, e)
    decreases e
  {
    if e > 0 {
      PowSquare(b, e - 1);
      PowAdd(b, 2, 2 * (e - 1));
    }
  }

  lemma PowMod(b: int, e: nat, m: int)
    requires m > 0
    ensures Pow(b, e) % m == Pow(b % m, e) % m
    decreases e
  {
    if e > 0 {
      PowMod(b, e - 1, m);
      ModMod(b, m);
      ModMulCongruent(b, b % m, Pow(b, e - 1), Pow(b % m, e - 1), m);
    }
  }

  lemma PowPositive(b: int, e: nat)
    requires b > 0
    ensures Pow(b, e) > 0
  {
    if e > 0 {
      PowPositive(b, e - 1);
      MulLeft(1, b, Pow(b, e - 1));
    }
  }

  lemma Pow2IsPow(n: nat)
    ensures Pow2(n) == Pow(2, n)
  {
    if n > 0 {
      Pow2IsPow(n - 1);
    }
  }

  lemma Pow2Add(a: nat, b: nat)
    ensures Pow2(a + b) == Pow2(a) * Pow2(b)
  {
    Pow2IsPow(a + b);
    Pow2IsPow(a);
    Pow2IsPow(b);
    PowAdd(2, a, b);
  }

  lemma Pow2Monotone(a: nat, b: nat)
    requires a <= b
    ensures Pow2(a) <= Pow2(b)
  {
    if a < b {
      Pow2Monotone(a, b - 1);
    }
  }

  lemma Pow2Word()
    ensures Pow2(63) == TWO_63 && Pow2(64) == TWO_64
  {
    assert Pow2(8) == 0x100;
    assert Pow2(16) == 0x1_0000 by { Pow2Add(8, 8); }
    assert Pow2(32) == 0x1_0000_0000 by { Pow2Add(16, 16); }
    assert Pow2(31) == 0x8000_0000 by { Pow2Add(16, 15); assert Pow2(15) == 0x8000; }
    assert Pow2(63) == TWO_63 by { Pow2Add(32, 31); }
    assert Pow2(64) == TWO_64 by { Pow2Add(32, 32); }
  }

  /** Dividing twice is dividing by the product. */
  lemma DivDiv(x: int, a: int, b: int)
    requires a > 0 && b > 0
    ensures (x / a) / b == x / (a * b)
  {
    var q := (x / a) / b;
    var r := (x / a) % b;
    assert x / a == q * b + r;
    assert x == (x / a) * a + x % a;
    assert x == q * (a * b) + (r * a + x % a);
    MulLeft(r, b - 1, a);
    DivModUnique(x, q, r * a + x % a, a * b);
  }

  /** Splitting off one more low bit: `x mod 2m` is `x mod m` plus `m` times bit `x / m`. */
  lemma ModDouble(x: int, m: int)
    requires m > 0
    ensures x % (2 * m) == x % m + m * ((x / m) % 2)
  {
    var q := x / m;
    assert x == q * m + x % m;
    assert q == (q / 2) * 2 + q % 2;
    assert x == (q / 2) * (2 * m) + (x % m + m * (q % 2));
    DivModUnique(x, q / 2, x % m + m * (q % 2), 2 * m);
  }

  // ---------------------------------------------------------------------
  // Greatest common divisors

  lemma GcdDivides(a: nat, b: nat)
    requires a > 0 || b > 0
    ensures Gcd(a, b) > 0 && Divides(Gcd(a, b), a) && Divides(Gcd(a, b), b)
    decreases b
  {
    if b == 0 {
      ModSmall(0, a);
      DivModUnique(a, 1, 0, a);
    } else {
      var r := a % b;
      GcdDivides(b, r);
      var g := Gcd(b, r);
      assert Gcd(a, b) == g;
      assert a == (a / b) * b + r;
      DividesLinear(g, b, r, a / b);
    }
  }

  /** Extended Euclid: the gcd is an integer combination of its arguments. */
  lemma Bezout(a: nat, b: nat) returns (x: int, y: int)
    ensures x * a + y * b == Gcd(a, b)
    decreases b
  {
    if b == 0 {
      x, y := 1, 0;
    } else {
      var x', y' := Bezout(b, a % b);
      assert a % b == a - (a / b) * b;
      x, y := y', x' - y' * (a / b);
      assert x' * b + y' * (a - (a / b) * b) == y' * a + (x' - y' * (a / b)) * b;
    }
  }

  /** Every common divisor divides the gcd. */
  lemma GcdGreatest(a: nat, b: nat, d: int)
    requires d > 0 && Divides(d, a) && Divides(d, b)
    ensures Divides(d, Gcd(a, b))
  {
    var x, y := Bezout(a, b);
    DividesProduct(d, a, x);
    DividesProduct(d, b, y);
    DividesLinear(d, x * a, y * b, 1);
  }

  /** A number strictly between 0 and a prime is coprime to it. */
  lemma PrimeCoprime(p: int, x: int)
    requires Prime(p) && 0 < x < p
    ensures Gcd(x, p) == 1
  {
    GcdDivides(x, p);
    var g := Gcd(x, p);
    DivisorLe(g, x);
    if g >= 2 {
      assert false;
    }
  }

  lemma MulDistribute(u: int, x: int, v: int, p: int, b: int)
    ensures (u * x + v * p) * b == u * (x * b) + (v * b) * p
  {
  }

  /** A divisor of `x * b` that is coprime to `x` divides `b`. */
  lemma CoprimeCancel(p: int, x: nat, b: int)
    requires p > 0 && Gcd(x, p) == 1 && Divides(p, x * b)
    ensures Divides(p, b)
  {
    var u, v := Bezout(x, p);
    MulDistribute(u, x, v, p, b);
    assert b == u * (x * b) + (v * b) * p;
    DividesProduct(p, x * b, u);
    ModMultiple(u * (x * b), v * b, p);
  }

  /** Euclid's lemma: a prime dividing a product divides a factor. */
  lemma EuclidLemma(p: int, a: int, b: int)
    requires Prime(p) && Divides(p, a * b)
    ensures Divides(p, a) || Divides(p, b)
  {
    if !Divides(p, a) {
      var x := a % p;
      PrimeCoprime(p, x);
      ModMod(a, p);
      ModMulCongruent(x, a, b, b, p);
      CoprimeCancel(p, x, b);
    }
  }

  lemma MulCancel(a: int, b: int, c: int)
    requires c != 0 && a * c == b * c
    ensures a == b
  {
    assert (a - b) * c == 0;
  }

  lemma PowerStep(f: int, fk: int, x: int)
    requires f > 0 && fk > 0 && (x / f) % fk == 0 && x % f == 0
    ensures x == (x / f / fk) * (f * fk)
  {
    var x' := x / f;
    assert x == x' * f;
    assert x' == (x' / fk) * fk;
  }

  /** A multiple of `f * fk` is a multiple of `f`, with quotient a multiple of `fk`. */
  lemma SplitMultiple(f: int, fk: int, n: int)
    requires f > 0 && fk > 0 && n % (f * fk) == 0
    ensures n % f == 0 && (n / f) % fk == 0
  {
    var j := n / (f * fk);
    assert n == (j * fk) * f;
    DivModUnique(n, j * fk, 0, f);
    DivModUnique(j * fk, j, 0, fk);
  }

  /** A prime that does not divide `h` can be cancelled from a prime-power divisor of `h * x`. */
  lemma PrimePowerCancel(f: int, h: int, x: int, k: nat)
    requires Prime(f) && !Divides(f, h)
    requires Pow(f, k) > 0 && (h * x) % Pow(f, k) == 0
    ensures x % Pow(f, k) == 0
    decreases k
  {
    if k == 0 {
      ModMod(x, 1);
    } else {
      var fk := Pow(f, k - 1);
      PowPositive(f, k - 1);
      assert Pow(f, k) == f * fk;
      SplitMultiple(f, fk, h * x);
      EuclidLemma(f, h, x);
      var x' := x / f;
      MulDivExact(f, h, x);
      PrimePowerCancel(f, h, x', k - 1);
      PowerStep(f, fk, x);
      DivModUnique(x, x' / fk, 0, Pow(f, k));
    }
  }

  /** `(h * x) / f == h * (x / f)` when `f` divides `x`. */
  lemma MulDivExact(f: int, h: int, x: int)
    requires f > 0 && x % f == 0
    ensures (h * x) / f == h * (x / f)
  {
    var x' := x / f;
    assert h * x == (h * x') * f;
    DivModUnique(h * x, h * x', 0, f);
  }

  /** Two different primes do not divide each other. */
  lemma DistinctPrimes(f: int, h: int)
    requires Prime(f) && Prime(h) && f != h
    ensures !Divides(f, h)
  {
    if Divides(f, h) {
      DivisorLe(f, h);
      assert false;
    }
  }

  // ---------------------------------------------------------------------
  // Products of factor lists

  lemma ProductAppend(s: seq<int>, x: int)
    ensures Product(s + [x]) == Product(s) * x
  {
    if s != [] {
      assert (s + [x])[1..] == s[1..] + [x];
      ProductAppend(s[1..], x);
    }
  }

  /**
    * In a list of primes whose product is `n`, a prime `f` occurs exactly as
    * often as it divides `n`: `f^c` divides `n` and `f^(c+1)` does not.
    */
  lemma {:induction false} PrimeMultiplicity(s: seq<int>, f: int)
    requires forall i :: 0 <= i < |s| ==> Prime(s[i])
    requires Prime(f)
    ensures Pow(f, multiset(s)[f]) > 0
    ensures Product(s) % Pow(f, multiset(s)[f]) == 0
    ensures Product(s) % Pow(f, multiset(s)[f] + 1) != 0
  {
    var c := multiset(s)[f];
    PowPositive(f, c);
    PowPositive(f, c + 1);
    if s == [] {
      assert Pow(f, 1) == f;
      ModSmall(1, f);
    } else {
      var h, t := s[0], s[1..];
      assert s == [h] + t;
      PrimeMultiplicity(t, f);
      var ct := multiset(t)[f];
      var pt := Product(t);
      assert Product(s) == h * pt;
      if h == f {
        assert c == ct + 1;
        assert Pow(f, c) == f * Pow(f, ct);
        assert Pow(f, c + 1) == f * Pow(f, ct + 1);
        PowPositive(f, ct + 1);
        ScaleMultiple(f, pt, Pow(f, ct), Pow(f, ct + 1));
      } else {
        assert c == ct;
        DividesProduct(Pow(f, ct), pt, h);
        DistinctPrimes(f, h);
        if Product(s) % Pow(f, c + 1) == 0 {
          PrimePowerCancel(f, h, pt, c + 1);
          assert false;
        }
      }
    }
  }

  /** Multiplying by `k > 0` keeps `q` dividing `n` and `q'` not dividing it. */
  lemma ScaleMultiple(k: int, n: int, q: int, q': int)
    requires k > 0 && q > 0 && q' > 0 && n % q == 0 && n % q' != 0
    ensures (k * n) % (k * q) == 0 && (k * n) % (k * q') != 0
  {
    var j := n / q;
    assert k * n == j * (k * q);
    DivModUnique(k * n, j, 0, k * q);
    if (k * n) % (k * q') == 0 {
      var i := (k * n) / (k * q');
      assert k * n == k * (i * q');
      MulCancel(n, i * q', k);
      DivModUnique(n, i, 0, q');
      assert false;
    }
  }
}
