// The two order searches of pkg/ec/curve.go: `Order`, which keeps adding
// the point to itself until it comes back, and `OrderBG`, a baby-step
// giant-step search followed by a reduction over the prime factors of the
// multiple it finds.
module CurveOrder {
  import opened Wrappers
  import opened Numbers
  import Field
  import opened Curve
  import Primes
  import CurveGroup

  // ---------------------------------------------------------------------
  // Order

  /** The first multiple is the point itself. */
  lemma RepeatOne(c: Curve, p: Point)
    requires Field.Valid(c.f) && InBounds(c, p)
    ensures Repeat(c, 1, p) == p
  {
    assert Repeat(c, 1, p) == Sum(c)(Identity, p);
  }

  /** One more step of the running sum is one curve addition. */
  lemma RepeatNext(c: Curve, i: nat, p: Point)
    requires Field.Valid(c.f) && InBounds(c, p)
    ensures InBounds(c, Repeat(c, i, p))
    ensures Repeat(c, i + 1, p) == Add(c, Repeat(c, i, p), p)
  {
    RepeatInBounds(c, i, p);
    assert Repeat(c, i + 1, p) == Sum(c)(Repeat(c, i, p), p);
  }

  /** Once the running sum reaches the identity, the next step is back at `p`. */
  lemma RepeatAfterIdentity(c: Curve, i: nat, p: Point)
    requires Field.Valid(c.f) && InBounds(c, p) && Repeat(c, i, p) == Identity
    ensures Repeat(c, i + 1, p) == p
  {
    RepeatNext(c, i, p);
  }

  /**
    * The first count `n` in `[from, bound]` after which the running sum of
    * `n + 1` copies of `p` under `add` is back at `p`.
    */
  function FirstReturn(add: (Point, Point) -> Point, p: Point, from: nat, bound: nat): Option<nat>
    decreases bound + 1 - from
  {
    if from > bound then None
    else if RepeatOf(add, from + 1, p) == p then Some(from)
    else FirstReturn(add, p, from + 1, bound)
  }

  /** FirstReturn finds a return, and none before it, or reports that there is none up to the bound. */
  lemma {:induction false} FirstReturnMeaning(add: (Point, Point) -> Point, p: Point, from: nat, bound: nat)
    ensures FirstReturn(add, p, from, bound).Some? ==>
      var n := FirstReturn(add, p, from, bound).value;
      from <= n <= bound && RepeatOf(add, n + 1, p) == p &&
      forall i :: from + 1 <= i <= n ==> RepeatOf(add, i, p) != p
    ensures FirstReturn(add, p, from, bound).None? ==>
      forall i :: from + 1 <= i <= bound + 1 ==> RepeatOf(add, i, p) != p
    decreases bound + 1 - from
  {
    if from <= bound && RepeatOf(add, from + 1, p) != p {
      FirstReturnMeaning(add, p, from + 1, bound);
    }
  }

  /** The count Order reports never passes a multiple of `p` that is the identity. */
  lemma FirstReturnBeforeIdentity(c: Curve, p: Point, bound: nat, i: nat)
    requires Field.Valid(c.f) && InBounds(c, p)
    requires FirstReturn(Sum(c), p, 1, bound).Some? && 1 <= i < FirstReturn(Sum(c), p, 1, bound).value
    ensures Repeat(c, i, p) != Identity
  {
    FirstReturnMeaning(Sum(c), p, 1, bound);
    if Repeat(c, i, p) == Identity {
      RepeatAfterIdentity(c, i, p);
    }
  }

  /**
    * Under the group law on the multiples of a finite point over an odd
    * modulus, the count Order reports is the order of the point: that
    * multiple is the identity and no smaller positive one is.
    */
  lemma OrderIsOrder(c: Curve, p: Point, bound: nat)
    requires Field.Valid(c.f) && c.f.p % 2 == 1 && InBounds(c, p) && !p.inf && MultiplesAdd(c, p)
    requires FirstReturn(Sum(c), p, 1, bound).Some?
    ensures var n := FirstReturn(Sum(c), p, 1, bound).value;
      Repeat(c, n, p) == Identity && forall i :: 1 <= i < n ==> Repeat(c, i, p) != Identity
  {
    var n := FirstReturn(Sum(c), p, 1, bound).value;
    ReturnIsIdentity(c, p, bound);
    forall i | 1 <= i < n
      ensures Repeat(c, i, p) != Identity
    {
      FirstReturnBeforeIdentity(c, p, bound, i);
    }
  }

  lemma GcdZero(b: int)
    ensures b >= 0 ==> Gcd(0, b) == b
  {
  }

  /** A count after which the running sum is back at the point is a multiple that is the identity. */
  lemma ReturnIsIdentity(c: Curve, p: Point, bound: nat)
    requires Field.Valid(c.f) && c.f.p % 2 == 1 && InBounds(c, p) && !p.inf && MultiplesAdd(c, p)
    requires FirstReturn(Sum(c), p, 1, bound).Some?
    ensures Repeat(c, FirstReturn(Sum(c), p, 1, bound).value, p) == Identity
  {
    var n := FirstReturn(Sum(c), p, 1, bound).value;
    FirstReturnMeaning(Sum(c), p, 1, bound);
    DoubleIsSelf(c, p, n);
    CurveGroup.RepeatFiniteOrIdentity(c, n, p);
    var q := Repeat(c, n, p);
    if !q.inf {
      NoFiniteIdempotent(c, q);
    }
  }

  /** If `(n + 1)P = P` then `nP + nP = 2nP = (n + 1)P + (n - 1)P = P + (n - 1)P = nP`. */
  lemma DoubleIsSelf(c: Curve, p: Point, n: nat)
    requires Field.Valid(c.f) && InBounds(c, p) && MultiplesAdd(c, p)
    requires n >= 1 && Repeat(c, n + 1, p) == p
    ensures InBounds(c, Repeat(c, n, p))
    ensures Add(c, Repeat(c, n, p), Repeat(c, n, p)) == Repeat(c, n, p)
  {
    RepeatInBounds(c, n, p);
    RepeatOne(c, p);
    RepeatDoubleIsSelf(Sum(c), p, n);
  }

  /** The same over any addition for which the multiples of `p` add up. */
  lemma RepeatDoubleIsSelf(add: (Point, Point) -> Point, p: Point, n: nat)
    requires Additive(add, p) && n >= 1
    requires RepeatOf(add, 1, p) == p && RepeatOf(add, n + 1, p) == p
    ensures add(RepeatOf(add, n, p), RepeatOf(add, n, p)) == RepeatOf(add, n, p)
  {
    var a, b, twice := RepeatOf(add, n - 1, p), RepeatOf(add, n, p), RepeatOf(add, n + n, p);
    assert add(p, a) == twice by {
      assert AddsUp(add, p, n + 1, n - 1);
    }
    assert add(p, a) == b by {
      assert AddsUp(add, p, 1, n - 1);
    }
    assert add(b, b) == twice by {
      assert AddsUp(add, p, n, n);
    }
  }

  /**
    * Over an odd modulus no finite point is its own double: the tangent rule
    * gives `y3 ≡ -y1`, so `y1 = 0`, and then the denominator `2y1` has no
    * inverse.
    */
  lemma NoFiniteIdempotent(c: Curve, q: Point)
    requires Field.Valid(c.f) && c.f.p % 2 == 1 && InBounds(c, q) && !q.inf
    ensures Add(c, q, q) != q
  {
    var r := Add(c, q, q);
    AddMeaning(c, q, q);
    if !r.inf {
      var m := Slope(c, q, q).value;
      assert r == Chord(c, q, q, m);
      if r == q {
        OddNegation(c.f.p, q.y, m, q.x);
        GcdZero(c.f.p);
      }
    }
  }

  /** Modulo an odd `p`, the only residue equal to its own negation is 0. */
  lemma OddNegation(p: int, y: int, m: int, x: int)
    requires p > 0 && p % 2 == 1 && 0 <= y < p && y == (m * (x - x) - y) % p
    ensures y == 0
  {
    assert m * (x - x) == 0;
    if y != 0 {
      ModMultiple(-y, 1, p);
      ModSmall(p - y, p);
    }
  }

  /**
    * `Curve.Order`: add `p` to the running sum until the sum equals `p`
    * again and report how many additions that took; the source panics once
    * the count exceeds `4p`, which None stands for.
    */
  method Order(c: Curve, p: Point) returns (res: Option<nat>)
    requires Field.Valid(c.f) && InBounds(c, p)
    ensures res == FirstReturn(Sum(c), p, 1, 4 * c.f.p + 1)
  {
    var order := 0;
    var pp := p;
    RepeatOne(c, p);
    while true
      invariant 0 <= order <= 4 * c.f.p
      invariant pp == Repeat(c, order + 1, p) && InBounds(c, pp)
      invariant FirstReturn(Sum(c), p, order + 1, 4 * c.f.p + 1) == FirstReturn(Sum(c), p, 1, 4 * c.f.p + 1)
      decreases 4 * c.f.p - order
    {
      order := order + 1;
      RepeatNext(c, order, p);
      var cp := Add(c, pp, p);
      if cp == p {
        res := Some(order);
        return;
      }
      pp := cp;
      if order > 4 * c.f.p {
        res := None;
        return;
      }
    }
  }

  // ---------------------------------------------------------------------
  // OrderBG

  /**
    * OrderBG's scalars stay in int64: the largest it forms is
    * `p + 1 + 2m(p - 1) + (m - 1)`.
    */
  predicate Fits(c: Curve, m: int)
  {
    c.f.p + 1 + 2 * m * c.f.p < TWO_63
  }

  /** The giant step's scalar `p + 1 + 2km`. */
  function Giant(c: Curve, m: int, k: int): int
  {
    c.f.p + 1 + k * 2 * m
  }

  lemma GiantFits(c: Curve, m: int, k: int)
    requires Field.Valid(c.f) && 1 <= m && Fits(c, m) && 0 <= k < c.f.p
    ensures 0 <= k * 2 * m < Giant(c, m, k) && Giant(c, m, k) + m <= c.f.p + 1 + 2 * m * c.f.p
    ensures Giant(c, m, k) + m < TWO_63
  {
    MulLeft(k, c.f.p - 1, 2 * m);
    assert k * 2 * m == k * (2 * m);
  }

  /** The giant-step point `(p + 1)P + (2km)P` that approxOrder compares. */
  function Candidate(c: Curve, p: Point, m: int, k: int): Point
    requires Field.Valid(c.f) && InBounds(c, p) && 1 <= m && Fits(c, m) && 0 <= k < c.f.p
  {
    GiantFits(c, m, k);
    Add(c, ScalarMul(c, c.f.p + 1, p), ScalarMul(c, k * 2 * m, p))
  }

  /** The abscissas of the baby steps `jP` for `j` in `[0, m)`. */
  function BabyX(c: Curve, p: Point, m: i64): seq<int>
    requires 0 <= m
  {
    seq(m, j requires 0 <= j < m => ScalarMul(c, j, p).x)
  }

  /** The abscissas of the giant-step points for `k` in `[0, p)`. */
  function GiantX(c: Curve, p: Point, m: int): seq<int>
    requires Field.Valid(c.f) && InBounds(c, p) && 1 <= m && Fits(c, m)
  {
    seq(c.f.p, k requires 0 <= k < c.f.p => Candidate(c, p, m, k).x)
  }

  /** The first index from `j` on where the baby-step abscissas `bx` equal `x`. */
  function MatchFrom(x: int, bx: seq<int>, j: nat): (r: Option<nat>)
    ensures r.Some? ==> j <= r.value < |bx|
    decreases |bx| - j
  {
    if j >= |bx| then None
    else if x == bx[j] then Some(j)
    else MatchFrom(x, bx, j + 1)
  }

  /** The first hit `(k, j)`, `gx[k] == bx[j]`, from giant step `k` on, giant steps outermost. */
  function Scan(gx: seq<int>, bx: seq<int>, k: nat): (r: Option<(nat, nat)>)
    ensures r.Some? ==> k <= r.value.0 < |gx| && r.value.1 < |bx|
    decreases |gx| - k
  {
    if k >= |gx| then None
    else match MatchFrom(gx[k], bx, 0)
      case Some(j) => Some((k, j))
      case None => Scan(gx, bx, k + 1)
  }

  lemma {:induction false} MatchFromMeaning(x: int, bx: seq<int>, j: nat)
    ensures MatchFrom(x, bx, j).Some? ==>
      var h := MatchFrom(x, bx, j).value;
      j <= h < |bx| && x == bx[h] && forall i :: j <= i < h ==> x != bx[i]
    ensures MatchFrom(x, bx, j).None? ==> forall i :: j <= i < |bx| ==> x != bx[i]
    decreases |bx| - j
  {
    if j < |bx| && x != bx[j] {
      MatchFromMeaning(x, bx, j + 1);
    }
  }

  /**
    * The scan finds the first hit in giant-step order, and finds none only
    * when no giant step from `k` on hits any baby step.
    */
  lemma {:induction false} ScanMeaning(gx: seq<int>, bx: seq<int>, k: nat)
    ensures Scan(gx, bx, k).Some? ==>
      var (g, h) := Scan(gx, bx, k).value;
      k <= g < |gx| && 0 <= h < |bx| && gx[g] == bx[h] &&
      (forall i :: 0 <= i < h ==> gx[g] != bx[i]) &&
      forall l, i :: k <= l < g && 0 <= i < |bx| ==> gx[l] != bx[i]
    ensures Scan(gx, bx, k).None? ==>
      forall l, i :: k <= l < |gx| && 0 <= i < |bx| ==> gx[l] != bx[i]
    decreases |gx| - k
  {
    if k < |gx| {
      MatchFromMeaning(gx[k], bx, 0);
      if MatchFrom(gx[k], bx, 0).None? {
        ScanMeaning(gx, bx, k + 1);
      }
    }
  }

  /**
    * `approxOrder`, run over all giant steps `[0, p)` in order: the source
    * splits them between two goroutines and takes whichever hit arrives
    * first.  The hit is reported as the scalar `p + 1 + 2km` and `j`.
    */
  method ApproxOrder(c: Curve, p: Point, m: i64, q: Point, pj: array<Point>) returns (res: Option<(i64, i64)>)
    requires Field.Valid(c.f) && InBounds(c, p) && 1 <= m && Fits(c, m)
    requires pj.Length == m && Abscissas(pj[..]) == BabyX(c, p, m)
    requires q == ScalarMul(c, c.f.p + 1, p) && InBounds(c, q)
    ensures res.None? <==> Scan(GiantX(c, p, m), BabyX(c, p, m), 0).None?
    ensures res.Some? ==>
      var hit := Scan(GiantX(c, p, m), BabyX(c, p, m), 0).value;
      res.value.0 == Giant(c, m, hit.0) && res.value.1 == hit.1
  {
    ghost var gx, bx := GiantX(c, p, m), BabyX(c, p, m);
    var k: i64 := 0;
    while k < c.f.p
      invariant 0 <= k <= c.f.p
      invariant Scan(gx, bx, k) == Scan(gx, bx, 0)
    {
      var found := TryGiant(c, p, m, q, k, pj);
      if found.Some? {
        res := found;
        return;
      }
      k := k + 1;
    }
    res := None;
  }

  /** A giant step that misses hands the scan on to the next step. */
  lemma ScanStep(gx: seq<int>, bx: seq<int>, k: nat)
    requires k < |gx| && MatchFrom(gx[k], bx, 0).None?
    ensures Scan(gx, bx, k) == Scan(gx, bx, k + 1)
  {
  }

  /** A giant step that hits ends the scan there. */
  lemma ScanHit(gx: seq<int>, bx: seq<int>, k: nat, j: nat)
    requires k < |gx| && MatchFrom(gx[k], bx, 0) == Some(j)
    ensures Scan(gx, bx, k) == Some((k, j))
  {
  }

  /**
    * One round of approxOrder's outer loop: the first baby step matching
    * giant step `k`, reported with the scalar `p + 1 + 2km`; a miss hands the
    * scan on to `k + 1`.
    */
  method TryGiant(c: Curve, p: Point, m: i64, q: Point, k: i64, pj: array<Point>) returns (found: Option<(i64, i64)>)
    requires Field.Valid(c.f) && InBounds(c, p) && 1 <= m && Fits(c, m) && 0 <= k < c.f.p
    requires pj.Length == m && Abscissas(pj[..]) == BabyX(c, p, m)
    requires q == ScalarMul(c, c.f.p + 1, p) && InBounds(c, q)
    ensures found.None? ==> Scan(GiantX(c, p, m), BabyX(c, p, m), k) == Scan(GiantX(c, p, m), BabyX(c, p, m), k + 1)
    ensures found.Some? ==>
      Scan(GiantX(c, p, m), BabyX(c, p, m), k) == Some((k as int, found.value.1 as int)) &&
      found.value.0 == Giant(c, m, k)
  {
    ghost var gx, bx := GiantX(c, p, m), BabyX(c, p, m);
    var cand := GiantStep(c, p, m, q, k);
    var j := FirstMatch(cand.x, pj);
    if j.None? {
      ScanStep(gx, bx, k);
      return None;
    }
    ScanHit(gx, bx, k, j.value);
    GiantFits(c, m, k);
    var g: i64 := c.f.p + 1 + k * 2 * m;
    found := Some((g, j.value));
  }

  /** The giant-step point for `k`, computed as approxOrder does. */
  method GiantStep(c: Curve, p: Point, m: i64, q: Point, k: i64) returns (cand: Point)
    requires Field.Valid(c.f) && InBounds(c, p) && 1 <= m && Fits(c, m) && 0 <= k < c.f.p
    requires q == ScalarMul(c, c.f.p + 1, p) && InBounds(c, q)
    ensures cand == Candidate(c, p, m, k)
    ensures cand.x == GiantX(c, p, m)[k]
  {
    GiantFits(c, m, k);
    var t := ScalarM(c, k * 2 * m, p);
    cand := Add(c, q, t);
    assert cand == Candidate(c, p, m, k);
  }

  /** The abscissas of a sequence of points. */
  function Abscissas(s: seq<Point>): seq<int>
  {
    seq(|s|, i requires 0 <= i < |s| => s[i].x)
  }

  /** approxOrder's inner loop: the first baby step whose abscissa is `x`. */
  method FirstMatch(x: i64, pj: array<Point>) returns (r: Option<i64>)
    requires pj.Length < TWO_63
    ensures r.None? ==> MatchFrom(x, Abscissas(pj[..]), 0).None?
    ensures r.Some? ==> MatchFrom(x, Abscissas(pj[..]), 0) == Some(r.value)
  {
    ghost var bx := Abscissas(pj[..]);
    var j: i64 := 0;
    while j < pj.Length
      invariant 0 <= j <= pj.Length
      invariant MatchFrom(x, bx, j) == MatchFrom(x, bx, 0)
    {
      if x == pj[j].x {
        r := Some(j);
        return;
      }
      j := j + 1;
    }
    r := None;
  }

  /** OrderBG's table of baby steps: `pj[j]` is `jP` for `j` in `[0, m)`. */
  method BabySteps(c: Curve, p: Point, m: i64) returns (pj: array<Point>)
    requires Field.Valid(c.f) && InBounds(c, p) && 0 <= m
    ensures fresh(pj) && pj.Length == m
    ensures forall j :: 0 <= j < m ==> pj[j] == ScalarMul(c, j, p)
    ensures Abscissas(pj[..]) == BabyX(c, p, m)
  {
    pj := new Point[m];
    var j: i64 := 0;
    while j < m
      invariant 0 <= j <= m
      invariant forall i :: 0 <= i < j ==> pj[i] == ScalarMul(c, i, p)
      modifies pj
    {
      pj[j] := ScalarM(c, j, p);
      j := j + 1;
    }
  }

  /** The sign choice: `g + j` if that multiple of `p` is the identity, `g - j` otherwise. */
  function SignChoice(c: Curve, p: Point, m: i64, k: int, j: int): i64
    requires Field.Valid(c.f) && 1 <= m && Fits(c, m) && 0 <= k < c.f.p && 0 <= j < m
  {
    GiantFits(c, m, k);
    var g := Giant(c, m, k);
    if ScalarMul(c, g + j, p).inf then g + j else g - j
  }

  /**
    * `Curve.OrderBG` for a given `m` (the source derives it from the fourth
    * root of `p` in floating point): find the first giant step whose
    * abscissa matches a baby step, choose the sign, then shrink the multiple
    * by its prime factors while the smaller multiple still annihilates `p`.
    * None stands for the source's wait on a channel no goroutine sends to.
    */
  method OrderBG(c: Curve, p: Point, m: i64) returns (res: Option<i64>)
    requires Field.Valid(c.f) && InBounds(c, p)
    requires 1 <= m <= c.f.p + 1 && Fits(c, m)
    ensures res.None? <==> Scan(GiantX(c, p, m), BabyX(c, p, m), 0).None?
    ensures res.Some? ==>
      var hit := Scan(GiantX(c, p, m), BabyX(c, p, m), 0).value;
      var mp := SignChoice(c, p, m, hit.0, hit.1);
      1 <= res.value <= mp &&
      (ScalarMul(c, mp, p).inf ==> ScalarMul(c, res.value, p).inf) &&
      (res.value < mp ==> ScalarMul(c, res.value, p).inf)
  {
    GiantFits(c, m, 0);
    var q := ScalarM(c, c.f.p + 1, p);
    var pj := BabySteps(c, p, m);
    var found := ApproxOrder(c, p, m, q, pj);
    if found.None? {
      res := None;
      return;
    }
    ghost var hit := Scan(GiantX(c, p, m), BabyX(c, p, m), 0).value;
    var mp := ChooseSign(c, p, m, found.value.0, found.value.1, hit.0);
    var r := Minimise(c, p, mp);
    res := Some(r);
  }

  /** OrderBG's sign choice on the reported hit `(g, j)`, where `g` is giant step `k`'s scalar. */
  method ChooseSign(c: Curve, p: Point, m: i64, g: i64, j: i64, ghost k: int) returns (mp: i64)
    requires Field.Valid(c.f) && InBounds(c, p) && 1 <= m <= c.f.p + 1 && Fits(c, m)
    requires 0 <= k < c.f.p && 0 <= j < m && g == Giant(c, m, k)
    ensures mp == SignChoice(c, p, m, k, j) && mp >= 1
  {
    GiantFits(c, m, k);
    var id := ScalarM(c, g + j, p);
    if id.inf {
      mp := g + j;
    } else {
      mp := g - j;
    }
  }

  /**
    * OrderBG's last loop: for each prime factor `f` of `mp` in turn, replace
    * `mp` by `mp / f` while that multiple of `p` is the identity, stopping
    * early once the quotient is zero.
    */
  method Minimise(c: Curve, p: Point, mp: i64) returns (r: i64)
    requires Field.Valid(c.f) && InBounds(c, p) && mp >= 1
    ensures 1 <= r <= mp
    ensures ScalarMul(c, mp, p).inf ==> ScalarMul(c, r, p).inf
    ensures r < mp ==> ScalarMul(c, r, p).inf
  {
    var pfs := Primes.PrimeFactors(mp);
    r := mp;
    var i := 0;
    while i < |pfs|
      invariant 0 <= i <= |pfs| && 1 <= r <= mp
      invariant ScalarMul(c, mp, p).inf ==> ScalarMul(c, r, p).inf
      invariant r < mp ==> ScalarMul(c, r, p).inf
      decreases r, |pfs| - i
    {
      assert Prime(pfs[i]);
      QuotientSmaller(r, pfs[i]);
      var s: i64 := r / pfs[i];
      if s == 0 {
        break;
      }
      var id := ScalarM(c, s, p);
      if id.inf {
        r := s;
      } else {
        i := i + 1;
      }
    }
  }

  lemma QuotientSmaller(r: int, f: int)
    requires r >= 1 && f >= 2
    ensures 0 <= r / f < r
  {
    var q := r / f;
    assert q * f + r % f == r && 0 <= r % f;
    if q < 0 {
      MulLeft(q, -1, f);
      assert false;
    }
    if q >= r {
      MulLeft(2, f, q);
      assert false;
    }
  }
}
