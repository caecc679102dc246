// Consequences of the group law on the multiples of a point: once the
// multiples add up (Curve.Additive) and the `n`-th multiple is the identity,
// multiples repeat with period `n`, multiples of a multiple are multiples,
// and for a prime `n` no multiple strictly between 0 and `n` is the identity.
// ECDSA's correctness rests on these; none of them is about a particular
// addition, so they are stated for any `add`.
module CurveGroup {
  import opened Numbers
  import Field
  import opened Curve

  /** Adding the identity multiple to itself gives the identity, so its multiples are all the identity. */
  lemma {:induction false} RepeatOfIdentity(add: (Point, Point) -> Point, g: Point, i: nat)
    requires Additive(add, g)
    ensures RepeatOf(add, i, Identity) == Identity
    decreases i
  {
    if i > 0 {
      RepeatOfIdentity(add, g, i - 1);
      assert AddsUp(add, g, 0, 0);
    }
  }

  /** The `i`-th multiple of the `d`-th multiple of `g` is the `(i * d)`-th multiple of `g`. */
  lemma {:induction false} RepeatOfRepeat(add: (Point, Point) -> Point, g: Point, d: nat, i: nat)
    requires Additive(add, g)
    ensures RepeatOf(add, i, RepeatOf(add, d, g)) == RepeatOf(add, Times(i, d), g)
    decreases i
  {
    if i > 0 {
      RepeatOfRepeat(add, g, d, i - 1);
      assert AddsUp(add, g, Times(i - 1, d), d);
      assert Times(i - 1, d) + d == Times(i, d);
    }
  }

  /** `i * d`, typed as a natural number. */
  function Times(i: nat, d: nat): nat
  {
    i * d
  }

  /** When the `n`-th multiple is the identity, multiples repeat with period `n`. */
  lemma RepeatPeriodic(add: (Point, Point) -> Point, g: Point, n: nat, a: nat)
    requires Additive(add, g) && n >= 1 && RepeatOf(add, n, g) == Identity
    ensures RepeatOf(add, a, g) == RepeatOf(add, a % n, g)
  {
    var q, r := a / n, a % n;
    RepeatOfRepeat(add, g, n, q);
    RepeatOfIdentity(add, g, q);
    assert AddsUp(add, g, Times(q, n), r);
    assert AddsUp(add, g, 0, r);
    assert Times(q, n) + r == a;
  }

  /** Adding the `a`-th and `b`-th multiples gives the `(a + b) mod n`-th. */
  lemma SumPeriodic(add: (Point, Point) -> Point, g: Point, n: nat, a: nat, b: nat)
    requires Additive(add, g) && n >= 1 && RepeatOf(add, n, g) == Identity
    ensures add(RepeatOf(add, a, g), RepeatOf(add, b, g)) == RepeatOf(add, (a + b) % n, g)
  {
    assert AddsUp(add, g, a, b);
    RepeatPeriodic(add, g, n, a + b);
  }

  /**
    * For a prime `n` with `n`-th multiple the identity, a first multiple other
    * than the identity makes every multiple strictly between 0 and `n` other
    * than the identity.
    */
  lemma PrimeOrderNonzero(add: (Point, Point) -> Point, g: Point, n: nat, d: nat)
    requires Additive(add, g) && Prime(n) && RepeatOf(add, n, g) == Identity
    requires RepeatOf(add, 1, g) != Identity && 0 < d < n
    ensures RepeatOf(add, d, g) != Identity
  {
    if RepeatOf(add, d, g) == Identity {
      PrimeCoprime(n, d);
      var x, y := Bezout(d, n);
      var a: nat := x % n;
      ReducedInverse(n, d, x, y);
      RepeatOfRepeat(add, g, d, a);
      RepeatOfIdentity(add, g, a);
      RepeatPeriodic(add, g, n, Times(a, d));
      assert false;
    }
  }

  /** On the curve, multiples of a finite point are finite or exactly the identity. */
  lemma {:induction false} RepeatFiniteOrIdentity(c: Curve, i: nat, g: Point)
    requires Field.Valid(c.f) && InBounds(c, g) && !g.inf
    ensures Repeat(c, i, g) == Identity || !Repeat(c, i, g).inf
    decreases i
  {
    if i > 0 {
      RepeatFiniteOrIdentity(c, i - 1, g);
      var x := Repeat(c, i - 1, g);
      RepeatInBounds(c, i - 1, g);
      assert Repeat(c, i, g) == Add(c, x, g);
      if !x.inf {
        AddMeaning(c, x, g);
      }
    }
  }

  /** A Bezout coefficient reduced mod `n` is still an inverse of `d`. */
  lemma ReducedInverse(n: nat, d: nat, x: int, y: int)
    requires n >= 2 && x * d + y * n == 1
    ensures Times(x % n, d) % n == 1
  {
    ModMod(x, n);
    ModMulCongruent(x % n, x, d, d, n);
    assert x * d == 1 + (-y) * n;
    ModMultiple(1, -y, n);
    assert (x * d) % n == 1 % n;
    ModSmall(1, n);
  }

  /**
    * For any addition under which the multiples of `g` add up, the ladder
    * run on the `d`-th multiple with the 64 bits of `k >= 0` reaches the
    * `(k * d)`-th multiple.
    */
  lemma LadderMultiple(add: (Point, Point) -> Point, g: Point, k: i64, d: nat)
    requires Additive(add, g) && k >= 0
    ensures Ladder(add, U64(k), Identity, RepeatOf(add, d, g), Field.BIT_LENGTH) == RepeatOf(add, Times(k, d), g)
  {
    assert RepeatOf(add, 0, g) == Identity;
    LadderRepeat(add, g, k, 0, d, Field.BIT_LENGTH);
    assert LadderCount(k, 0, d, Field.BIT_LENGTH) == Times(k, d) by {
      LadderCountValue(k, 0, d, Field.BIT_LENGTH);
      Pow2Word();
      ModSmall(k, Pow2(64));
    }
  }

  /**
    * Under the group law on the multiples of `g`, ScalarM by `k` of the
    * `d`-th multiple of `g` is its `(k * d)`-th multiple (for `k >= 0`).
    */
  lemma ScalarMulOfMultiple(c: Curve, k: i64, d: nat, g: Point)
    requires MultiplesAdd(c, g) && k >= 0
    ensures ScalarMul(c, k, Repeat(c, d, g)) == Repeat(c, Times(k, d), g)
  {
    LadderMultiple(Sum(c), g, k, d);
  }

  /**
    * With period `n`, the ladder's `a`-th multiple of `g` plus its `b`-th
    * multiple of the `d`-th multiple is the `(a + b * d) mod n`-th multiple.
    */
  lemma {:induction false} SumOfLadders(add: (Point, Point) -> Point, g: Point, n: nat, a: i64, b: i64, d: nat)
    requires Additive(add, g) && n >= 1 && RepeatOf(add, n, g) == Identity && 0 <= a && 0 <= b
    ensures
      add(Ladder(add, U64(a), Identity, RepeatOf(add, 1, g), Field.BIT_LENGTH),
          Ladder(add, U64(b), Identity, RepeatOf(add, d, g), Field.BIT_LENGTH)) ==
      RepeatOf(add, (a + Times(b, d)) % n, g)
  {
    var t := Times(b, d);
    var x := Ladder(add, U64(a), Identity, RepeatOf(add, 1, g), Field.BIT_LENGTH);
    var y := Ladder(add, U64(b), Identity, RepeatOf(add, d, g), Field.BIT_LENGTH);
    LadderMultiple(add, g, a, 1);
    assert x == RepeatOf(add, a, g) by {
      assert Times(a, 1) == a;
    }
    LadderMultiple(add, g, b, d);
    SumPeriodic(add, g, n, a, t);
  }

  /** ScalarM by `a` of `g` plus ScalarM by `b` of `q = d·g` is the `(a + b * d) mod n`-th multiple of `g`. */
  lemma SumOfMultiples(c: Curve, a: i64, b: i64, d: nat, q: Point)
    requires Field.Valid(c.f) && InBounds(c, c.g) && MultiplesAdd(c, c.g)
    requires c.n >= 1 && Repeat(c, c.n, c.g) == Identity && 0 <= a && 0 <= b && q == Repeat(c, d, c.g)
    ensures Sum(c)(ScalarMul(c, a, c.g), ScalarMul(c, b, q)) == Repeat(c, (a + Times(b, d)) % c.n, c.g)
  {
    var add := Sum(c);
    assert RepeatOf(add, 1, c.g) == c.g by {
      assert RepeatOf(add, 1, c.g) == add(Identity, c.g);
      assert InBounds(c, Identity);
      assert add(Identity, c.g) == Add(c, Identity, c.g);
    }
    SumOfLadders(add, c.g, c.n, a, b, d);
  }
}
