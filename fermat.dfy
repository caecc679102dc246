// Fermat's little theorem, on which the square root of pkg/field/field.go
// rests: for a prime p not dividing a, a^(p-1) ≡ 1 (mod p).  The proof is
// the classical one: multiplying 1, ..., p-1 by a only permutes them
// modulo p, so both lists have the same product.
module Fermat {
  import opened Numbers

  /** `1, 2, ..., n`. */
  function Upto(n: nat): seq<int>
  {
    seq(n, i => i + 1)
  }

  /** `a·1, a·2, ..., a·n`, each reduced mod `p`. */
  function Scaled(a: int, p: int, n: nat): seq<int>
    requires p > 0
  {
    seq(n, i => (a * (i + 1)) % p)
  }

  predicate Distinct(s: seq<int>)
  {
    forall i, j :: 0 <= i < j < |s| ==> s[i] != s[j]
  }

  lemma {:induction false} ProductConcat(s: seq<int>, t: seq<int>)
    ensures Product(s + t) == Product(s) * Product(t)
    decreases |s|
  {
    if s != [] {
      assert (s + t)[1..] == s[1..] + t;
      ProductConcat(s[1..], t);
      var x, m, n := s[0], Product(s[1..]), Product(t);
      assert Product(s + t) == x * Product(s[1..] + t);
      assert Product(s) == x * m;
      assert x * (m * n) == (x * m) * n;
    } else {
      assert s + t == t;
    }
  }

  /** The product does not depend on the order of the factors. */
  lemma {:induction false} ProductPermutation(s: seq<int>, t: seq<int>)
    requires multiset(s) == multiset(t)
    ensures Product(s) == Product(t)
    decreases |s|
  {
    if s == [] {
      assert |t| == |multiset(t)| == 0;
    } else {
      assert s[0] in multiset(t);
      assert s[0] in t;
      var j :| 0 <= j < |t| && t[j] == s[0];
      var rest := t[..j] + t[j + 1..];
      RemoveFirst(s, t, j);
      ProductPermutation(s[1..], rest);
      ProductRemove(t, j);
    }
  }

  /** Taking the same value out of two permutations leaves permutations. */
  lemma RemoveFirst(s: seq<int>, t: seq<int>, j: int)
    requires multiset(s) == multiset(t) && s != [] && 0 <= j < |t| && t[j] == s[0]
    ensures multiset(s[1..]) == multiset(t[..j] + t[j + 1..])
  {
    assert t == t[..j] + [t[j]] + t[j + 1..];
    assert s == [s[0]] + s[1..];
    assert multiset(s[1..]) == multiset(s) - multiset{s[0]};
    assert multiset(t[..j] + t[j + 1..]) == multiset(t) - multiset{t[j]};
  }

  lemma ProductRemove(t: seq<int>, j: int)
    requires 0 <= j < |t|
    ensures Product(t) == t[j] * Product(t[..j] + t[j + 1..])
  {
    var u, v, w := t[..j], [t[j]] + t[j + 1..], t[j + 1..];
    assert t == u + v;
    assert v[1..] == w;
    ProductConcat(u, v);
    ProductConcat(u, w);
    Rearrange(Product(u), t[j], Product(w), Product(v), Product(t));
  }

  /** In a list without repeats every member occurs once. */
  lemma {:induction false} DistinctCount(s: seq<int>, x: int)
    requires Distinct(s)
    ensures multiset(s)[x] == if x in s then 1 else 0
    decreases |s|
  {
    if s != [] {
      assert s == [s[0]] + s[1..];
      assert Distinct(s[1..]);
      DistinctCount(s[1..], x);
    }
  }

  /** Two lists without repeats and with the same members are permutations of each other. */
  lemma DistinctPermutation(s: seq<int>, t: seq<int>)
    requires Distinct(s) && Distinct(t)
    requires forall x :: x in s <==> x in t
    ensures multiset(s) == multiset(t)
  {
    forall x
      ensures multiset(s)[x] == multiset(t)[x]
    {
      DistinctCount(s, x);
      DistinctCount(t, x);
    }
  }

  lemma ScaledNonzero(a: int, p: int, k: int)
    requires Prime(p) && a % p != 0 && 1 <= k < p
    ensures (a * k) % p != 0
  {
    if (a * k) % p == 0 {
      EuclidLemma(p, a, k);
      DivisorLe(p, k);
    }
  }

  lemma ScaledInjective(a: int, p: int, k: int, l: int)
    requires Prime(p) && a % p != 0 && 1 <= k < l < p
    ensures (a * k) % p != (a * l) % p
  {
    if (a * k) % p == (a * l) % p {
      ModEqual(a * l, a * k, p);
      assert a * l - a * k == a * (l - k);
      EuclidLemma(p, a, l - k);
      DivisorLe(p, l - k);
    }
  }

  /** `a` has an inverse mod `p`, from Bézout's identity for `a mod p` and `p`. */
  lemma InverseExists(a: int, p: int) returns (b: int)
    requires Prime(p) && a % p != 0
    ensures (a * b) % p == 1
  {
    var ar: nat := a % p;
    PrimeCoprime(p, ar);
    var u, v := Bezout(ar, p);
    assert u * ar == 1 + (-v) * p;
    ModMultiple(1, -v, p);
    ModSmall(1, p);
    ModMod(a, p);
    ModMulCongruent(a, ar, u, u, p);
    b := u;
  }

  lemma Rearrange(a: int, x: int, b: int, v: int, t: int)
    requires v == x * b && t == a * v
    ensures t == x * (a * b)
  {
  }

  /** Every nonzero residue is `a·k mod p` for some `k` in `[1, p)`: `k = x / a`. */
  lemma ScaledOnto(a: int, p: int, x: int) returns (k: int)
    requires Prime(p) && a % p != 0 && 1 <= x < p
    ensures 1 <= k < p && (a * k) % p == x
  {
    var b := InverseExists(a, p);
    k := (b * x) % p;
    MulInverse(a, b, x, p);
    ResidueFactorNonzero(a, k, p, x);
  }

  lemma ResidueFactorNonzero(a: int, k: int, p: int, x: int)
    requires p > 0 && (a * k) % p == x && x != 0
    ensures k != 0
  {
    assert k == 0 ==> a * k == 0;
  }

  lemma MulInverse(a: int, b: int, x: int, p: int)
    requires p > 1 && (a * b) % p == 1 && 0 <= x < p
    ensures (a * ((b * x) % p)) % p == x
  {
    var bx, ab := b * x, a * b;
    ModMod(bx, p);
    ModMulCongruent(a, a, bx % p, bx, p);
    assert a * bx == ab * x;
    ModSmall(1, p);
    ModMulCongruent(ab, 1, x, x, p);
    ModSmall(x, p);
  }

  lemma ScaledPermutes(a: int, p: int)
    requires Prime(p) && a % p != 0
    ensures multiset(Scaled(a, p, p - 1)) == multiset(Upto(p - 1))
  {
    var s, t := Scaled(a, p, p - 1), Upto(p - 1);
    ScaledDistinct(a, p);
    forall x
      ensures x in s <==> x in t
    {
      ScaledMember(a, p, x);
    }
    DistinctPermutation(s, t);
  }

  lemma ScaledDistinct(a: int, p: int)
    requires Prime(p) && a % p != 0
    ensures Distinct(Scaled(a, p, p - 1))
  {
    var s := Scaled(a, p, p - 1);
    forall i, j | 0 <= i < j < |s|
      ensures s[i] != s[j]
    {
      var k, l := i + 1, j + 1;
      assert s[i] == (a * k) % p && s[j] == (a * l) % p;
      ScaledInjective(a, p, k, l);
    }
  }

  /** The scaled list holds exactly the nonzero residues. */
  lemma ScaledMember(a: int, p: int, x: int)
    requires Prime(p) && a % p != 0
    ensures x in Scaled(a, p, p - 1) <==> x in Upto(p - 1)
  {
    var s, t := Scaled(a, p, p - 1), Upto(p - 1);
    if x in s {
      var i :| 0 <= i < |s| && s[i] == x;
      ScaledNonzero(a, p, i + 1);
      assert t[x - 1] == x;
    }
    if x in t {
      var k := ScaledOnto(a, p, x);
      assert s[k - 1] == x;
    }
  }

  /** Reduced mod `p`, the scaled list multiplies out to `a^n · n!`. */
  lemma {:induction false} ScaledProduct(a: int, p: int, n: nat)
    requires p > 0
    ensures Product(Scaled(a, p, n)) % p == (Pow(a, n) * Product(Upto(n))) % p
    decreases n
  {
    if n > 0 {
      ScaledProduct(a, p, n - 1);
      assert Scaled(a, p, n) == Scaled(a, p, n - 1) + [(a * n) % p];
      assert Upto(n) == Upto(n - 1) + [n];
      ProductAppend(Scaled(a, p, n - 1), (a * n) % p);
      ProductAppend(Upto(n - 1), n);
      ScaledStep(Product(Scaled(a, p, n - 1)), Product(Upto(n - 1)), a, n, Pow(a, n - 1), p);
    }
  }

  lemma ScaledStep(s: int, u: int, a: int, n: int, w: int, p: int)
    requires p > 0 && s % p == (w * u) % p
    ensures (s * ((a * n) % p)) % p == ((a * w) * (u * n)) % p
  {
    ModMod(a * n, p);
    ModMulCongruent(s, w * u, (a * n) % p, a * n, p);
    assert (w * u) * (a * n) == (a * w) * (u * n);
  }

  /** A prime does not divide `n!` for `n` below it. */
  lemma {:induction false} UptoNotDivisible(p: int, n: nat)
    requires Prime(p) && n < p
    ensures !Divides(p, Product(Upto(n)))
    decreases n
  {
    if n > 0 {
      UptoNotDivisible(p, n - 1);
      assert Upto(n) == Upto(n - 1) + [n];
      ProductAppend(Upto(n - 1), n);
      if Divides(p, Product(Upto(n))) {
        EuclidLemma(p, Product(Upto(n - 1)), n);
        DivisorLe(p, n);
      }
    } else {
      ModSmall(1, p);
    }
  }

  /** Fermat's little theorem. */
  lemma Fermat(a: int, p: int)
    requires Prime(p) && a % p != 0
    ensures Pow(a, p - 1) % p == 1
  {
    var n := p - 1;
    var u := Product(Upto(n));
    ScaledPermutes(a, p);
    ProductPermutation(Scaled(a, p, n), Upto(n));
    ScaledProduct(a, p, n);
    ModEqual(Pow(a, n) * u, u, p);
    assert Pow(a, n) * u - u == (Pow(a, n) - 1) * u;
    EuclidLemma(p, Pow(a, n) - 1, u);
    UptoNotDivisible(p, n);
    ModEqual(Pow(a, n), 1, p);
    ModSmall(1, p);
  }
}
