// The trial-division factoriser of pkg/math/prime.go: halve while even, then
// divide by odd candidates while their square fits, and keep what is left.
module Primes {
  import opened Numbers

  predicate AllPrime(s: seq<int>)
  {
    forall k :: 0 <= k < |s| ==> Prime(s[k])
  }

  predicate Sorted(s: seq<int>)
  {
    forall k, l :: 0 <= k <= l < |s| ==> s[k] <= s[l]
  }

  /** No number in `[2, i)` divides `n`. */
  predicate NoDivisorBelow(n: int, i: int)
  {
    forall d :: 2 <= d < i ==> !Divides(d, n)
  }

  /**
    * The state of the factoriser: `pfs` are prime, in order and at most
    * `bound`, and together with the unfactored rest `n` they multiply to `n0`.
    */
  predicate Factoring(pfs: seq<int>, n: int, n0: int, bound: int)
  {
    1 <= n <= n0 && Product(pfs) * n == n0 && AllPrime(pfs) && Sorted(pfs) &&
    forall k :: 0 <= k < |pfs| ==> pfs[k] <= bound
  }

  method PrimeFactors(n0: i64) returns (pfs: seq<int>)
    requires n0 >= 1
    ensures Product(pfs) == n0
    ensures AllPrime(pfs)
    ensures Sorted(pfs)
  {
    pfs := [];
    var n: int := n0;
    assert Prime(2);
    pfs, n := DivideOut(pfs, n, 2, n0);
    var i := 3;
    while i * i <= n
      invariant 3 <= i && i % 2 == 1
      invariant Factoring(pfs, n, n0, i - 1)
      invariant NoDivisorBelow(n, i)
      decreases n0 - i
    {
      MulLeft(1, i, i);
      pfs, n := TrialRound(pfs, n, i, n0);
      i := i + 2;
    }
    Residual(pfs, n, n0, i);
    if n > 2 {
      pfs := pfs + [n];
    }
  }

  /** One odd candidate `i` of PrimeFactors: divide it out, leaving no divisor below `i + 2`. */
  method TrialRound(pfs: seq<int>, n: int, i: int, ghost n0: int) returns (pfs': seq<int>, n': int)
    requires 3 <= i && i % 2 == 1 && Factoring(pfs, n, n0, i - 1) && NoDivisorBelow(n, i)
    ensures Factoring(pfs', n', n0, i + 1) && NoDivisorBelow(n', i + 2)
  {
    Loosen(pfs, n, n0, i - 1, i);
    pfs', n' := DivideOut(pfs, n, i, n0);
    NextCandidate(n', i);
    Loosen(pfs', n', n0, i, i + 1);
  }

  /**
    * Once the candidate's square exceeds the unfactored rest, the rest is 1
    * or a prime above every recorded factor.
    */
  lemma Residual(pfs: seq<int>, n: int, n0: int, i: int)
    requires 3 <= i && i * i > n && Factoring(pfs, n, n0, i - 1) && NoDivisorBelow(n, i)
    ensures n <= 2 ==> n == 1 && Factoring(pfs, 1, n0, i - 1)
    ensures n > 2 ==> Factoring(pfs + [n], 1, n0, n)
  {
    assert !Divides(2, n);
    if n > 2 {
      CofactorPrime(n, i);
      Loosen(pfs, n, n0, i - 1, n);
      AppendFactor(pfs, n, n, n0);
      assert n / n == 1;
    } else {
      assert n == 1;
    }
  }

  lemma Loosen(pfs: seq<int>, n: int, n0: int, bound: int, bound': int)
    requires Factoring(pfs, n, n0, bound) && bound <= bound'
    ensures Factoring(pfs, n, n0, bound')
  {
  }

  /**
    * The repeated division shared by both phases of PrimeFactors: while `d`
    * divides `n`, record `d` and divide it out.  Since nothing below `d`
    * divides `n`, each recorded `d` is prime.
    */
  method DivideOut(pfs: seq<int>, n: int, d: int, ghost n0: int) returns (pfs': seq<int>, n': int)
    requires 2 <= d && Factoring(pfs, n, n0, d) && NoDivisorBelow(n, d)
    ensures Factoring(pfs', n', n0, d) && n' <= n && n' % d != 0
    ensures NoDivisorBelow(n', d)
    ensures |pfs| <= |pfs'| && pfs'[..|pfs|] == pfs
    ensures forall k :: |pfs| <= k < |pfs'| ==> pfs'[k] == d
  {
    pfs', n' := pfs, n;
    while n' % d == 0
      invariant Factoring(pfs', n', n0, d) && n' <= n
      invariant NoDivisorBelow(n', d)
      invariant |pfs| <= |pfs'| && pfs'[..|pfs|] == pfs
      invariant forall k :: |pfs| <= k < |pfs'| ==> pfs'[k] == d
      decreases n'
    {
      SmallestDivisorPrime(n', d);
      DivideOutDivisor(n', d);
      AppendFactor(pfs', d, n', n0);
      pfs' := pfs' + [d];
      n' := n' / d;
    }
  }

  /** Appending a prime factor `i` of `n` at least as large as every entry keeps the state. */
  lemma AppendFactor(pfs: seq<int>, i: int, n: int, n0: int)
    requires Factoring(pfs, n, n0, i) && Prime(i) && n % i == 0
    ensures Factoring(pfs + [i], n / i, n0, i)
  {
    var s := pfs + [i];
    ProductAppend(pfs, i);
    ProductShift(Product(pfs), i, n);
    assert AllPrime(s) by {
      forall k | 0 <= k < |s| ensures Prime(s[k]) {
        if k < |pfs| { assert s[k] == pfs[k]; }
      }
    }
    assert Sorted(s) by {
      forall k, l | 0 <= k <= l < |s| ensures s[k] <= s[l] {
        if l < |pfs| { assert s[k] == pfs[k] && s[l] == pfs[l]; }
        else if k < |pfs| { assert s[k] == pfs[k]; }
      }
    }
  }

  /** Moving a factor `i` of `n` across the product. */
  lemma ProductShift(a: int, i: int, n: int)
    requires i >= 2 && n >= 1 && n % i == 0
    ensures (a * i) * (n / i) == a * n && 1 <= n / i <= n
  {
    var m := n / i;
    assert n == m * i;
    assert (a * i) * m == a * (m * i);
    MulLeft(1, i, m);
  }

  /** The least divisor above 1 is prime. */
  lemma SmallestDivisorPrime(n: int, i: int)
    requires n >= 1 && i >= 2 && n % i == 0 && NoDivisorBelow(n, i)
    ensures Prime(i)
  {
    forall d | 2 <= d < i
      ensures !Divides(d, i)
    {
      if Divides(d, i) {
        DividesTransitive(d, i, n);
        assert false;
      }
    }
  }

  lemma DividesTransitive(d: int, m: int, n: int)
    requires d > 0 && m > 0 && Divides(d, m) && Divides(m, n)
    ensures Divides(d, n)
  {
    var k := n / m;
    assert n == k * m;
    DividesProduct(d, m, k);
  }

  /** Dividing out a divisor keeps the cofactor free of smaller divisors. */
  lemma DivideOutDivisor(n: int, i: int)
    requires n >= 1 && i >= 2 && n % i == 0 && NoDivisorBelow(n, i)
    ensures 1 <= n / i < n && NoDivisorBelow(n / i, i)
    ensures (n / i) * i == n
  {
    var m := n / i;
    assert n == m * i;
    assert m >= 1;
    MulLeft(2, i, m);
    forall d | 2 <= d < i
      ensures !Divides(d, m)
    {
      assert i * m == n;
      if Divides(d, m) {
        DividesProduct(d, m, i);
        assert false;
      }
    }
  }

  /** After `i` no longer divides the odd `n`, neither does `i + 1`. */
  lemma NextCandidate(n: int, i: int)
    requires n >= 1 && i >= 3 && i % 2 == 1 && NoDivisorBelow(n, i) && n % i != 0
    ensures NoDivisorBelow(n, i + 2)
  {
    forall d | 2 <= d < i + 2
      ensures !Divides(d, n)
    {
      if d == i + 1 && Divides(d, n) {
        assert Divides(2, d);
        DividesTransitive(2, d, n);
        assert false;
      }
    }
  }

  /** What is left once `i * i > n` and nothing below `i` divides it is prime. */
  lemma CofactorPrime(n: int, i: int)
    requires n >= 2 && i >= 2 && i * i > n && NoDivisorBelow(n, i)
    ensures Prime(n) && n >= i
  {
    forall d | 2 <= d < n
      ensures !Divides(d, n)
    {
      if Divides(d, n) {
        var e := n / d;
        assert n == e * d;
        if e < 2 {
          MulLeft(e, 1, d);
          assert false;
        }
        DivModUnique(n, d, 0, e);
        assert Divides(e, n);
        if d >= i && e >= i {
          MulLeft(i, d, i);
          MulLeft(i, e, d);
          assert false;
        }
        assert false;
      }
    }
    if n < i {
      assert Divides(n, n) by { DivModUnique(n, 1, 0, n); }
      assert false;
    }
  }

  /**
    * A factor list as PrimeFactors returns it is determined at the edges: the
    * list for 1 is empty and the list for a prime is that prime alone.
    */
  lemma FactorListEdges(pfs: seq<int>, n: int)
    requires Product(pfs) == n && AllPrime(pfs)
    ensures n == 1 <==> pfs == []
    ensures Prime(n) ==> pfs == [n]
  {
    ProductAtLeast(pfs);
    if Prime(n) && |pfs| > 1 {
      ProductHead(pfs);
      assert false;
    }
    if |pfs| == 1 {
      assert Product(pfs) == pfs[0] * Product(pfs[1..]);
    }
  }

  lemma ProductAtLeast(s: seq<int>)
    requires AllPrime(s)
    ensures Product(s) >= 1
    ensures |s| > 0 ==> Product(s) >= 2 && Product(s) >= s[0]
  {
    if s != [] {
      assert AllPrime(s[1..]) by {
        forall k | 0 <= k < |s[1..]| ensures Prime(s[1..][k]) {
          assert s[1..][k] == s[k + 1];
        }
      }
      ProductAtLeast(s[1..]);
      MulLeft(1, s[0], Product(s[1..]));
      MulLeft(1, Product(s[1..]), s[0]);
    }
  }

  /** The head of a factor list of length two or more is a proper divisor of the product. */
  lemma ProductHead(s: seq<int>)
    requires AllPrime(s) && |s| > 1
    ensures 2 <= s[0] < Product(s) && Divides(s[0], Product(s))
  {
    var rest := Product(s[1..]);
    assert AllPrime(s[1..]) by {
      forall k | 0 <= k < |s[1..]| ensures Prime(s[1..][k]) {
        assert s[1..][k] == s[k + 1];
      }
    }
    ProductAtLeast(s[1..]);
    assert Product(s) == s[0] * rest;
    MulLeft(2, rest, s[0]);
    DivModUnique(Product(s), rest, 0, s[0]);
  }
}
