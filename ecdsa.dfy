// ECDSA over a Curve.Curve, after pkg/ecdsa/sign.go: digest truncation,
// key generation and signing for a given secret and nonce, verification
// with the public-key checks, and recovery of the secret from two
// signatures that share a nonce.  The source composes field and curve calls
// without loops of its own, so every operation here is a function over the
// specification functions (ScalarMul, ModInverse) that the curve's and the
// field's methods are proved against.
module Ecdsa {
  import opened Wrappers
  import opened Numbers
  import Field
  import opened Curve
  import opened CurveGroup
  import CurveOrder

  type byte = b: int | 0 <= b < 0x100

  datatype PublicKey = PublicKey(c: Curve, p: Point)

  datatype PrivateKey = PrivateKey(pub: PublicKey, d: i64)

  /** `errInvK`, the one error of rawSign. */
  datatype SignError = InvalidK

  /** The three failures of `solve`, wrapping the field's error where it has one. */
  datatype SolveError =
    | DifferenceNotInvertible(e: Field.FieldError)
    | RNotInvertible(e: Field.FieldError)
    | KeyMismatch(d1: int, d2: int)

  // ---------------------------------------------------------------------
  // Digest truncation

  /** `big.Int.SetBytes`: the bytes read as an unsigned big-endian number. */
  function BigEndian(b: seq<byte>): (v: nat)
    ensures v < Pow2(8 * |b|)
    decreases |b|
  {
    if b == [] then 0
    else
      var v := BigEndian(b[..|b| - 1]);
      Pow2Add(8 * (|b| - 1), 8);
      v * 256 + b[|b| - 1]
  }

  /** Appending bytes shifts what came before up by eight bits per byte. */
  lemma {:induction false} BigEndianAppend(a: seq<byte>, b: seq<byte>)
    ensures BigEndian(a + b) == BigEndian(a) * Pow2(8 * |b|) + BigEndian(b)
    decreases |b|
  {
    if b == [] {
      assert a + b == a;
    } else {
      var b' := b[..|b| - 1];
      assert (a + b)[..|a + b| - 1] == a + b';
      BigEndianAppend(a, b');
      var x, q := BigEndian(a), Pow2(8 * |b'|);
      Pow2Byte(|b'|);
      ShiftByte(x, q, BigEndian(b'));
    }
  }

  lemma {:induction false} Pow2Byte(n: nat)
    ensures Pow2(8 * (n + 1)) == Pow2(8 * n) * 256
  {
    Pow2Add(8 * n, 8);
    assert 8 * (n + 1) == 8 * n + 8;
  }

  lemma {:induction false} ShiftByte(x: int, q: int, y: int)
    ensures (x * q + y) * 256 == x * (q * 256) + y * 256
  {
  }

  /** truncate panics unless `bs <= 31`, and its slice panics unless the digest has `(bs + 7) / 8` bytes. */
  predicate DigestFits(c: Curve, h: seq<byte>)
  {
    0 <= c.bs <= 31 && (c.bs + 7) / 8 <= |h|
  }

  /**
    * `truncate`: the first `(bs + 7) / 8` bytes read big-endian, shifted
    * right by the bits that exceed `bs`.
    */
  function Truncate(b: seq<byte>, bs: int): (z: i64)
    requires 0 <= bs <= 31 && (bs + 7) / 8 <= |b|
    ensures 0 <= z < Pow2(bs)
  {
    var nb := (bs + 7) / 8;
    var rem := (8 - bs % 8) % 8;
    var v := BigEndian(b[..nb]);
    ByteCount(bs, nb, rem);
    TruncateFits(v, nb, bs, rem);
    if rem > 0 then v / Pow2(rem) else v
  }

  lemma {:induction false} TruncateFits(v: int, nb: nat, bs: nat, rem: nat)
    requires bs <= 31 && 8 * nb == bs + rem && 0 <= v < Pow2(8 * nb)
    ensures 0 <= v / Pow2(rem) < Pow2(bs) <= TWO_63
  {
    Pow2Add(bs, rem);
    assert bs + rem == 8 * nb;
    DivBelow(v, Pow2(bs), Pow2(rem));
    Pow2Word63(bs);
  }

  lemma {:induction false} Pow2Word63(n: nat)
    requires n <= 63
    ensures Pow2(n) <= TWO_63
  {
    Pow2Monotone(n, 63);
    Pow2Word();
  }

  /** `(bs + 7) / 8` bytes hold `bs` bits and `(8 - bs % 8) % 8` more. */
  lemma {:induction false} ByteCount(bs: nat, nb: nat, rem: nat)
    requires nb == (bs + 7) / 8 && rem == (8 - bs % 8) % 8
    ensures 8 * nb == bs + rem
  {
    var q, m := bs / 8, bs % 8;
    assert bs == 8 * q + m;
    if m == 0 {
      DivModUnique(bs + 7, q, 7, 8);
      DivModUnique(8, 1, 0, 8);
    } else {
      DivModUnique(bs + 7, q + 1, m - 1, 8);
      DivModUnique(8 - m, 0, 8 - m, 8);
    }
  }

  lemma {:induction false} DivBelow(v: int, a: int, b: int)
    requires 0 <= v < a * b && b > 0
    ensures 0 <= v / b < a
  {
    var q := v / b;
    assert q * b + v % b == v;
    if q >= a {
      MulLeft(a, q, b);
      assert false;
    }
  }

  /** truncate keeps the `bs` most significant bits of the whole digest read big-endian. */
  lemma {:induction false} TruncateLeadingBits(b: seq<byte>, bs: int)
    requires 0 <= bs <= 31 && (bs + 7) / 8 <= |b|
    ensures Truncate(b, bs) == BigEndian(b) / Pow2(8 * |b| - bs)
  {
    var nb := (bs + 7) / 8;
    var rem := (8 - bs % 8) % 8;
    var head, tail := b[..nb], b[nb..];
    assert b == head + tail;
    BigEndianAppend(head, tail);
    var t := Pow2(8 * |tail|);
    DivModUnique(BigEndian(b), BigEndian(head), BigEndian(tail), t);
    DivDiv(BigEndian(b), t, Pow2(rem));
    Pow2Add(8 * |tail|, rem);
    ByteCount(bs, nb, rem);
    assert 8 * |b| - bs == 8 * |tail| + rem;
  }

  // ---------------------------------------------------------------------
  // Keys and signatures

  /** `generateKey`: the secret `d` and the public point `d·G`. */
  function GenerateKey(c: Curve, d: i64): (pk: PrivateKey)
    ensures pk.d == d && pk.pub.c == c && pk.pub.p == ScalarMul(c, d, c.g)
  {
    PrivateKey(PublicKey(c, ScalarMul(c, d, c.g)), d)
  }

  /**
    * The second half of rawSign over the field of the group order:
    * `s = k⁻¹·(z + r·d) mod n`, refused when `k` has no inverse or `s` is 0.
    */
  function SignValue(sf: Field.Finite, k: i64, z: i64, r: i64, d: i64): (res: Result<i64, SignError>)
    requires Field.Valid(sf) && 0 <= z && Field.Element(sf, r)
    ensures res.Ok? ==> 1 <= res.value < sf.p
  {
    match Field.ModInverse(sf, k)
    case Err(_) => Err(InvalidK)
    case Ok(inv) =>
      var s := SignFrom(sf, inv, z, r, d);
      if s == 0 then Err(InvalidK) else Ok(s)
  }

  /** `k⁻¹·(z + r·d)` with the field operations, `inv` standing for `k⁻¹`. */
  function SignFrom(sf: Field.Finite, inv: i64, z: i64, r: i64, d: i64): (s: i64)
    requires Field.Valid(sf) && Field.Element(sf, inv) && Field.Element(sf, r)
    ensures Field.Element(sf, s)
  {
    Field.MulFitsReduced(sf, r, d);
    var e := Field.Add(sf, z, Field.Multiply(sf, r, d));
    Field.MulFitsReduced(sf, inv, e);
    Field.Multiply(sf, inv, e)
  }

  /**
    * `rawSign`: `z` the truncated digest, `r` the abscissa of `k·G` reduced
    * mod `n`, then `s`; a zero `r` is refused before any inverse is taken.
    */
  function RawSign(pk: PrivateKey, k: i64, h: seq<byte>): (res: Result<(i64, i64), SignError>)
    requires Field.Valid(pk.pub.c.f) && InBounds(pk.pub.c, pk.pub.c.g) && pk.pub.c.n >= 1
    requires DigestFits(pk.pub.c, h)
    ensures res.Ok? ==> 1 <= res.value.0 < pk.pub.c.n && 1 <= res.value.1 < pk.pub.c.n
    ensures res.Ok? ==>
      res.value.0 == Field.Canonical(Field.NewFinite(pk.pub.c.n), ScalarMul(pk.pub.c, k, pk.pub.c.g).x)
  {
    var c := pk.pub.c;
    var sf := Field.NewFinite(c.n);
    var z := Truncate(h, c.bs);
    var r := Field.Canonical(sf, ScalarMul(c, k, c.g).x);
    if r == 0 then Err(InvalidK)
    else
      match SignValue(sf, k, z, r, pk.d)
      case Err(e) => Err(e)
      case Ok(s) => Ok((r, s))
  }

  /**
    * SignValue fails exactly when `k` is not invertible mod `n` or `z + r·d`
    * is a multiple of `n`; otherwise `s·k ≡ z + r·d (mod n)`.
    */
  lemma {:induction false} SignValueMeaning(sf: Field.Finite, k: i64, z: i64, r: i64, d: i64)
    requires Field.Valid(sf) && 0 <= z && Field.Element(sf, r) && 0 <= k && -sf.p < d
    ensures SignValue(sf, k, z, r, d).Err? <==> Gcd(k % sf.p, sf.p) != 1 || (z + r * d) % sf.p == 0
    ensures SignValue(sf, k, z, r, d).Ok? ==> Signs(sf.p, SignValue(sf, k, z, r, d).value, k, z, r, d)
  {
    Field.InverseMeaning(sf, k);
    if Field.ModInverse(sf, k).Ok? {
      SignFromMeaning(sf, k, Field.ModInverse(sf, k).value, z, r, d);
    }
  }

  /** With `inv` the inverse of `k`, `s = inv·(z + r·d)` solves `s·k ≡ z + r·d`, and is 0 exactly when `z + r·d` is. */
  lemma {:induction false} SignFromMeaning(sf: Field.Finite, k: i64, inv: i64, z: i64, r: i64, d: i64)
    requires Field.Valid(sf) && 0 <= z && Field.Element(sf, r) && -sf.p < d
    requires Field.Element(sf, inv) && (k * inv) % sf.p == 1
    ensures var s := SignFrom(sf, inv, z, r, d);
      Signs(sf.p, s, k, z, r, d) && (s == 0 <==> (z + r * d) % sf.p == 0)
  {
    var n := sf.p;
    Field.MulFitsReduced(sf, r, d);
    var rd := Field.Multiply(sf, r, d);
    var e := Field.Add(sf, z, rd);
    ModMod(r * d, n);
    AddCong(z, rd, z, r * d, n);
    var s := SignFrom(sf, inv, z, r, d);
    assert s == (inv * e) % n;
    assert e == (z + r * d) % n;
    SignAlgebra(n, k, inv, e, s);
    ModSmall(e, n);
    ZeroExactly(n, k, inv, e, s);
  }

  /** `s = k⁻¹·e mod n` is 0 exactly when `e`, an element, is 0. */
  lemma {:induction false} ZeroExactly(n: int, k: int, ik: int, e: int, s: int)
    requires n >= 2 && 0 <= e < n && s == (ik * e) % n && (s * k) % n == e % n
    ensures s == 0 <==> e == 0
  {
    ModSmall(e, n);
    if e == 0 {
      assert ik * e == 0;
    }
    if s == 0 {
      assert s * k == 0;
    }
  }

  /** The signing equation `s·k ≡ z + r·d (mod n)`. */
  predicate Signs(n: int, s: int, k: int, z: int, r: int, d: int)
    requires n > 0
  {
    (s * k) % n == (z + r * d) % n
  }

  /** With `k·k⁻¹ ≡ 1`, `s = k⁻¹·e mod n` satisfies `s·k ≡ e`. */
  lemma {:induction false} SignAlgebra(n: int, k: int, ik: int, e: int, s: int)
    requires n >= 2 && (k * ik) % n == 1 && s == (ik * e) % n
    ensures (s * k) % n == e % n
  {
    ModMod(ik * e, n);
    assert ik * k == k * ik;
    UnitCancel(n, ik, e, k, s);
  }

  /** Multiplying `t·k ≡ x` by an inverse `u` of `t` gives back `k`: `x·u ≡ k`. */
  lemma {:induction false} UnitCancel(n: int, t: int, k: int, u: int, x: int)
    requires n >= 2 && (t * k) % n == x % n && (t * u) % n == 1
    ensures (x * u) % n == k % n
  {
    ModMulCongruent(x, t * k, u, u, n);
    assert (t * k) * u == (t * u) * k;
    ModSmall(1, n);
    ModMulCongruent(t * u, 1, k, k, n);
  }

  lemma {:induction false} AddCong(a: int, b: int, a': int, b': int, n: int)
    requires n > 0 && a % n == a' % n && b % n == b' % n
    ensures (a + b) % n == (a' + b') % n
  {
    ModAdd(a, b, n);
    ModAdd(a', b', n);
  }

  lemma {:induction false} SubCong(a: int, b: int, a': int, b': int, n: int)
    requires n > 0 && a % n == a' % n && b % n == b' % n
    ensures (a - b) % n == (a' - b') % n
  {
    ModSub(a, b, n);
    ModSub(a', b', n);
  }

  /**
    * rawSign refuses exactly when `r` is 0, `k` is not invertible mod `n`, or
    * `z + r·d` is a multiple of `n`; a signature satisfies the signing
    * equation `s·k ≡ z + r·d (mod n)`.
    */
  lemma {:induction false} RawSignMeaning(pk: PrivateKey, k: i64, h: seq<byte>)
    requires Field.Valid(pk.pub.c.f) && InBounds(pk.pub.c, pk.pub.c.g) && pk.pub.c.n >= 1
    requires DigestFits(pk.pub.c, h) && 0 <= k && -pk.pub.c.n < pk.d
    ensures
      var n := pk.pub.c.n;
      var r := Field.Canonical(Field.NewFinite(n), ScalarMul(pk.pub.c, k, pk.pub.c.g).x);
      var z := Truncate(h, pk.pub.c.bs);
      (RawSign(pk, k, h).Err? <==> r == 0 || Gcd(k % n, n) != 1 || (z + r * pk.d) % n == 0) &&
      (RawSign(pk, k, h).Ok? ==> Signs(n, RawSign(pk, k, h).value.1, k, z, r, pk.d))
  {
    var c := pk.pub.c;
    var sf := Field.NewFinite(c.n);
    var r := Field.Canonical(sf, ScalarMul(c, k, c.g).x);
    if r != 0 {
      SignValueMeaning(sf, k, Truncate(h, c.bs), r, pk.d);
    }
  }

  /**
    * Two signatures with the same nonce share `r`, and their `s` agree
    * exactly when the digests agree mod `n`.
    */
  lemma {:induction false} SameNonce(pk: PrivateKey, k: i64, h1: seq<byte>, h2: seq<byte>)
    requires Field.Valid(pk.pub.c.f) && InBounds(pk.pub.c, pk.pub.c.g) && pk.pub.c.n >= 1
    requires DigestFits(pk.pub.c, h1) && DigestFits(pk.pub.c, h2) && 0 <= k && -pk.pub.c.n < pk.d
    requires RawSign(pk, k, h1).Ok? && RawSign(pk, k, h2).Ok?
    ensures RawSign(pk, k, h1).value.0 == RawSign(pk, k, h2).value.0
    ensures RawSign(pk, k, h1).value.1 == RawSign(pk, k, h2).value.1 <==>
      Truncate(h1, pk.pub.c.bs) % pk.pub.c.n == Truncate(h2, pk.pub.c.bs) % pk.pub.c.n
  {
    var n := pk.pub.c.n;
    var (r, s1) := RawSign(pk, k, h1).value;
    var s2 := RawSign(pk, k, h2).value.1;
    var z1, z2 := Truncate(h1, pk.pub.c.bs), Truncate(h2, pk.pub.c.bs);
    RawSignMeaning(pk, k, h1);
    RawSignMeaning(pk, k, h2);
    if z1 % n == z2 % n {
      SignValueCongruent(Field.NewFinite(n), k, z1, z2, r, pk.d);
    }
    if s1 == s2 {
      SameSignature(n, s1, k, z1, z2, r, pk.d);
    }
  }

  /** SignValue depends on the digest only mod `n`. */
  lemma {:induction false} SignValueCongruent(sf: Field.Finite, k: i64, z1: i64, z2: i64, r: i64, d: i64)
    requires Field.Valid(sf) && 0 <= z1 && 0 <= z2 && Field.Element(sf, r) && z1 % sf.p == z2 % sf.p
    ensures SignValue(sf, k, z1, r, d) == SignValue(sf, k, z2, r, d)
  {
    if Field.ModInverse(sf, k).Ok? {
      SignFromCongruent(sf, Field.ModInverse(sf, k).value, z1, z2, r, d);
    }
  }

  lemma {:induction false} SignFromCongruent(sf: Field.Finite, inv: i64, z1: i64, z2: i64, r: i64, d: i64)
    requires Field.Valid(sf) && Field.Element(sf, inv) && Field.Element(sf, r)
    requires 0 <= z1 && 0 <= z2 && z1 % sf.p == z2 % sf.p
    ensures SignFrom(sf, inv, z1, r, d) == SignFrom(sf, inv, z2, r, d)
  {
    Field.MulFitsReduced(sf, r, d);
    var rd := Field.Multiply(sf, r, d);
    FieldAddCongruent(sf, z1, z2, rd);
  }

  /** The field's Add, on operands above `-n`, depends on them only mod `n`. */
  lemma {:induction false} FieldAddCongruent(sf: Field.Finite, z1: i64, z2: i64, e: i64)
    requires Field.Valid(sf) && -sf.p < z1 && -sf.p < z2 && -sf.p < e && z1 % sf.p == z2 % sf.p
    ensures Field.Add(sf, z1, e) == Field.Add(sf, z2, e)
  {
    var a1, a2 := Field.Add(sf, z1, e), Field.Add(sf, z2, e);
    assert a1 == (z1 + e) % sf.p && a2 == (z2 + e) % sf.p;
    AddCong(z1, e, z2, e, sf.p);
  }

  /** One `s` solving the signing equation for two digests makes them agree mod `n`. */
  lemma {:induction false} SameSignature(n: int, s: int, k: int, z1: int, z2: int, r: int, d: int)
    requires n > 0 && Signs(n, s, k, z1, r, d) && Signs(n, s, k, z2, r, d)
    ensures z1 % n == z2 % n
  {
    ModAddCancel(z1, z2, r * d, n);
  }

  lemma {:induction false} ModAddCancel(a: int, b: int, x: int, n: int)
    requires n > 0 && (a + x) % n == (b + x) % n
    ensures a % n == b % n
  {
    SubCong(a + x, x, b + x, x, n);
    assert a + x - x == a && b + x - x == b;
  }

  // ---------------------------------------------------------------------
  // Verification

  /** `u1·G + u2·P` for `u1 = z·w` and `u2 = r·w` mod `n`, `w` the inverse of `s`. */
  function CheckPoint(pub: PublicKey, r: i64, w: i64, z: i64): (cp: Point)
    requires Field.Valid(pub.c.f) && InBounds(pub.c, pub.c.g) && InBounds(pub.c, pub.p)
    requires pub.c.n >= 2 && 0 <= w < pub.c.n && 0 <= z && 0 <= r
    ensures InBounds(pub.c, cp)
    ensures cp == Add(pub.c, ScalarMul(pub.c, (z * w) % pub.c.n, pub.c.g), ScalarMul(pub.c, (r * w) % pub.c.n, pub.p))
  {
    var c := pub.c;
    var sf := Field.NewFinite(c.n);
    Field.MulFitsReduced(sf, w, z);
    Field.MulFitsReduced(sf, w, r);
    var u1 := Field.Multiply(sf, z, w);
    var u2 := Field.Multiply(sf, r, w);
    Add(c, ScalarMul(c, u1, c.g), ScalarMul(c, u2, pub.p))
  }

  /**
    * `Verify`: the public point must be finite, on the curve and annihilated
    * by `n`; `r` and `s` must lie in `[1, n)` and `s` be invertible; then the
    * signature holds when `u1·G + u2·P` is finite with abscissa `r` mod `n`.
    */
  function Verify(pub: PublicKey, r: i64, s: i64, h: seq<byte>): (ok: bool)
    requires Field.Valid(pub.c.f) && 3 < pub.c.f.p && InBounds(pub.c, pub.c.g) && InBounds(pub.c, pub.p)
    requires DigestFits(pub.c, h)
    ensures ok ==> !pub.p.inf && OnCurve(pub.c, pub.p.x, pub.p.y) && ScalarMul(pub.c, pub.c.n, pub.p).inf
    ensures ok ==> 1 <= r < pub.c.n && 1 <= s < pub.c.n && Gcd(s, pub.c.n) == 1
    ensures ok ==>
      2 <= pub.c.n && Field.ModInverse(Field.NewFinite(pub.c.n), s).Ok? &&
      var cp := CheckPoint(pub, r, Field.ModInverse(Field.NewFinite(pub.c.n), s).value, Truncate(h, pub.c.bs));
      !cp.inf && Field.Canonical(Field.NewFinite(pub.c.n), cp.x) == r
  {
    var c := pub.c;
    if pub.p.inf then false
    else if !Valid(c, pub.p) then false
    else if !ScalarMul(c, c.n, pub.p).inf then false
    else if r < 1 || r >= c.n then false
    else if s < 1 || s >= c.n then false
    else
      var sf := Field.NewFinite(c.n);
      var z := Truncate(h, c.bs);
      Field.InverseMeaning(sf, s);
      ModSmall(s, c.n);
      match Field.ModInverse(sf, s)
      case Err(_) => false
      case Ok(w) =>
        var cp := CheckPoint(pub, r, w, z);
        if cp.inf then false else Field.Canonical(sf, cp.x) == r
  }

  /** Verify accepts once each of its checks passes. */
  lemma {:induction false} VerifyAccepts(pub: PublicKey, r: i64, s: i64, h: seq<byte>, w: i64)
    requires Field.Valid(pub.c.f) && 3 < pub.c.f.p && InBounds(pub.c, pub.c.g) && InBounds(pub.c, pub.p)
    requires DigestFits(pub.c, h)
    requires !pub.p.inf && Valid(pub.c, pub.p) && ScalarMul(pub.c, pub.c.n, pub.p).inf
    requires 1 <= r < pub.c.n && 1 <= s < pub.c.n
    requires Field.ModInverse(Field.NewFinite(pub.c.n), s) == Ok(w)
    requires !CheckPoint(pub, r, w, Truncate(h, pub.c.bs)).inf
    requires Field.Canonical(Field.NewFinite(pub.c.n), CheckPoint(pub, r, w, Truncate(h, pub.c.bs)).x) == r
    ensures Verify(pub, r, s, h)
  {
  }

  // ---------------------------------------------------------------------
  // Correctness of signing and verification

  /** A multiple of `q` on the curve: the identity or a solution of the curve equation. */
  predicate OnCurveOrIdentity(c: Curve, q: Point)
    requires Field.Valid(c.f)
  {
    q.inf || OnCurve(c, q.x, q.y)
  }

  /** The `i`-th multiple of the base point. */
  function Multiple(c: Curve, i: nat): Point
  {
    Repeat(c, i, c.g)
  }

  /**
    * What ECDSA's correctness rests on and the source does not check: the
    * base point is finite with prime order `n`, and the group law and the
    * curve equation hold on its multiples.
    */
  ghost predicate PrimeOrderBase(c: Curve)
  {
    Field.Valid(c.f) && 3 < c.f.p && InBounds(c, c.g) && !c.g.inf &&
    Prime(c.n) && MultiplesAdd(c, c.g) && Repeat(c, c.n, c.g) == Identity &&
    forall i: nat :: OnCurveOrIdentity(c, Multiple(c, i))
  }

  /** A key made from a secret in `[1, n)` passes Verify's public-key checks. */
  lemma {:induction false} PublicKeyValid(c: Curve, d: i64)
    requires PrimeOrderBase(c) && 1 <= d < c.n
    ensures
      var q := GenerateKey(c, d).pub.p;
      q == Repeat(c, d, c.g) && InBounds(c, q) && !q.inf && Valid(c, q) &&
      ScalarMul(c, c.n, q).inf
  {
    var g, n := c.g, c.n;
    ScalarMulRepeat(c, d, g);
    RepeatInBounds(c, d, g);
    CurveOrder.RepeatOne(c, g);
    PrimeOrderNonzero(Sum(c), g, n, d);
    RepeatFiniteOrIdentity(c, d, g);
    assert OnCurveOrIdentity(c, Multiple(c, d));
    OrderAnnihilates(c, d);
  }

  /** `n` times any multiple of `G` is the identity. */
  lemma {:induction false} OrderAnnihilates(c: Curve, d: nat)
    requires PrimeOrderBase(c)
    ensures ScalarMul(c, c.n, Repeat(c, d, c.g)) == Identity
  {
    var g, n := c.g, c.n;
    ScalarMulOfMultiple(c, n, d, g);
    var m := Times(n, d);
    assert m % n == 0 by {
      ModMultiple(0, d, n);
      assert m == 0 + d * n;
    }
    RepeatPeriodic(Sum(c), g, n, m);
    assert RepeatOf(Sum(c), 0, g) == Identity;
  }

  /**
    * Verify's check point for `w = s⁻¹` against a public point that is the
    * `d`-th multiple of `G` is the `i`-th multiple of `G`, for `i` the index
    * `(u1 + u2·d) mod n`.
    */
  lemma {:induction false} CheckPointSum(c: Curve, pub: PublicKey, d: nat, r: i64, w: i64, z: i64, i: nat)
    requires Field.Valid(c.f) && InBounds(c, c.g) && MultiplesAdd(c, c.g) && c.n >= 2
    requires Repeat(c, c.n, c.g) == Identity
    requires pub.c == c && pub.p == Repeat(c, d, c.g) && 0 <= w < c.n && 0 <= z && 0 <= r
    requires i == ((z * w) % c.n + Times((r * w) % c.n, d)) % c.n
    ensures CheckPoint(pub, r, w, z) == Repeat(c, i, c.g)
  {
    RepeatInBounds(c, d, c.g);
    SumOfMultiples(c, (z * w) % c.n, (r * w) % c.n, d, pub.p);
  }

  lemma {:induction false} CheckIndex(n: int, z: int, w: int, r: int, d: nat, u1: nat, u2: nat)
    requires n >= 2 && u1 == (z * w) % n && u2 == (r * w) % n
    ensures (u1 + Times(u2, d)) % n == ((z * w) % n + ((r * w) % n) * d) % n
  {
  }

  /** `u1 + u2·d ≡ k (mod n)` for a signature made with nonce `k`. */
  lemma {:induction false} VerifyAlgebra(n: int, k: int, z: int, r: int, d: int, s: int, w: int)
    requires n >= 2 && Signs(n, s, k, z, r, d) && (s * w) % n == 1
    ensures ((z * w) % n + ((r * w) % n) * d) % n == k % n
  {
    UnitCancel(n, s, k, w, z + r * d);
    ModMod(z * w, n);
    ModMod(r * w, n);
    ModMulCongruent((r * w) % n, r * w, d, d, n);
    AddCong((z * w) % n, ((r * w) % n) * d, z * w, (r * w) * d, n);
    assert z * w + (r * w) * d == (z + r * d) * w;
  }

  /** For a signature made with nonce `k`, the check point is the nonce point `k·G`. */
  lemma {:induction false} CheckPointOfSignature(c: Curve, pub: PublicKey, d: nat, k: i64, r: i64, s: i64, w: i64, z: i64)
    requires Field.Valid(c.f) && InBounds(c, c.g) && MultiplesAdd(c, c.g) && c.n >= 2
    requires Repeat(c, c.n, c.g) == Identity
    requires pub.c == c && pub.p == Repeat(c, d, c.g) && 0 <= w < c.n && 0 <= z && 0 <= r && 0 <= k
    requires Signs(c.n, s, k, z, r, d) && (s * w) % c.n == 1
    ensures CheckPoint(pub, r, w, z) == ScalarMul(c, k, c.g)
  {
    var n := c.n;
    var i := k % n;
    assert i == ((z * w) % n + Times((r * w) % n, d)) % n by {
      VerifyAlgebra(n, k, z, r, d, s, w);
      CheckIndex(n, z, w, r, d, (z * w) % n, (r * w) % n);
    }
    CheckPointSum(c, pub, d, r, w, z, i);
    NoncePoint(c, k);
  }

  /** The nonce point `k·G` is the `(k mod n)`-th multiple of `G`. */
  lemma {:induction false} NoncePoint(c: Curve, k: i64)
    requires Field.Valid(c.f) && InBounds(c, c.g) && MultiplesAdd(c, c.g) && c.n >= 1
    requires Repeat(c, c.n, c.g) == Identity && 0 <= k
    ensures Repeat(c, k % c.n, c.g) == ScalarMul(c, k, c.g)
  {
    RepeatPeriodic(Sum(c), c.g, c.n, k);
    ScalarMulRepeat(c, k, c.g);
  }

  /** A nonce point whose abscissa gives a non-zero `r` is finite. */
  lemma {:induction false} NonceFinite(c: Curve, k: i64, r: i64)
    requires Field.Valid(c.f) && InBounds(c, c.g) && !c.g.inf && MultiplesAdd(c, c.g) && c.n >= 2 && 0 <= k
    requires r == Field.Canonical(Field.NewFinite(c.n), ScalarMul(c, k, c.g).x) && r != 0
    ensures !ScalarMul(c, k, c.g).inf
  {
    ScalarMulRepeat(c, k, c.g);
    RepeatFiniteOrIdentity(c, k, c.g);
  }

  /**
    * A signature `(r, s)` that satisfies the signing equation for the secret
    * `d` of `P = d·G` and a nonce `k` with `r` the reduced abscissa of `k·G`
    * passes Verify.
    */
  lemma {:induction false} SignedVerifies(c: Curve, pub: PublicKey, d: nat, k: i64, r: i64, s: i64, h: seq<byte>)
    requires PrimeOrderBase(c) && DigestFits(c, h) && pub.c == c
    requires pub.p == Repeat(c, d, c.g) && !pub.p.inf && Valid(c, pub.p) && ScalarMul(c, c.n, pub.p).inf
    requires 0 <= k && 1 <= r < c.n && 1 <= s < c.n
    requires r == Field.Canonical(Field.NewFinite(c.n), ScalarMul(c, k, c.g).x)
    requires Signs(c.n, s, k, Truncate(h, c.bs), r, d)
    ensures InBounds(c, pub.p) && Verify(pub, r, s, h)
  {
    var n, sf, z := c.n, Field.NewFinite(c.n), Truncate(h, c.bs);
    RepeatInBounds(c, d, c.g);
    Field.InverseMeaning(sf, s);
    PrimeCoprime(n, s);
    ModSmall(s, n);
    var w := Field.ModInverse(sf, s).value;
    CheckPointOfSignature(c, pub, d, k, r, s, w, z);
    NonceFinite(c, k, r);
    VerifyAccepts(pub, r, s, h, w);
  }

  /**
    * Signatures verify: for a curve whose base point has prime order `n`
    * (PrimeOrderBase), a key from GenerateKey with secret in `[1, n)`, and
    * any nonce `k >= 0` that rawSign accepts, Verify accepts the signature
    * on the same digest.
    */
  lemma {:induction false} SignThenVerify(c: Curve, d: i64, k: i64, h: seq<byte>)
    requires PrimeOrderBase(c) && DigestFits(c, h) && 1 <= d < c.n && 0 <= k
    requires RawSign(GenerateKey(c, d), k, h).Ok?
    ensures
      var pk := GenerateKey(c, d);
      InBounds(c, pk.pub.p) &&
      Verify(pk.pub, RawSign(pk, k, h).value.0, RawSign(pk, k, h).value.1, h)
  {
    var pk := GenerateKey(c, d);
    var sig := RawSign(pk, k, h).value;
    PublicKeyValid(c, d);
    RawSignMeaning(pk, k, h);
    SignedVerifies(c, pk.pub, d, k, sig.0, sig.1, h);
  }

  // ---------------------------------------------------------------------
  // Key recovery from a reused nonce

  /** Go's unary minus on `int64`: the most negative value is its own negation. */
  function Negate(x: i64): (y: i64)
    ensures x != -TWO_63 ==> y == -x
    ensures x == -TWO_63 ==> y == x
  {
    if x == -TWO_63 then x else -x
  }

  /**
    * The arithmetic of `solve` on the digests `z1`, `z2`: the nonce
    * `k = (z2 - z1) / (s2 - s1)`, then `d = (s·k - z) / r` from each
    * signature, which must agree.
    */
  function Recover(sf: Field.Finite, r: i64, s1: i64, s2: i64, z1: i64, z2: i64): (res: Result<i64, SolveError>)
    requires Field.Valid(sf)
    ensures res.Ok? ==> Field.Element(sf, res.value)
    ensures (res.Err? && res.error.DifferenceNotInvertible?) <==>
      Field.ModInverse(sf, Field.Add(sf, s2, Negate(s1))).Err?
    ensures (res.Err? && res.error.RNotInvertible?) <==>
      Field.ModInverse(sf, Field.Add(sf, s2, Negate(s1))).Ok? && Field.ModInverse(sf, r).Err?
    ensures res.Err? && res.error.KeyMismatch? ==> res.error.d1 != res.error.d2
  {
    var delta := Field.Add(sf, s2, Negate(s1));
    match Field.ModInverse(sf, delta)
    case Err(e) => Err(DifferenceNotInvertible(e))
    case Ok(inv) =>
      var diff := Field.Add(sf, z2, Negate(z1));
      Field.MulFitsReduced(sf, diff, inv);
      var k := Field.Multiply(sf, diff, inv);
      match Field.ModInverse(sf, r)
      case Err(e) => Err(RNotInvertible(e))
      case Ok(rinv) =>
        var d1 := KeyFrom(sf, s1, k, z1, rinv);
        var d2 := KeyFrom(sf, s2, k, z2, rinv);
        if d1 != d2 then Err(KeyMismatch(d1, d2)) else Ok(d1)
  }

  /** `(s·k - z)·r⁻¹` with the field operations. */
  function KeyFrom(sf: Field.Finite, s: i64, k: i64, z: i64, rinv: i64): (d: i64)
    requires Field.Valid(sf) && Field.Element(sf, k) && Field.Element(sf, rinv)
    ensures Field.Element(sf, d)
  {
    Field.MulFitsReduced(sf, k, s);
    var e := Field.Add(sf, Field.Multiply(sf, s, k), Negate(z));
    Field.MulFitsReduced(sf, e, rinv);
    Field.Multiply(sf, e, rinv)
  }

  /** `solve` as written: the digests enter the field arithmetic unreduced. */
  function SolveAsWritten(c: Curve, r: i64, s1: i64, s2: i64, h1: seq<byte>, h2: seq<byte>): (res: Result<i64, SolveError>)
    requires c.n >= 2 && DigestFits(c, h1) && DigestFits(c, h2)
    ensures res.Ok? ==> 0 <= res.value < c.n
    ensures Truncate(h1, c.bs) < c.n && Truncate(h2, c.bs) < c.n ==> res == Solve(c, r, s1, s2, h1, h2)
  {
    var sf := Field.NewFinite(c.n);
    Recover(sf, r, s1, s2, Truncate(h1, c.bs), Truncate(h2, c.bs))
  }

  /**
    * `solve` with the digests reduced mod `n` before they are negated, so
    * that `-z` stays within the one lift by `n` that the field's Add makes.
    */
  function Solve(c: Curve, r: i64, s1: i64, s2: i64, h1: seq<byte>, h2: seq<byte>): (res: Result<i64, SolveError>)
    requires c.n >= 2 && DigestFits(c, h1) && DigestFits(c, h2)
    ensures res.Ok? ==> 0 <= res.value < c.n
  {
    var sf := Field.NewFinite(c.n);
    var z1 := Field.Canonical(sf, Truncate(h1, c.bs));
    var z2 := Field.Canonical(sf, Truncate(h2, c.bs));
    Recover(sf, r, s1, s2, z1, z2)
  }

  /** The nonce from two signing equations that share it: `(z2 - z1)·(s2 - s1)⁻¹ ≡ k`. */
  lemma {:induction false} NonceFromPair(n: int, s1: int, s2: int, z1: int, z2: int, k: int, r: int, d: int, inv: int)
    requires n >= 2 && Signs(n, s1, k, z1, r, d) && Signs(n, s2, k, z2, r, d)
    requires (((s2 - s1) % n) * inv) % n == 1
    ensures (((z2 - z1) % n) * inv) % n == k % n
  {
    var rd := r * d;
    SubCong(s2 * k, s1 * k, z2 + rd, z1 + rd, n);
    assert (z2 + rd) - (z1 + rd) == z2 - z1;
    var t := s2 - s1;
    assert s2 * k - s1 * k == t * k;
    ModMod(z2 - z1, n);
    ModMod(t, n);
    ModMulCongruent(t % n, t, inv, inv, n);
    UnitCancel(n, t, k, inv, (z2 - z1) % n);
  }

  /** The secret from one signing equation once the nonce is known: `(s·k - z)·r⁻¹ ≡ d`. */
  lemma {:induction false} KeyFromNonce(n: int, s: int, z: int, k: int, kk: int, r: int, d: int, rinv: int)
    requires n >= 2 && kk % n == k % n && Signs(n, s, k, z, r, d) && (r * rinv) % n == 1
    ensures ((((s * kk) % n - z) % n) * rinv) % n == d % n
  {
    var x := ((s * kk) % n - z) % n;
    ModMulCongruent(s, s, kk, k, n);
    ModMod(s * kk, n);
    SubCong((s * kk) % n, z, z + r * d, z, n);
    assert z + r * d - z == r * d;
    ModMod((s * kk) % n - z, n);
    UnitCancel(n, r, d, rinv, x);
  }

  /**
    * Key recovery: for prime `n`, two signatures `(r, s1)` and `(r, s2)`
    * with `s1 != s2` in `[1, n)` that satisfy the signing equation with the
    * same nonce `k` and secret `d`, Recover on digests in `[0, n)` returns
    * `d mod n`.
    */
  lemma {:induction false} RecoverKey(sf: Field.Finite, r: i64, s1: i64, s2: i64, z1: i64, z2: i64, k: int, d: int)
    requires Field.Valid(sf) && Prime(sf.p)
    requires 1 <= r < sf.p && 1 <= s1 < sf.p && 1 <= s2 < sf.p && s1 != s2
    requires Field.Element(sf, z1) && Field.Element(sf, z2)
    requires Signs(sf.p, s1, k, z1, r, d) && Signs(sf.p, s2, k, z2, r, d)
    ensures Recover(sf, r, s1, s2, z1, z2) == Ok(d % sf.p)
  {
    var n := sf.p;
    RecoverNonce(sf, r, s1, s2, z1, z2, k, d);
    var inv := Field.ModInverse(sf, Field.Add(sf, s2, Negate(s1))).value;
    var diff := Field.Add(sf, z2, Negate(z1));
    Field.MulFitsReduced(sf, diff, inv);
    var kk := Field.Multiply(sf, diff, inv);
    assert kk % n == k % n by {
      ModMod(k, n);
    }
    RecoverKeyFrom(sf, r, s1, z1, k, kk, d);
    RecoverKeyFrom(sf, r, s2, z2, k, kk, d);
  }

  /** The second half of Recover: `r` is invertible and either signature then yields `d mod n`. */
  lemma {:induction false} RecoverKeyFrom(sf: Field.Finite, r: i64, s: i64, z: i64, k: int, kk: i64, d: int)
    requires Field.Valid(sf) && Prime(sf.p) && 1 <= r < sf.p
    requires Field.Element(sf, s) && Field.Element(sf, z) && Field.Element(sf, kk)
    requires kk % sf.p == k % sf.p && Signs(sf.p, s, k, z, r, d)
    ensures Field.ModInverse(sf, r).Ok?
    ensures KeyFrom(sf, s, kk, z, Field.ModInverse(sf, r).value) == d % sf.p
  {
    UnitInverse(sf, r);
    var rinv := Field.ModInverse(sf, r).value;
    KeyFromNonce(sf.p, s, z, k, kk, r, d, rinv);
    KeyFromValue(sf, s, kk, z, rinv);
  }

  /**
    * The converse of RecoverKey: when Recover returns a key, both signatures
    * satisfy the signing equation with that key and one nonce, the one that
    * Recover computes. Two keys that disagree therefore never give `Ok`.
    */
  lemma {:induction false} RecoverSound(sf: Field.Finite, r: i64, s1: i64, s2: i64, z1: i64, z2: i64)
    requires Field.Valid(sf) && 0 <= r
    requires Field.Element(sf, s1) && Field.Element(sf, s2) && Field.Element(sf, z1) && Field.Element(sf, z2)
    requires Recover(sf, r, s1, s2, z1, z2).Ok?
    ensures var d := Recover(sf, r, s1, s2, z1, z2).value;
      exists k :: Signs(sf.p, s1, k, z1, r, d) && Signs(sf.p, s2, k, z2, r, d)
  {
    var inv := Field.ModInverse(sf, Field.Add(sf, s2, Negate(s1))).value;
    var diff := Field.Add(sf, z2, Negate(z1));
    Field.MulFitsReduced(sf, diff, inv);
    var k := Field.Multiply(sf, diff, inv);
    Field.InverseMeaning(sf, r);
    var rinv := Field.ModInverse(sf, r).value;
    var d := Recover(sf, r, s1, s2, z1, z2).value;
    assert d == KeyFrom(sf, s1, k, z1, rinv) && d == KeyFrom(sf, s2, k, z2, rinv);
    KeyFromSigns(sf, s1, k, z1, r, rinv, d);
    KeyFromSigns(sf, s2, k, z2, r, rinv, d);
  }

  /** A key that KeyFrom computes with an inverse of `r` satisfies the signing equation. */
  lemma {:induction false} KeyFromSigns(sf: Field.Finite, s: i64, k: i64, z: i64, r: int, rinv: i64, d: i64)
    requires Field.Valid(sf) && Field.Element(sf, s) && Field.Element(sf, k) && Field.Element(sf, z)
    requires Field.Element(sf, rinv) && (r * rinv) % sf.p == 1 && d == KeyFrom(sf, s, k, z, rinv)
    ensures Signs(sf.p, s, k, z, r, d)
  {
    KeyFromValue(sf, s, k, z, rinv);
    KeySigns(sf.p, s, k, z, r, rinv, d);
  }

  /** A key computed as `(s·k - z)·r⁻¹` satisfies the signing equation with nonce `k`. */
  lemma {:induction false} KeySigns(n: int, s: int, k: int, z: int, r: int, rinv: int, d: int)
    requires n >= 2 && (r * rinv) % n == 1
    requires d == ((((s * k) % n - z) % n) * rinv) % n
    ensures Signs(n, s, k, z, r, d)
  {
    var x := ((s * k) % n - z) % n;
    ModMod(x * rinv, n);
    ModMulCongruent(r, r, d, x * rinv, n);
    assert r * (x * rinv) == (r * rinv) * x;
    ModSmall(1, n);
    ModMulCongruent(r * rinv, 1, x, x, n);
    AddCong(z, r * d, z, x, n);
    ModMod(s * k, n);
    SubCong((s * k) % n, z, s * k, z, n);
    ModMod((s * k) % n - z, n);
    AddCong(z, x, z, s * k - z, n);
    assert z + (s * k - z) == s * k;
  }

  /** The first half of Recover: `s2 - s1` is invertible and the nonce it yields is `k mod n`. */
  lemma {:induction false} RecoverNonce(sf: Field.Finite, r: i64, s1: i64, s2: i64, z1: i64, z2: i64, k: int, d: int)
    requires Field.Valid(sf) && Prime(sf.p)
    requires 1 <= s1 < sf.p && 1 <= s2 < sf.p && s1 != s2
    requires Field.Element(sf, z1) && Field.Element(sf, z2)
    requires Signs(sf.p, s1, k, z1, r, d) && Signs(sf.p, s2, k, z2, r, d)
    ensures Field.ModInverse(sf, Field.Add(sf, s2, Negate(s1))).Ok?
    ensures
      var inv := Field.ModInverse(sf, Field.Add(sf, s2, Negate(s1))).value;
      var diff := Field.Add(sf, z2, Negate(z1));
      Field.MulFits(sf, diff, inv) && Field.Multiply(sf, diff, inv) == k % sf.p
  {
    var n := sf.p;
    var delta := Field.Add(sf, s2, Negate(s1));
    assert 1 <= delta < n && delta == (s2 - s1) % n by {
      DistinctResidues(s2, s1, n);
    }
    UnitInverse(sf, delta);
    var inv := Field.ModInverse(sf, delta).value;
    var diff := Field.Add(sf, z2, Negate(z1));
    Field.MulFitsReduced(sf, diff, inv);
    NonceFromPair(n, s1, s2, z1, z2, k, r, d, inv);
  }

  /** Modulo a prime every non-zero element has an inverse. */
  lemma {:induction false} UnitInverse(sf: Field.Finite, x: int)
    requires Field.Valid(sf) && Prime(sf.p) && 1 <= x < sf.p
    ensures Field.ModInverse(sf, x).Ok? && (x * Field.ModInverse(sf, x).value) % sf.p == 1
  {
    Field.InverseMeaning(sf, x);
    PrimeCoprime(sf.p, x);
    ModSmall(x, sf.p);
  }

  /** Two distinct values in `[1, n)` differ by a non-multiple of `n`. */
  lemma {:induction false} DistinctResidues(a: int, b: int, n: int)
    requires 1 <= a < n && 1 <= b < n && a != b
    ensures (a - b) % n != 0
  {
    if a > b {
      ModSmall(a - b, n);
    } else {
      ModMultiple(a - b, 1, n);
      ModSmall(a - b + n, n);
    }
  }

  lemma {:induction false} KeyFromValue(sf: Field.Finite, s: i64, k: i64, z: i64, rinv: i64)
    requires Field.Valid(sf) && Field.Element(sf, k) && Field.Element(sf, rinv) && Field.Element(sf, z)
    requires Field.Element(sf, s)
    ensures KeyFrom(sf, s, k, z, rinv) == ((((s * k) % sf.p - z) % sf.p) * rinv) % sf.p
  {
    var n := sf.p;
    Field.MulFitsReduced(sf, k, s);
    var sk := Field.Multiply(sf, s, k);
    assert sk == (s * k) % n;
    var e := Field.Add(sf, sk, Negate(z));
    assert e == (sk - z) % n;
    Field.MulFitsReduced(sf, e, rinv);
    assert Field.Multiply(sf, e, rinv) == (e * rinv) % n;
  }

  /**
    * Nonce reuse gives the key away: two signatures by the same key with the
    * same nonce over digests that differ mod a prime `n` make Solve return
    * the secret.
    */
  lemma {:induction false} NonceReuseRevealsKey(c: Curve, d: i64, k: i64, h1: seq<byte>, h2: seq<byte>)
    requires Field.Valid(c.f) && InBounds(c, c.g) && Prime(c.n)
    requires DigestFits(c, h1) && DigestFits(c, h2) && 0 <= d < c.n && 0 <= k
    requires RawSign(GenerateKey(c, d), k, h1).Ok? && RawSign(GenerateKey(c, d), k, h2).Ok?
    requires Truncate(h1, c.bs) % c.n != Truncate(h2, c.bs) % c.n
    ensures
      var sig1, sig2 := RawSign(GenerateKey(c, d), k, h1).value, RawSign(GenerateKey(c, d), k, h2).value;
      Solve(c, sig1.0, sig1.1, sig2.1, h1, h2) == Ok(d)
  {
    var pk := GenerateKey(c, d);
    var sig1, sig2 := RawSign(pk, k, h1).value, RawSign(pk, k, h2).value;
    SameNonce(pk, k, h1, h2);
    RawSignMeaning(pk, k, h1);
    RawSignMeaning(pk, k, h2);
    SolveRecovers(c, sig1.0, sig1.1, sig2.1, h1, h2, k, d);
  }

  /**
    * Solve on two signatures `(r, s1)`, `(r, s2)` with `s1 != s2` that satisfy
    * the signing equation with one nonce and the secret `d` in `[0, n)`
    * returns `d`.
    */
  lemma {:induction false} SolveRecovers(c: Curve, r: i64, s1: i64, s2: i64, h1: seq<byte>, h2: seq<byte>, k: int, d: int)
    requires Prime(c.n) && DigestFits(c, h1) && DigestFits(c, h2)
    requires 1 <= r < c.n && 1 <= s1 < c.n && 1 <= s2 < c.n && s1 != s2 && 0 <= d < c.n
    requires Signs(c.n, s1, k, Truncate(h1, c.bs), r, d) && Signs(c.n, s2, k, Truncate(h2, c.bs), r, d)
    ensures Solve(c, r, s1, s2, h1, h2) == Ok(d)
  {
    var n, sf := c.n, Field.NewFinite(c.n);
    var z1, z2 := Truncate(h1, c.bs), Truncate(h2, c.bs);
    var y1, y2 := Field.Canonical(sf, z1), Field.Canonical(sf, z2);
    SignsCongruent(n, s1, k, z1, y1, r, d);
    SignsCongruent(n, s2, k, z2, y2, r, d);
    RecoverKey(sf, r, s1, s2, y1, y2, k, d);
    ModSmall(d, n);
  }

  /** The signing equation only sees the digest mod `n`. */
  lemma {:induction false} SignsCongruent(n: int, s: int, k: int, z: int, y: int, r: int, d: int)
    requires n >= 2 && (y - z) % n == 0 && Signs(n, s, k, z, r, d)
    ensures Signs(n, s, k, y, r, d)
  {
    ModEqual(y, z, n);
    ModAdd(z, r * d, n);
    ModAdd(y, r * d, n);
  }

  /**
    * `solve` as written recovers the wrong key once a digest exceeds `n`: with
    * `n = 233`, 8-bit digests 240 and 10, nonce 7 and secret 5, the
    * signatures `(100, 139)` and `(100, 206)` satisfy the signing equation,
    * yet `-240` lifted once by `n` is still negative and wraps to `2^64 - 7`,
    * so the nonce comes out as 1 and the key as 207.  Solve returns 5.
    */
  lemma {:induction false} SolveAsWrittenWrongKey(c: Curve)
    requires c.n == 233 && c.bs == 8
    ensures Signs(233, 139, 7, 240, 100, 5) && Signs(233, 206, 7, 10, 100, 5)
    ensures SolveAsWritten(c, 100, 139, 206, [240], [10]) == Ok(207)
    ensures Solve(c, 100, 139, 206, [240], [10]) == Ok(5)
  {
    ExampleArithmetic();
    DigestsOfExample();
    assert Field.NewFinite(c.n) == Field.Finite(233);
    RecoverUnreduced();
    RecoverReduced();
  }

  /** Recover on the example's unreduced digests: the nonce comes out as 1 and the key as 207. */
  lemma {:induction false} RecoverUnreduced()
    ensures Recover(Field.Finite(233), 100, 139, 206, 240, 10) == Ok(207)
  {
    ReducedKey(206, 1, 10, 207);
    UnreducedKey();
    NoncesOfExample();
    InversesOfExample();
  }

  /** Recover on the example's reduced digests: the nonce is 7 and the key 5. */
  lemma {:induction false} RecoverReduced()
    ensures Recover(Field.Finite(233), 100, 139, 206, 7, 10) == Ok(5)
  {
    ExampleArithmetic();
    ReducedKey(139, 7, 7, 5);
    ReducedKey(206, 7, 10, 5);
    NoncesOfExample();
    InversesOfExample();
  }

  lemma {:induction false} DigestsOfExample()
    ensures Truncate([240], 8) == 240 && Truncate([10], 8) == 10
    ensures Field.Canonical(Field.Finite(233), 240) == 7
  {
    TruncateLeadingBits([240], 8);
    assert BigEndian([240]) == 240;
    TruncateLeadingBits([10], 8);
    assert BigEndian([10]) == 10;
  }

  lemma {:induction false} InversesOfExample()
    ensures Field.ModInverse(Field.Finite(233), 67) == Ok(80)
    ensures Field.ModInverse(Field.Finite(233), 100) == Ok(7)
  {
    var sf := Field.Finite(233);
    Field.InverseMeaning(sf, 67);
    Field.InverseMeaning(sf, 100);
  }

  lemma {:induction false} NoncesOfExample()
    ensures
      var sf := Field.Finite(233);
      Field.Add(sf, 206, Negate(139)) == 67 && Field.Add(sf, 10, Negate(240)) == 67 &&
      Field.Add(sf, 10, Negate(7)) == 3 &&
      Field.MulFits(sf, 67, 80) && Field.Multiply(sf, 67, 80) == 1 &&
      Field.MulFits(sf, 3, 80) && Field.Multiply(sf, 3, 80) == 7
  {
    var sf := Field.Finite(233);
    Field.MulFitsReduced(sf, 67, 80);
    Field.MulFitsReduced(sf, 3, 80);
  }

  lemma {:induction false} ExampleArithmetic()
    ensures ((((139 * 7) % 233 - 7) % 233) * 7) % 233 == 5
    ensures ((((206 * 7) % 233 - 10) % 233) * 7) % 233 == 5
    ensures Signs(233, 139, 7, 240, 100, 5) && Signs(233, 206, 7, 10, 100, 5)
  {
  }

  /** A key of the example computed from reduced operands. */
  lemma {:induction false} ReducedKey(s: i64, k: i64, z: i64, d: i64)
    requires 0 <= s < 233 && 0 <= k < 233 && 0 <= z < 233
    requires ((((s * k) % 233 - z) % 233) * 7) % 233 == d
    ensures KeyFrom(Field.Finite(233), s, k, z, 7) == d
  {
    KeyFromValue(Field.Finite(233), s, k, z, 7);
  }

  /** The key from the first signature with the digest 240 left unreduced. */
  lemma {:induction false} UnreducedKey()
    ensures KeyFrom(Field.Finite(233), 139, 1, 240, 7) == 207
  {
    var sf := Field.Finite(233);
    Field.MulFitsReduced(sf, 1, 139);
    assert Field.Multiply(sf, 139, 1) == 139;
    assert Field.Wrap(sf, Negate(240)) == TWO_64 - 7;
    var e := Field.Add(sf, 139, Negate(240));
    assert e == (139 + TWO_64 - 7) % 233;
    assert e == 196;
    Field.MulFitsReduced(sf, e, 7);
    assert Field.Multiply(sf, e, 7) == 1372 % 233;
  }
}
