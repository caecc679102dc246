// Concrete values the repository's tests pin, checked against the model.
module Vectors {
  import opened Wrappers
  import opened Numbers
  import Field
  import opened Curve
  import Ecdsa

  /** Canonical representatives over 89: `-1 → 88`, `157 → 68`, `89 → 0`. */
  lemma CanonicalOver89()
    ensures Field.Canonical(Field.Finite(89), -1) == 88
    ensures Field.Canonical(Field.Finite(89), 157) == 68
    ensures Field.Canonical(Field.Finite(89), 89) == 0
  {
  }

  /** Negative operands are lifted by `p` before the 128-bit sum: over 97, `-40 + -38 = 19`. */
  lemma AddOver97()
    ensures Field.Add(Field.Finite(97), -40, -38) == 19
  {
  }

  /** `truncate([0xab, 0xcd, 0xef], 10) = 0x2af`. */
  lemma TruncateTenBits()
    ensures Ecdsa.Truncate([0xab, 0xcd, 0xef], 10) == 0x2af
  {
    assert [0xab, 0xcd, 0xef][..2] == [0xab, 0xcd];
    assert Ecdsa.BigEndian([0xab, 0xcd]) == 0xabcd by {
      assert [0xab, 0xcd][..1] == [0xab];
      assert Ecdsa.BigEndian([0xab]) == 0xab by {
        assert [0xab][..0] == [];
      }
    }
  }

  /** The test curve `y^2 = x^3 + 2x + 3` over 5. */
  const C5: Curve := Curve(Field.Finite(5), 2, 3, Point(0, 0, false), 0, 3)

  /** `{1, 4} + {3, 1} = {2, 0}` on C5: slope 1, then the chord formulas. */
  lemma ChordOnC5(c: Curve, p: Point, q: Point)
    requires c == C5 && p == Point(1, 4, false) && q == Point(3, 1, false)
    ensures Add(c, p, q) == Point(2, 0, false)
  {
    SlopeOnC5(c, p, q);
    ChordOnC5Values(c, p, q, Chord(c, p, q, 1));
  }

  /** The chord formulas with slope 1 through `{1, 4}` and `{3, 1}` over 5 give `{2, 0}`. */
  lemma ChordOnC5Values(c: Curve, p: Point, q: Point, r: Point)
    requires c == C5 && p == Point(1, 4, false) && q == Point(3, 1, false)
    requires ChordPoint(c, p, q, 1, r)
    ensures r == Point(2, 0, false)
  {
    assert c.f.p == 5;
    assert r.x == (1 * 1 - 1 - 3) % 5 == 2;
    assert r.y == (1 * (1 - 2) - 4) % 5 == 0;
  }

  /** The chord through `{1, 4}` and `{3, 1}` on C5 has slope 1. */
  lemma SlopeOnC5(c: Curve, p: Point, q: Point)
    requires c == C5 && p == Point(1, 4, false) && q == Point(3, 1, false)
    ensures Slope(c, p, q) == Some(1)
  {
    assert Gcd(2, 5) == 1;
    SlopeUnique(Slope(c, p, q).value);
  }

  lemma SlopeUnique(m: int)
    requires 0 <= m < 5 && (m * 2 - (1 - 4)) % 5 == 0
    ensures m == 1
  {
  }
}
