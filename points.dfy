// The exhaustive point listing of pkg/ec/curve.go (`Curve.Points`): a set
// holding the identity, filled either by trying every (x, y) pair or, when
// p ≡ 3 (mod 4), by taking the square root Y finds for each x and its
// negation.
module CurvePoints {
  import opened Numbers
  import opened Wrappers
  import Field
  import opened Curve

  /**
    * The finite curve points with coordinates in `[0, p)` that come before
    * `(xe, ye)` in the order the nested loops visit them.
    */
  ghost function Grid(c: Curve, xe: int, ye: int): set<Point>
    requires Field.Valid(c.f)
  {
    set x: i64, y: i64 | 0 <= x < c.f.p && 0 <= y < c.f.p && (x < xe || (x == xe && y < ye)) && OnCurve(c, x, y)
      :: Point(x, y, false)
  }

  /** Every point of the curve: the identity and all finite solutions. */
  ghost function AllPoints(c: Curve): set<Point>
    requires Field.Valid(c.f)
  {
    {Identity} + Grid(c, c.f.p, 0)
  }

  lemma AllPointsMeaning(c: Curve, q: Point)
    requires Field.Valid(c.f) && 3 < c.f.p
    ensures q in AllPoints(c) <==>
      q == Identity || (!q.inf && Field.Element(c.f, q.x) && Field.Element(c.f, q.y) && Valid(c, q))
  {
    if !q.inf && Field.Element(c.f, q.x) && Field.Element(c.f, q.y) && OnCurve(c, q.x, q.y) {
      assert q == Point(q.x, q.y, false);
    }
  }

  /** Trying ordinate `y` at abscissa `x` adds that point exactly when it is on the curve. */
  lemma GridStep(c: Curve, x: i64, y: i64)
    requires Field.Valid(c.f) && 0 <= x < c.f.p && 0 <= y < c.f.p
    ensures Grid(c, x, y + 1) == Grid(c, x, y) + (if OnCurve(c, x, y) then {Point(x, y, false)} else {})
  {
    var extra := if OnCurve(c, x, y) then {Point(x, y, false)} else {};
    forall q | q in Grid(c, x, y + 1)
      ensures q in Grid(c, x, y) + extra
    {
      if q.x == x && q.y == y {
        assert q == Point(x, y, false);
      }
    }
  }

  /** Finishing a column is starting the next. */
  lemma GridRow(c: Curve, x: int)
    requires Field.Valid(c.f)
    ensures Grid(c, x, c.f.p) == Grid(c, x + 1, 0)
  {
  }

  /**
    * What the square-root branch records for abscissa `x` given Y's answer
    * `r`: the root and, when it is not zero, its negation `p - y`, provided
    * Valid accepts the point.
    */
  function RootPair(c: Curve, x: i64, r: Result<int, CurveError>): (s: set<Point>)
    requires Field.Valid(c.f) && 3 < c.f.p && 0 <= x < c.f.p
    requires r == Y(c, x)
    ensures forall q :: q in s ==> !q.inf && q.x == x && Field.Element(c.f, q.y) && OnCurve(c, q.x, q.y)
    ensures r.Ok? ==> Point(x, r.value, false) in s
    ensures r.Ok? && r.value > 0 ==> Point(x, c.f.p - r.value, false) in s
    ensures r.Err? ==> s == {}
  {
    match r
    case Err(_) => {}
    case Ok(y) =>
      if !Valid(c, Point(x, y, false)) then {}
      else
        NegationOnCurve(c, x, y);
        {Point(x, y, false)} + (if y > 0 then {Point(x, c.f.p - y, false)} else {})
  }

  /** `(x, p - y)` lies on the curve with `(x, y)`: both ordinates square to the same residue. */
  lemma NegationOnCurve(c: Curve, x: int, y: int)
    requires Field.Valid(c.f) && OnCurve(c, x, y)
    ensures OnCurve(c, x, c.f.p - y)
  {
    SquareOfNegation(c.f.p, y, Cubic(c, x));
  }

  lemma SquareOfNegation(p: int, y: int, r: int)
    requires p > 0 && (y * y - r) % p == 0
    ensures ((p - y) * (p - y) - r) % p == 0
  {
    assert (p - y) * (p - y) - r == (y * y - r) + (p - 2 * y) * p;
    ModMultiple(y * y - r, p - 2 * y, p);
  }

  /** The union of RootPair over the abscissas below `xe`. */
  function Roots(c: Curve, xe: int): set<Point>
    requires Field.Valid(c.f) && 3 < c.f.p && xe <= c.f.p
    decreases xe
  {
    if xe <= 0 then {} else Roots(c, xe - 1) + RootPair(c, xe - 1, Y(c, xe - 1))
  }

  /** The square-root branch lists only curve points: a subset of the exhaustive listing. */
  lemma {:induction false} RootsInGrid(c: Curve, xe: int)
    requires Field.Valid(c.f) && 3 < c.f.p && xe <= c.f.p
    ensures Roots(c, xe) <= Grid(c, c.f.p, 0)
    decreases xe
  {
    if xe > 0 {
      RootsInGrid(c, xe - 1);
      forall q | q in RootPair(c, xe - 1, Y(c, xe - 1))
        ensures q in Grid(c, c.f.p, 0)
      {
        assert q == Point(q.x, q.y, false);
      }
    }
  }

  /**
    * Over a prime `p ≡ 3 (mod 4)` the square-root branch misses no point:
    * every solution with abscissa below `xe` is a root Y finds or its negation.
    */
  lemma {:induction false} GridInRoots(c: Curve, xe: int)
    requires Field.Valid(c.f) && 3 < c.f.p && Prime(c.f.p) && c.f.p % 4 == 3 && xe <= c.f.p
    ensures forall q :: q in Grid(c, c.f.p, 0) && q.x < xe ==> q in Roots(c, xe)
    decreases xe
  {
    if xe > 0 {
      GridInRoots(c, xe - 1);
      forall q | q in Grid(c, c.f.p, 0) && q.x == xe - 1
        ensures q in RootPair(c, xe - 1, Y(c, xe - 1))
      {
        RootFound(c, q);
      }
    }
  }

  /** A curve point is among those recorded for its abscissa. */
  lemma RootFound(c: Curve, q: Point)
    requires Field.Valid(c.f) && 3 < c.f.p && Prime(c.f.p) && c.f.p % 4 == 3
    requires q in Grid(c, c.f.p, 0)
    ensures 0 <= q.x < c.f.p && q in RootPair(c, q.x, Y(c, q.x))
  {
    var p := c.f.p;
    var x: i64, y: i64 :| 0 <= x < p && 0 <= y < p && OnCurve(c, x, y) && q == Point(x, y, false);
    RootFoundAt(c, x, y);
  }

  lemma RootFoundAt(c: Curve, x: i64, y: i64)
    requires Field.Valid(c.f) && 3 < c.f.p && Prime(c.f.p) && c.f.p % 4 == 3
    requires 0 <= x < c.f.p && 0 <= y < c.f.p && OnCurve(c, x, y)
    ensures Point(x, y, false) in RootPair(c, x, Y(c, x))
  {
    YFindsRoot(c, x, y);
    var r := Y(c, x);
    RootsOpposite(c.f.p, r.value, y);
  }

  /** Two residues in `[0, p)` that are equal or opposite mod `p`: `y` is `v` or `p - v` with `v > 0`. */
  lemma RootsOpposite(p: int, v: int, y: int)
    requires p > 0 && 0 <= v < p && 0 <= y < p && ((v - y) % p == 0 || (v + y) % p == 0)
    ensures y == v || (v > 0 && y == p - v)
  {
    if (v - y) % p == 0 {
      ModZeroSmall(v - y, p);
    } else {
      ModZeroSmall(v + y - p, p) by {
        ModMultiple(v + y, -1, p);
      }
      if v == 0 {
        ModSmall(y, p);
      }
    }
  }

  lemma ModZeroSmall(d: int, p: int)
    requires p > 0 && -p < d < p && d % p == 0
    ensures d == 0
  {
    var k := d / p;
    assert d == k * p;
    if k >= 1 {
      MulLeft(1, k, p);
    } else if k <= -1 {
      MulLeft(k, -1, p);
    }
  }

  /**
    * What the two branches of Points leave behind: always curve points and
    * the identity, and over a prime order every curve point.
    */
  lemma PointsComplete(c: Curve, pts: set<Point>)
    requires Field.Valid(c.f) && 3 < c.f.p
    requires c.f.p % 4 != 3 ==> pts == AllPoints(c)
    requires c.f.p % 4 == 3 ==> pts == {Identity} + Roots(c, c.f.p)
    ensures Identity in pts && pts <= AllPoints(c)
    ensures Prime(c.f.p) ==> pts == AllPoints(c)
  {
    RootsInGrid(c, c.f.p);
    if Prime(c.f.p) && c.f.p % 4 == 3 {
      GridInRoots(c, c.f.p);
    }
  }

  /**
    * `Curve.Points`: the identity, then for each `x` either the square-root
    * pair or every `y` whose point Valid accepts.  The source copies the
    * resulting set into a slice.
    */
  method Points(c: Curve) returns (pts: set<Point>)
    requires Field.Valid(c.f) && 3 < c.f.p
    ensures c.f.p % 4 != 3 ==> pts == AllPoints(c)
    ensures c.f.p % 4 == 3 ==> pts == {Identity} + Roots(c, c.f.p)
    ensures Identity in pts && pts <= AllPoints(c)
    ensures Prime(c.f.p) ==> pts == AllPoints(c)
  {
    var p := c.f.p;
    var canSquareRoot := p % 4 == 3;
    pts := {Identity};
    var x: i64 := 0;
    while x < p
      invariant 0 <= x <= p
      invariant canSquareRoot ==> pts == {Identity} + Roots(c, x)
      invariant !canSquareRoot ==> pts == {Identity} + Grid(c, x, 0)
    {
      if canSquareRoot {
        pts := RootStep(c, x, pts);
        x := x + 1;
        continue;
      }
      pts := Column(c, x, pts);
      x := x + 1;
    }
    PointsComplete(c, pts);
  }

  /** One square-root round of Points: record the root of `x` and its negation. */
  method RootStep(c: Curve, x: i64, pts: set<Point>) returns (pts': set<Point>)
    requires Field.Valid(c.f) && 3 < c.f.p && 0 <= x < c.f.p
    ensures pts' == pts + RootPair(c, x, Y(c, x))
  {
    var p := c.f.p;
    pts' := pts;
    var r := Y(c, x);
    if r.Ok? {
      var q := Point(x, r.value, false);
      var valid := Valid(c, q);
      if valid {
        pts' := pts' + {q};
        if q.y > 0 {
          pts' := pts' + {Point(x, p - q.y, false)};
          assert RootPair(c, x, r) == {q, Point(x, p - q.y, false)};
        } else {
          assert RootPair(c, x, r) == {q};
        }
      }
    }
  }

  /** One exhaustive round of Points: every `y` at abscissa `x` whose point Valid accepts. */
  method Column(c: Curve, x: i64, pts: set<Point>) returns (pts': set<Point>)
    requires Field.Valid(c.f) && 3 < c.f.p && 0 <= x < c.f.p
    requires pts == {Identity} + Grid(c, x, 0)
    ensures pts' == {Identity} + Grid(c, x + 1, 0)
  {
    var p := c.f.p;
    pts' := pts;
    var y: i64 := 0;
    while y < p
      invariant 0 <= y <= p
      invariant pts' == {Identity} + Grid(c, x, y)
    {
      var valid := Valid(c, Point(x, y, false));
      GridStep(c, x, y);
      if valid {
        pts' := pts' + {Point(x, y, false)};
      }
      y := y + 1;
    }
    GridRow(c, x);
  }
}
