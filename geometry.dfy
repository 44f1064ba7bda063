/** The lower-bound primitive of the Shubert–Piyavskii method: the apex where the
    line of slope -l falling from one sample meets the line of slope +l rising
    towards the next one, and what that apex bounds when the objective is
    l-Lipschitz. All arithmetic is over `real`. */
module Geometry {

  /** A sample: a true evaluation (x, f(x)) or a synthetic apex. */
  datatype Point = Point(x: real, y: real)

  function Abs(v: real): (r: real)
    ensures r >= 0.0 && (r == v || r == -v)
  {
    if v < 0.0 then -v else v
  }

  /** The apex of the two bound lines through `p` and `q`. The result lies on
      the line of slope -l through `p` and on the line of slope +l through `q`.
      `lines_intersection` divides by `2 * l`, so l == 0 raises; callers check it. */
  function Intersect(p: Point, q: Point, l: real): (r: Point)
    requires l != 0.0
    ensures r.y == p.y - l * (r.x - p.x)
    ensures r.y == q.y + l * (r.x - q.x)
  {
    var t := ((p.y - q.y) - l * (p.x - q.x)) / (2.0 * l);
    assert 2.0 * l * t == (p.y - q.y) - l * (p.x - q.x);
    Point(p.x + t, p.y - t * l)
  }

  /** The two lines have different slopes, so they meet in one point only:
      any point on both is the apex. */
  lemma IntersectUnique(p: Point, q: Point, l: real, r: Point)
    requires l != 0.0
    requires r.y == p.y - l * (r.x - p.x)
    requires r.y == q.y + l * (r.x - q.x)
    ensures r == Intersect(p, q, l)
  {
    var s := Intersect(p, q, l);
    assert 2.0 * l * (r.x - s.x) == 0.0;
    MulZero(2.0 * l, r.x - s.x);
  }

  lemma MulZero(u: real, v: real)
    requires u != 0.0 && u * v == 0.0
    ensures v == 0.0
  {
  }

  /** Where the apex lies along the chord: twice l times its offset from `p`
      is the drop from p to q plus l times the width of the chord. */
  lemma ApexOffset(p: Point, q: Point, l: real)
    requires l != 0.0
    ensures 2.0 * l * (Intersect(p, q, l).x - p.x) == (p.y - q.y) + l * (q.x - p.x)
    ensures 2.0 * l * (q.x - Intersect(p, q, l).x) == (q.y - p.y) + l * (q.x - p.x)
  {
  }

  /** When the rise between the samples is within the slope bound, the apex lies
      over the chord and no higher than either sample. */
  lemma ApexInChord(p: Point, q: Point, l: real)
    requires l > 0.0 && p.x <= q.x
    requires q.y - p.y <= l * (q.x - p.x) && p.y - q.y <= l * (q.x - p.x)
    ensures p.x <= Intersect(p, q, l).x <= q.x
    ensures Intersect(p, q, l).y <= p.y && Intersect(p, q, l).y <= q.y
  {
    var r := Intersect(p, q, l);
    ApexOffset(p, q, l);
    PositiveFactor(2.0 * l, r.x - p.x);
    PositiveFactor(2.0 * l, q.x - r.x);
    PositiveFactor(l, r.x - p.x);
    PositiveFactor(l, q.x - r.x);
  }

  /** The strict form: a rise strictly within the bound puts the apex strictly
      inside the chord and strictly below both samples. */
  lemma ApexStrictlyInside(p: Point, q: Point, l: real)
    requires l > 0.0 && p.x < q.x
    requires q.y - p.y < l * (q.x - p.x) && p.y - q.y < l * (q.x - p.x)
    ensures p.x < Intersect(p, q, l).x < q.x
    ensures Intersect(p, q, l).y < p.y && Intersect(p, q, l).y < q.y
  {
    var r := Intersect(p, q, l);
    ApexOffset(p, q, l);
    StrictlyPositiveFactor(2.0 * l, r.x - p.x);
    StrictlyPositiveFactor(2.0 * l, q.x - r.x);
    StrictlyPositiveFactor(l, r.x - p.x);
    StrictlyPositiveFactor(l, q.x - r.x);
  }

  lemma PositiveFactor(u: real, v: real)
    requires u > 0.0
    ensures u * v >= 0.0 <==> v >= 0.0
  {
  }

  lemma StrictlyPositiveFactor(u: real, v: real)
    requires u > 0.0
    ensures u * v > 0.0 <==> v > 0.0
  {
  }

  /** Between `u` and `v`, `f` rises or falls by at most l times the distance. */
  ghost predicate SlopeWithin(f: real -> real, l: real, u: real, v: real)
  {
    f(v) - f(u) <= l * (v - u) && f(u) - f(v) <= l * (v - u)
  }

  /** Between `u` and `v`, `f` rises or falls by strictly less than l times the distance. */
  ghost predicate SlopeStrictlyWithin(f: real -> real, l: real, u: real, v: real)
  {
    f(v) - f(u) < l * (v - u) && f(u) - f(v) < l * (v - u)
  }

  lemma MonotoneAlongLine(l: real, u: real, v: real)
    requires l > 0.0 && u <= v
    ensures l * u <= l * v
  {
  }

  /** Replacing the apex of p and q by a point `e` at the same x, no lower and
      within the slope bound of both, gives two new apexes no lower than the old
      one: each lies on the same bound line as before, nearer to its anchor. */
  lemma RaisedApexes(p: Point, q: Point, l: real, e: Point)
    requires l > 0.0
    requires e.x == Intersect(p, q, l).x && e.y >= Intersect(p, q, l).y
    requires p.x <= e.x <= q.x
    requires e.y - p.y <= l * (e.x - p.x) && p.y - e.y <= l * (e.x - p.x)
    requires q.y - e.y <= l * (q.x - e.x) && e.y - q.y <= l * (q.x - e.x)
    ensures Intersect(p, e, l).y >= Intersect(p, q, l).y
    ensures Intersect(e, q, l).y >= Intersect(p, q, l).y
  {
    var r, u, w := Intersect(p, q, l), Intersect(p, e, l), Intersect(e, q, l);
    ApexInChord(p, e, l);
    ApexInChord(e, q, l);
    MonotoneAlongLine(l, u.x, r.x);
    MonotoneAlongLine(l, r.x, w.x);
  }

  /** `f` is l-Lipschitz on [a, b]. */
  ghost predicate Lipschitz(f: real -> real, l: real, a: real, b: real)
  {
    forall u, v :: a <= u <= v <= b ==> SlopeWithin(f, l, u, v)
  }

  /** `f` changes by strictly less than l times the distance between any two
      distinct points of [a, b]. */
  ghost predicate StrictlyLipschitz(f: real -> real, l: real, a: real, b: real)
  {
    forall u, v :: a <= u < v <= b ==> SlopeStrictlyWithin(f, l, u, v)
  }

  lemma StrictlyLipschitzIsLipschitz(f: real -> real, l: real, a: real, b: real)
    requires StrictlyLipschitz(f, l, a, b)
    ensures Lipschitz(f, l, a, b)
  {
    forall u, v | a <= u <= v <= b
      ensures SlopeWithin(f, l, u, v)
    {
      if u == v {
        assert v - u == 0.0;
      } else {
        assert SlopeStrictlyWithin(f, l, u, v);
      }
    }
  }

  /** The V-shaped bound: between two true evaluations of an l-Lipschitz `f`,
      `f` never falls below the apex plus l times the distance from the apex. */
  lemma {:induction false} BelowLipschitz(f: real -> real, l: real, a: real, b: real, p: Point, q: Point, x: real)
    requires l > 0.0 && Lipschitz(f, l, a, b)
    requires a <= p.x <= x <= q.x <= b
    requires p.y == f(p.x) && q.y == f(q.x)
    ensures Intersect(p, q, l).y + l * Abs(x - Intersect(p, q, l).x) <= f(x)
  {
    var r := Intersect(p, q, l);
    if x <= r.x {
      assert SlopeWithin(f, l, p.x, x);
      assert r.y + l * (r.x - x) == p.y - l * (x - p.x);
    } else {
      assert SlopeWithin(f, l, x, q.x);
      assert r.y + l * (x - r.x) == q.y - l * (q.x - x);
    }
  }

  /** The cone of an apex below `bestY`: the x within (bestY - r.y) / l of the
      apex. When both samples are at least `bestY`, the cone fits inside the
      chord, because each bound line climbs from the apex to its sample. */
  lemma ConeWithinChord(p: Point, q: Point, l: real, bestY: real)
    requires l > 0.0
    requires Intersect(p, q, l).y < bestY <= p.y && bestY <= q.y
    ensures var r := Intersect(p, q, l);
            var d := (bestY - r.y) / l;
            0.0 < d && p.x <= r.x - d && r.x + d <= q.x
  {
    var r := Intersect(p, q, l);
    var d := (bestY - r.y) / l;
    assert l * d == bestY - r.y;
    StrictlyPositiveFactor(l, d);
    assert l * (r.x - p.x) == p.y - r.y;
    assert l * (q.x - r.x) == q.y - r.y;
    MonotoneAlongLine(l, d, r.x - p.x);
    MonotoneAlongLine(l, d, q.x - r.x);
    if r.x - d < p.x {
      StrictMonotone(l, r.x - p.x, d);
    }
    if q.x < r.x + d {
      StrictMonotone(l, q.x - r.x, d);
    }
  }

  lemma StrictMonotone(l: real, u: real, v: real)
    requires l > 0.0 && u < v
    ensures l * u < l * v
  {
  }

  /** A point where the V-shaped bound around apex `r` stays below `bestY`
      lies strictly within (bestY - r.y) / l of the apex. */
  lemma InsideCone(l: real, r: Point, x: real, fx: real, bestY: real)
    requires l > 0.0 && r.y + l * Abs(x - r.x) <= fx < bestY
    ensures r.y < bestY
    ensures r.x - (bestY - r.y) / l < x < r.x + (bestY - r.y) / l
  {
    PositiveFactor(l, Abs(x - r.x));
    var d := (bestY - r.y) / l;
    assert l * d == bestY - r.y;
    if !(Abs(x - r.x) < d) {
      MonotoneAlongLine(l, d, Abs(x - r.x));
    }
  }
}
