/** The sample list of the Shubert–Piyavskii method (the "sawtooth"): its
    five-point seed, the choice of the point to refine, and one refinement
    round, which deletes that point and inserts three in its place. */
module Envelope {
  import opened Geometry

  /** Python indexing: a negative index counts from the end of the list. */
  function PyAt(s: seq<Point>, k: int): (p: Point)
    requires -|s| <= k < |s|
    ensures 0 <= k ==> p == s[k]
    ensures k < 0 ==> p == s[|s| + k]
  {
    if k < 0 then s[|s| + k] else s[k]
  }

  /** `i` is the first position holding the smallest y. */
  ghost predicate IsFirstMinimum(s: seq<Point>, i: int)
  {
    0 <= i < |s| &&
    (forall j :: 0 <= j < |s| ==> s[i].y <= s[j].y) &&
    (forall j :: 0 <= j < i ==> s[i].y < s[j].y)
  }

  /** The index that `min(range(len(s)), key=y)` picks: the first minimum. */
  function ArgMinY(s: seq<Point>): (i: nat)
    requires |s| > 0
    ensures i < |s|
    ensures forall j :: 0 <= j < |s| ==> s[i].y <= s[j].y
    ensures forall j :: 0 <= j < i ==> s[i].y < s[j].y
  {
    if |s| == 1 then 0
    else
      var k := ArgMinY(s[..|s| - 1]);
      if s[|s| - 1].y < s[k].y then |s| - 1 else k
  }

  /** The first minimum is unique, so `ArgMinY` is the only index with that property. */
  lemma FirstMinimumUnique(s: seq<Point>, i: int)
    requires IsFirstMinimum(s, i)
    ensures i == ArgMinY(s)
  {
    var k := ArgMinY(s);
  }

  /** Position `k` holds the apex of its two neighbours. */
  ghost predicate ApexAt(s: seq<Point>, k: int, l: real)
  {
    0 < k < |s| - 1 && l != 0.0 && s[k] == Intersect(s[k - 1], s[k + 1], l)
  }

  /** The x of position `k + 2` lies strictly right of that of position `k`. */
  ghost predicate StepsRight(s: seq<Point>, k: int)
  {
    0 <= k < |s| - 2 && s[k].x < s[k + 2].x
  }

  /** The structural invariant of the sample list, without the objective:
      odd length, every odd position the apex of its two neighbours, and the
      x of the even positions strictly increasing. */
  ghost predicate Alternating(s: seq<Point>, l: real)
  {
    l > 0.0 && |s| % 2 == 1 && |s| >= 3 &&
    (forall k :: 0 < k < |s| - 1 && k % 2 == 1 ==> ApexAt(s, k, l)) &&
    (forall k :: 0 <= k < |s| - 2 && k % 2 == 0 ==> StepsRight(s, k))
  }

  /** The full invariant: alternating, spanning [a, b], and every even
      position a true evaluation of `f`. */
  ghost predicate Sawtooth(f: real -> real, l: real, a: real, b: real, s: seq<Point>)
  {
    Alternating(s, l) && s[0].x == a && s[|s| - 1].x == b &&
    forall k :: 0 <= k < |s| && k % 2 == 0 ==> s[k].y == f(s[k].x)
  }

  lemma {:induction false} EvensOrdered(s: seq<Point>, l: real, i: nat, j: nat)
    requires Alternating(s, l)
    requires i <= j < |s| && i % 2 == 0 && j % 2 == 0
    ensures s[i].x <= s[j].x
    ensures i < j ==> s[i].x < s[j].x
    decreases j - i
  {
    if i < j {
      assert StepsRight(s, i);
      EvensOrdered(s, l, i + 2, j);
    }
  }

  /** Every evaluation of a sawtooth lies in [a, b]. */
  lemma EvensWithin(f: real -> real, l: real, a: real, b: real, s: seq<Point>, k: nat)
    requires Sawtooth(f, l, a, b, s)
    requires k < |s| && k % 2 == 0
    ensures a <= s[k].x <= b
  {
    EvensOrdered(s, l, 0, k);
    EvensOrdered(s, l, k, |s| - 1);
  }

  /** For an l-Lipschitz objective each apex sits over its chord, no higher than
      either neighbouring evaluation. */
  lemma ApexBetween(f: real -> real, l: real, a: real, b: real, s: seq<Point>, k: nat)
    requires Lipschitz(f, l, a, b) && Sawtooth(f, l, a, b, s)
    requires 0 < k < |s| - 1 && k % 2 == 1
    ensures s[k - 1].x <= s[k].x <= s[k + 1].x
    ensures s[k].y <= s[k - 1].y && s[k].y <= s[k + 1].y
  {
    EvensWithin(f, l, a, b, s, k - 1);
    EvensWithin(f, l, a, b, s, k + 1);
    assert ApexAt(s, k, l) && StepsRight(s, k - 1);
    assert SlopeWithin(f, l, s[k - 1].x, s[k + 1].x);
    ApexInChord(s[k - 1], s[k + 1], l);
  }

  /** For a strictly l-Lipschitz objective each apex sits strictly inside its
      chord, strictly below both neighbouring evaluations. */
  lemma ApexStrictlyBetween(f: real -> real, l: real, a: real, b: real, s: seq<Point>, k: nat)
    requires StrictlyLipschitz(f, l, a, b) && Sawtooth(f, l, a, b, s)
    requires 0 < k < |s| - 1 && k % 2 == 1
    ensures s[k - 1].x < s[k].x < s[k + 1].x
    ensures s[k].y < s[k - 1].y && s[k].y < s[k + 1].y
  {
    EvensWithin(f, l, a, b, s, k - 1);
    EvensWithin(f, l, a, b, s, k + 1);
    assert ApexAt(s, k, l) && StepsRight(s, k - 1);
    assert SlopeStrictlyWithin(f, l, s[k - 1].x, s[k + 1].x);
    ApexStrictlyInside(s[k - 1], s[k + 1], l);
  }

  /** The seed list: evaluations at a, at the midpoint and at b, with the apex
      of each half-interval between them. */
  function InitialSamples(f: real -> real, a: real, b: real, l: real): (s: seq<Point>)
    requires l != 0.0
    ensures |s| == 5
    ensures s[0] == Point(a, f(a)) && s[4] == Point(b, f(b))
    ensures s[2].x == (a + b) / 2.0 && s[2].y == f(s[2].x)
    ensures s[1] == Intersect(s[0], s[2], l) && s[3] == Intersect(s[2], s[4], l)
  {
    var m := (a + b) / 2.0;
    var pa, pm, pb := Point(a, f(a)), Point(m, f(m)), Point(b, f(b));
    [pa, Intersect(pa, pm, l), pm, Intersect(pm, pb, l), pb]
  }

  /** On a proper interval the seed list already satisfies the invariant. */
  lemma InitialIsSawtooth(f: real -> real, a: real, b: real, l: real)
    requires a < b && l > 0.0
    ensures Sawtooth(f, l, a, b, InitialSamples(f, a, b, l))
  {
  }

  /** The list after refining position `i`: the point there is replaced by the
      apex towards its left neighbour, the true evaluation at its x, and the
      apex towards its right neighbour. At i == 0 the left neighbour is the
      last element, as Python's `s[-1]` is. */
  function Refined(f: real -> real, l: real, s: seq<Point>, i: nat): (t: seq<Point>)
    requires l != 0.0 && i < |s| - 1
    ensures |t| == |s| + 2
    ensures forall k {:trigger t[k]} :: 0 <= k < i ==> t[k] == s[k]
    ensures forall k :: i + 3 <= k < |t| ==> t[k] == s[k - 2]
    ensures t[i + 1] == Point(s[i].x, f(s[i].x))
    ensures t[i] == Intersect(PyAt(s, i - 1), t[i + 1], l)
    ensures t[i + 2] == Intersect(t[i + 1], s[i + 1], l)
  {
    var p := Point(s[i].x, f(s[i].x));
    s[..i] + [Intersect(PyAt(s, i - 1), p, l), p, Intersect(p, s[i + 1], l)] + s[i + 1..]
  }

  /** What one round of the refinement loop yields: the new list, the refined
      position and the gap between the true value there and the old bound, or
      the IndexError of `sample_points[i + 1]` when the refined position is the last one. */
  datatype RoundResult =
    | Refinement(samples: seq<Point>, index: nat, gap: real)
    | IndexOutOfRange

  /** One pass of the loop body: pick the first minimum, evaluate `f` there,
      and splice the three new points in with `del` and three `insert`s. */
  method RefineRound(f: real -> real, l: real, s: seq<Point>) returns (r: RoundResult)
    requires l != 0.0 && |s| > 0
    ensures r.IndexOutOfRange? <==> IsFirstMinimum(s, |s| - 1)
    ensures r.Refinement? ==>
              IsFirstMinimum(s, r.index) && r.index < |s| - 1 &&
              r.samples == Refined(f, l, s, r.index) &&
              r.gap == f(s[r.index].x) - s[r.index].y
  {
    var i := ArgMinY(s);
    var p := Point(s[i].x, f(s[i].x));
    var gap := p.y - s[i].y;
    var pPrev := Intersect(PyAt(s, i - 1), p, l);
    if i + 1 >= |s| {
      FirstMinimumUnique(s, |s| - 1);
      return IndexOutOfRange;
    }
    var pNext := Intersect(p, s[i + 1], l);
    DelInsert(s, i, pPrev, p, pNext);
    var t := s;
    t := t[..i] + t[i + 1..];
    t := t[..i] + [pNext] + t[i..];
    t := t[..i] + [p] + t[i..];
    t := t[..i] + [pPrev] + t[i..];
    r := Refinement(t, i, gap);
    if IsFirstMinimum(s, |s| - 1) {
      FirstMinimumUnique(s, |s| - 1);
    }
  }

  /** `del s[i]` followed by inserting `z`, `y` and `x` at `i`, in that order,
      puts the triple `[x, y, z]` in place of `s[i]`. */
  lemma DelInsert(s: seq<Point>, i: nat, x: Point, y: Point, z: Point)
    requires i < |s|
    ensures var t1 := s[..i] + s[i + 1..];
            var t2 := t1[..i] + [z] + t1[i..];
            var t3 := t2[..i] + [y] + t2[i..];
            var t4 := t3[..i] + [x] + t3[i..];
            t4 == s[..i] + [x, y, z] + s[i + 1..]
  {
    var t1 := s[..i] + s[i + 1..];
    assert t1[..i] == s[..i] && t1[i..] == s[i + 1..];
    var t2 := t1[..i] + [z] + t1[i..];
    assert t2[..i] == s[..i] && t2[i..] == [z] + s[i + 1..];
    var t3 := t2[..i] + [y] + t2[i..];
    assert t3[..i] == s[..i] && t3[i..] == [y, z] + s[i + 1..];
  }

  /** For a strictly l-Lipschitz objective the first minimum of a sawtooth is
      an apex strictly inside the list: every evaluation has a lower apex
      beside it. */
  lemma FirstMinimumIsApex(f: real -> real, l: real, a: real, b: real, s: seq<Point>)
    requires StrictlyLipschitz(f, l, a, b) && Sawtooth(f, l, a, b, s)
    ensures ArgMinY(s) % 2 == 1 && 0 < ArgMinY(s) < |s| - 1
  {
    var i := ArgMinY(s);
    if i % 2 == 0 {
      EvaluationAboveApex(f, l, a, b, s, i);
    }
    OddBeforeEnd(i, |s|);
  }

  /** For a strictly l-Lipschitz objective every evaluation of a sawtooth has
      an apex beside it that is strictly lower. */
  lemma EvaluationAboveApex(f: real -> real, l: real, a: real, b: real, s: seq<Point>, e: nat)
    requires StrictlyLipschitz(f, l, a, b) && Sawtooth(f, l, a, b, s)
    requires e < |s| && e % 2 == 0
    ensures e < |s| - 1 ==> s[e + 1].y < s[e].y
    ensures e > 0 ==> s[e - 1].y < s[e].y
  {
    if e < |s| - 1 {
      ApexStrictlyBetween(f, l, a, b, s, e + 1);
    }
    if e > 0 {
      ApexStrictlyBetween(f, l, a, b, s, e - 1);
    }
  }

  lemma OddBeforeEnd(i: int, n: int)
    requires i % 2 == 1 && n % 2 == 1 && 0 <= i < n
    ensures 0 < i < n - 1
  {
  }

  /** Refining an odd position keeps every odd position the apex of its neighbours. */
  lemma RefinedApexes(f: real -> real, l: real, s: seq<Point>, i: nat)
    requires Alternating(s, l) && i % 2 == 1 && i < |s| - 1
    ensures var t := Refined(f, l, s, i);
            forall k :: 0 < k < |t| - 1 && k % 2 == 1 ==> ApexAt(t, k, l)
  {
    var t := Refined(f, l, s, i);
    forall k | 0 < k < |t| - 1 && k % 2 == 1
      ensures ApexAt(t, k, l)
    {
      if k < i {
        assert ApexAt(s, k, l);
        assert t[k - 1] == s[k - 1] && t[k + 1] == s[k + 1];
      } else if k > i + 2 {
        assert ApexAt(s, k - 2, l);
        assert t[k - 1] == s[k - 3] && t[k + 1] == s[k - 1];
      }
    }
  }

  /** Refining an odd position whose x lies strictly inside its chord, with both
      new apexes strictly inside theirs, keeps the evaluations strictly ordered. */
  lemma RefinedOrdered(f: real -> real, l: real, s: seq<Point>, i: nat)
    requires Alternating(s, l) && i % 2 == 1 && i < |s| - 1
    requires s[i - 1].x < s[i].x < s[i + 1].x
    ensures var t := Refined(f, l, s, i);
            forall k :: 0 <= k < |t| - 2 && k % 2 == 0 ==> StepsRight(t, k)
  {
    var t := Refined(f, l, s, i);
    forall k | 0 <= k < |t| - 2 && k % 2 == 0
      ensures StepsRight(t, k)
    {
      if k + 2 < i {
        assert StepsRight(s, k);
        assert t[k] == s[k] && t[k + 2] == s[k + 2];
      } else if k > i + 2 {
        assert StepsRight(s, k - 2);
        assert t[k] == s[k - 2] && t[k + 2] == s[k];
      }
    }
  }

  /** Refining an odd position keeps every even position a true evaluation. */
  lemma RefinedEvaluations(f: real -> real, l: real, a: real, b: real, s: seq<Point>, i: nat)
    requires Sawtooth(f, l, a, b, s) && i % 2 == 1 && i < |s| - 1
    ensures var t := Refined(f, l, s, i);
            t[0].x == a && t[|t| - 1].x == b &&
            forall k :: 0 <= k < |t| && k % 2 == 0 ==> t[k].y == f(t[k].x)
  {
    var t := Refined(f, l, s, i);
    assert t[|t| - 1] == s[|s| - 1];
    forall k | 0 <= k < |t| && k % 2 == 0
      ensures t[k].y == f(t[k].x)
    {
      if k > i + 2 {
        assert t[k] == s[k - 2];
      }
    }
  }

  /** For a strictly l-Lipschitz objective the refinement round never wraps or
      raises, and the refined list is again a sawtooth. */
  lemma RefineKeepsSawtooth(f: real -> real, l: real, a: real, b: real, s: seq<Point>)
    requires StrictlyLipschitz(f, l, a, b) && Sawtooth(f, l, a, b, s)
    ensures ArgMinY(s) % 2 == 1 && 0 < ArgMinY(s) < |s| - 1
    ensures Sawtooth(f, l, a, b, Refined(f, l, s, ArgMinY(s)))
  {
    FirstMinimumIsApex(f, l, a, b, s);
    ApexStrictlyBetween(f, l, a, b, s, ArgMinY(s));
    RefinedAlternating(f, l, s, ArgMinY(s));
    RefinedEvaluations(f, l, a, b, s, ArgMinY(s));
  }

  /** Refining an odd position strictly inside its chord keeps the list alternating. */
  lemma RefinedAlternating(f: real -> real, l: real, s: seq<Point>, i: nat)
    requires Alternating(s, l) && i % 2 == 1 && i < |s| - 1
    requires s[i - 1].x < s[i].x < s[i + 1].x
    ensures Alternating(Refined(f, l, s, i), l)
  {
    RefinedApexes(f, l, s, i);
    RefinedOrdered(f, l, s, i);
    ParityAfterGrowth(|s|);
  }

  lemma ParityAfterGrowth(n: int)
    requires n % 2 == 1
    ensures (n + 2) % 2 == 1
  {
  }

  /** The gap measured at an apex is never negative when `f` is l-Lipschitz:
      the sawtooth is a lower bound there. */
  lemma GapNonNegative(f: real -> real, l: real, a: real, b: real, s: seq<Point>, i: nat)
    requires Lipschitz(f, l, a, b) && Sawtooth(f, l, a, b, s)
    requires 0 < i < |s| - 1 && i % 2 == 1
    ensures f(s[i].x) - s[i].y >= 0.0
  {
    ApexBetween(f, l, a, b, s, i);
    EvensWithin(f, l, a, b, s, i - 1);
    EvensWithin(f, l, a, b, s, i + 1);
    BelowLipschitz(f, l, a, b, s[i - 1], s[i + 1], s[i].x);
    assert ApexAt(s, i, l);
  }

  /** The three points a round inserts at an apex are no lower than that apex
      when `f` is l-Lipschitz: the new evaluation by the lower bound, and each
      new apex because it lies on the same bound line, nearer to its anchor. */
  lemma NewPointsAboveApex(f: real -> real, l: real, a: real, b: real, s: seq<Point>, i: nat)
    requires Lipschitz(f, l, a, b) && Sawtooth(f, l, a, b, s)
    requires 0 < i < |s| - 1 && i % 2 == 1
    ensures var p := Point(s[i].x, f(s[i].x));
            p.y >= s[i].y && Intersect(s[i - 1], p, l).y >= s[i].y && Intersect(p, s[i + 1], l).y >= s[i].y
  {
    var p := Point(s[i].x, f(s[i].x));
    GapNonNegative(f, l, a, b, s, i);
    ApexBetween(f, l, a, b, s, i);
    EvensWithin(f, l, a, b, s, i - 1);
    EvensWithin(f, l, a, b, s, i + 1);
    assert ApexAt(s, i, l);
    assert SlopeWithin(f, l, s[i - 1].x, p.x) && SlopeWithin(f, l, p.x, s[i + 1].x);
    RaisedApexes(s[i - 1], s[i + 1], l, p);
  }

  /** Refining the lowest apex never lowers the lowest point of the sawtooth:
      the predicted minimum rises monotonically from round to round. */
  lemma RefineRaisesFloor(f: real -> real, l: real, a: real, b: real, s: seq<Point>)
    requires StrictlyLipschitz(f, l, a, b) && Sawtooth(f, l, a, b, s)
    ensures ArgMinY(s) < |s| - 1
    ensures var t := Refined(f, l, s, ArgMinY(s));
            s[ArgMinY(s)].y <= t[ArgMinY(t)].y
  {
    FirstMinimumIsApex(f, l, a, b, s);
    StrictlyLipschitzIsLipschitz(f, l, a, b);
    NewPointsAboveApex(f, l, a, b, s, ArgMinY(s));
    RefinedAboveFloor(f, l, s, ArgMinY(s));
  }

  /** When the three inserted points are no lower than the refined first
      minimum, nothing in the refined list is lower than it. */
  lemma RefinedAboveFloor(f: real -> real, l: real, s: seq<Point>, i: nat)
    requires l != 0.0 && 0 < i < |s| - 1 && IsFirstMinimum(s, i)
    requires var p := Point(s[i].x, f(s[i].x));
             p.y >= s[i].y && Intersect(s[i - 1], p, l).y >= s[i].y && Intersect(p, s[i + 1], l).y >= s[i].y
    ensures s[i].y <= Refined(f, l, s, i)[ArgMinY(Refined(f, l, s, i))].y
  {
    var t := Refined(f, l, s, i);
    var j := ArgMinY(t);
    if j > i + 2 {
      assert t[j] == s[j - 2];
    } else if j < i {
      assert t[j] == s[j];
    } else {
      assert PyAt(s, i - 1) == s[i - 1];
    }
  }

  /** Every x of [a, b] lies under the chord of some apex of a sawtooth. */
  lemma Locate(f: real -> real, l: real, a: real, b: real, s: seq<Point>, x: real) returns (k: nat)
    requires Sawtooth(f, l, a, b, s) && a <= x <= b
    ensures 0 < k < |s| - 1 && k % 2 == 1 && s[k - 1].x <= x <= s[k + 1].x
  {
    k := 1;
    while s[k + 1].x < x
      invariant 0 < k < |s| - 1 && k % 2 == 1 && s[k - 1].x <= x
      decreases |s| - k
    {
      k := k + 2;
    }
  }

  /** The lower-bound property: for an l-Lipschitz objective, f(x) at every x
      of [a, b] is at least the apex over x's chord plus l times the distance
      to it, and so never below the lowest point of the sawtooth. */
  lemma EnvelopeBelow(f: real -> real, l: real, a: real, b: real, s: seq<Point>, x: real) returns (k: nat)
    requires Lipschitz(f, l, a, b) && Sawtooth(f, l, a, b, s) && a <= x <= b
    ensures 0 < k < |s| - 1 && k % 2 == 1 && s[k - 1].x <= x <= s[k + 1].x
    ensures s[k].y + l * Abs(x - s[k].x) <= f(x)
    ensures s[ArgMinY(s)].y <= f(x)
  {
    k := Locate(f, l, a, b, s, x);
    EvensWithin(f, l, a, b, s, k - 1);
    EvensWithin(f, l, a, b, s, k + 1);
    assert ApexAt(s, k, l);
    BelowLipschitz(f, l, a, b, s[k - 1], s[k + 1], x);
    PositiveFactor(l, Abs(x - s[k].x));
  }

  function Identity(x: real): real { x }

  lemma IdentityIsLipschitz(a: real, b: real)
    ensures Lipschitz(Identity, 1.0, a, b)
  {
    forall u, v | a <= u <= v <= b
      ensures SlopeWithin(Identity, 1.0, u, v)
    {
    }
  }

  /** On the graph of the identity the falling line from the left sample meets
      the rising line at that sample itself. */
  lemma ApexAtLeftEnd(u: real, v: real)
    ensures Intersect(Point(u, u), Point(v, v), 1.0) == Point(u, u)
  {
    IntersectUnique(Point(u, u), Point(v, v), 1.0, Point(u, u));
  }

  /** At i == 0 the round reads `s[-1]`, the last element. That happens even for
      an l-Lipschitz objective: with f(x) = x and l = 1 the first apex coincides
      with the left end, the first minimum is position 0, and the refined list
      starts with the point at b, so it is no longer a sawtooth. */
  lemma FirstRoundCanWrap(a: real, b: real)
    requires a < b
    ensures Lipschitz(Identity, 1.0, a, b)
    ensures ArgMinY(InitialSamples(Identity, a, b, 1.0)) == 0
    ensures var s := InitialSamples(Identity, a, b, 1.0);
            var t := Refined(Identity, 1.0, s, 0);
            t[0] == s[4] && !Sawtooth(Identity, 1.0, a, b, t)
  {
    IdentityIsLipschitz(a, b);
    var s := InitialSamples(Identity, a, b, 1.0);
    var m := (a + b) / 2.0;
    ApexAtLeftEnd(a, m);
    ApexAtLeftEnd(m, b);
    assert s == [Point(a, a), Point(a, a), Point(m, m), Point(m, m), Point(b, b)];
    FirstMinimumUnique(s, 0);
    var t := Refined(Identity, 1.0, s, 0);
    assert t[1] == Point(a, a);
    ApexAtLeftEnd(b, a);
  }
}
