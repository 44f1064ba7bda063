/** The interval extractor of the Shubert–Piyavskii method: after the loop, the
    best true evaluation is picked from the even positions, and every apex
    still below it contributes the x-range where a better value could hide,
    merged with the previous range when the two lie within `delta`. */
module Intervals {
  import opened Geometry
  import opened Envelope

  /** A range [lo, hi] of x where the minimum may still lie. */
  datatype Interval = Interval(lo: real, hi: real)

  /** Python's `max(u, v)`. */
  function Max(u: real, v: real): (r: real)
    ensures r >= u && r >= v && (r == u || r == v)
  {
    if v > u then v else u
  }

  /** Python's `min(u, v)`. */
  function Min(u: real, v: real): (r: real)
    ensures r <= u && r <= v && (r == u || r == v)
  {
    if v < u then v else u
  }

  /** The slice `s[0:len(s):2]`: the points at even positions, in order. */
  function EvenPoints(s: seq<Point>): (e: seq<Point>)
    ensures |e| == (|s| + 1) / 2
    ensures forall k :: 0 <= k < |e| ==> 2 * k < |s| && e[k] == s[2 * k]
  {
    seq((|s| + 1) / 2, k requires 0 <= k < (|s| + 1) / 2 => s[2 * k])
  }

  /** `k` is the first even position whose y is the smallest among even positions. */
  ghost predicate IsBestEvaluation(s: seq<Point>, k: int)
  {
    0 <= k < |s| && k % 2 == 0 &&
    (forall j :: 0 <= j < |s| && j % 2 == 0 ==> s[k].y <= s[j].y) &&
    (forall j :: 0 <= j < k && j % 2 == 0 ==> s[k].y < s[j].y)
  }

  /** The index `2 * evens.index(min(evens, key=y))`: twice the position of the
      first lowest point of the even slice. */
  function BestEvaluation(s: seq<Point>): (k: nat)
    requires |s| > 0
    ensures IsBestEvaluation(s, k)
  {
    var e := EvenPoints(s);
    var m := ArgMinY(e);
    assert forall j :: 0 <= j < |s| && j % 2 == 0 ==> s[j] == e[j / 2];
    2 * m
  }

  /** The first lowest even position is unique. */
  lemma BestEvaluationUnique(s: seq<Point>, k: int)
    requires IsBestEvaluation(s, k)
    ensures k == BestEvaluation(s)
  {
    var m := BestEvaluation(s);
  }

  /** The x-range around apex `p` where, by the slope bound, a value below
      `bestY` could still exist, clipped to [a, b]. */
  function Cone(p: Point, bestY: real, a: real, b: real, l: real): (c: Interval)
    requires l != 0.0
    ensures a <= c.lo && c.hi <= b
  {
    var dy := bestY - p.y;
    Interval(Max(a, p.x - dy / l), Min(b, p.x + dy / l))
  }

  /** Adds `c` to the list: the last interval is stretched to end at `c.hi`
      when it reaches within `delta` of `c.lo`; otherwise `c` is appended. */
  function Absorb(acc: seq<Interval>, c: Interval, delta: real): seq<Interval>
  {
    if |acc| > 0 && acc[|acc| - 1].hi + delta >= c.lo then
      acc[|acc| - 1 := Interval(acc[|acc| - 1].lo, c.hi)]
    else
      acc + [c]
  }

  /** The merge rule: a cone is appended exactly when the list is empty or its
      last interval ends more than `delta` before the cone starts; otherwise
      the last interval is stretched to the cone's end. Either way every
      earlier interval is kept and the list ends where the cone ends. */
  lemma AbsorbCases(acc: seq<Interval>, c: Interval, delta: real)
    ensures var iv := Absorb(acc, c, delta);
            (|iv| == |acc| + 1 <==> |acc| == 0 || acc[|acc| - 1].hi + delta < c.lo) &&
            (|iv| == |acc| + 1 || |iv| == |acc|) &&
            (|iv| == |acc| + 1 ==> iv[|acc|] == c) &&
            (|iv| == |acc| ==> iv[|acc| - 1] == Interval(acc[|acc| - 1].lo, c.hi)) &&
            (forall q :: 0 <= q < |acc| - 1 ==> iv[q] == acc[q]) &&
            iv[|iv| - 1].hi == c.hi
  {
  }

  /** The interval list after the scan has looked at positions 0 .. n - 1:
      odd positions below `bestY` are absorbed in order, the rest skipped. */
  function IntervalsUpTo(s: seq<Point>, bestY: real, a: real, b: real, l: real, delta: real, n: nat): seq<Interval>
    requires n <= |s| && l != 0.0
  {
    if n == 0 then []
    else
      var acc := IntervalsUpTo(s, bestY, a, b, l, delta, n - 1);
      if (n - 1) % 2 == 1 && s[n - 1].y < bestY then Absorb(acc, Cone(s[n - 1], bestY, a, b, l), delta)
      else acc
  }

  /** The number of odd positions below `n` whose apex lies below `bestY`. */
  function Qualifying(s: seq<Point>, bestY: real, n: nat): nat
    requires n <= |s|
  {
    if n == 0 then 0
    else Qualifying(s, bestY, n - 1) + if (n - 1) % 2 == 1 && s[n - 1].y < bestY then 1 else 0
  }

  /** What `shubert_piyavskii` does after its refinement loop: the best evaluation and the merged ranges of
      every apex below it. The sample list is a value and is left untouched. */
  method ExtractIntervals(s: seq<Point>, a: real, b: real, l: real, delta: real)
    returns (best: nat, intervals: seq<Interval>)
    requires |s| > 0 && l != 0.0
    ensures IsBestEvaluation(s, best)
    ensures intervals == IntervalsUpTo(s, s[best].y, a, b, l, delta, |s|)
  {
    best := BestEvaluation(s);
    intervals := ScanApexes(s, s[best].y, a, b, l, delta);
  }

  /** The `while j < len(sample_points)` scan over the odd positions, absorbing the cone of
      every apex below `bestY`. */
  method ScanApexes(s: seq<Point>, bestY: real, a: real, b: real, l: real, delta: real)
    returns (intervals: seq<Interval>)
    requires l != 0.0
    ensures intervals == IntervalsUpTo(s, bestY, a, b, l, delta, |s|)
  {
    intervals := [];
    var j := 1;
    ghost var m := 0;
    while j < |s|
      invariant j == 2 * m + 1 && 2 * m <= |s|
      invariant intervals == IntervalsUpTo(s, bestY, a, b, l, delta, 2 * m)
    {
      ScanStep(s, bestY, a, b, l, delta, m);
      if s[j].y < bestY {
        var c := Cone(s[j], bestY, a, b, l);
        ghost var before := intervals;
        if |intervals| > 0 && intervals[|intervals| - 1].hi + delta >= c.lo {
          intervals := intervals[|intervals| - 1 := Interval(intervals[|intervals| - 1].lo, c.hi)];
        } else {
          intervals := intervals + [c];
        }
        assert intervals == Absorb(before, c, delta);
      }
      assert intervals == IntervalsUpTo(s, bestY, a, b, l, delta, 2 * m + 2);
      j, m := j + 2, m + 1;
    }
  }

  /** Two steps of the scan over the odd position 2m + 1: the even position
      before it adds nothing, and the odd one is absorbed when its apex is
      below `bestY`. */
  lemma ScanStep(s: seq<Point>, bestY: real, a: real, b: real, l: real, delta: real, m: nat)
    requires 2 * m + 1 < |s| && l != 0.0
    ensures IntervalsUpTo(s, bestY, a, b, l, delta, 2 * m + 2) ==
            if s[2 * m + 1].y < bestY then Absorb(IntervalsUpTo(s, bestY, a, b, l, delta, 2 * m), Cone(s[2 * m + 1], bestY, a, b, l), delta)
            else IntervalsUpTo(s, bestY, a, b, l, delta, 2 * m)
  {
    OddEven(m);
    assert IntervalsUpTo(s, bestY, a, b, l, delta, 2 * m + 1) == IntervalsUpTo(s, bestY, a, b, l, delta, 2 * m);
  }

  lemma OddEven(m: nat)
    ensures (2 * m + 1) % 2 == 1 && (2 * m) % 2 == 0
  {
  }

  /** Every interval of `iv` lies in [a, b]. */
  ghost predicate AllWithin(iv: seq<Interval>, a: real, b: real)
  {
    forall q :: 0 <= q < |iv| ==> a <= iv[q].lo && iv[q].hi <= b
  }

  /** Every reported interval lies in [a, b]: each bound comes from a clipped cone. */
  lemma {:induction false} IntervalsClipped(s: seq<Point>, bestY: real, a: real, b: real, l: real, delta: real, n: nat)
    requires n <= |s| && l != 0.0
    ensures AllWithin(IntervalsUpTo(s, bestY, a, b, l, delta, n), a, b)
  {
    if n > 0 {
      IntervalsClipped(s, bestY, a, b, l, delta, n - 1);
      var acc := IntervalsUpTo(s, bestY, a, b, l, delta, n - 1);
      var iv := IntervalsUpTo(s, bestY, a, b, l, delta, n);
      if (n - 1) % 2 == 1 && s[n - 1].y < bestY {
        var c := Cone(s[n - 1], bestY, a, b, l);
        if |acc| > 0 && acc[|acc| - 1].hi + delta >= c.lo {
          assert iv == acc[|acc| - 1 := Interval(acc[|acc| - 1].lo, c.hi)];
        } else {
          assert iv == acc + [c];
          assert forall q :: 0 <= q < |acc| ==> iv[q] == acc[q];
        }
      }
    }
  }

  /** There are never more intervals than qualifying apexes, and the list is
      empty exactly when no apex lies below the best evaluation. */
  lemma {:induction false} IntervalsCount(s: seq<Point>, bestY: real, a: real, b: real, l: real, delta: real, n: nat)
    requires n <= |s| && l != 0.0
    ensures |IntervalsUpTo(s, bestY, a, b, l, delta, n)| <= Qualifying(s, bestY, n)
    ensures IntervalsUpTo(s, bestY, a, b, l, delta, n) == [] <==> Qualifying(s, bestY, n) == 0
  {
    if n > 0 {
      IntervalsCount(s, bestY, a, b, l, delta, n - 1);
    }
  }

  /** The even position at or just after the last apex the scan has seen. */
  function Frontier(n: nat): nat
  {
    if n % 2 == 1 then n - 1 else n
  }

  /** The samples the extractor is run on: alternating, spanning [a, b], with
      `bestY` no higher than any evaluation. */
  ghost predicate Scannable(s: seq<Point>, bestY: real, a: real, b: real, l: real)
  {
    Alternating(s, l) && s[0].x == a && s[|s| - 1].x == b &&
    forall k :: 0 <= k < |s| && k % 2 == 0 ==> bestY <= s[k].y
  }

  /** A qualifying apex's cone lies inside its chord and is not empty. */
  lemma ConeOfApex(s: seq<Point>, bestY: real, a: real, b: real, l: real, k: nat)
    requires Scannable(s, bestY, a, b, l)
    requires 0 < k < |s| - 1 && k % 2 == 1 && s[k].y < bestY
    ensures var c := Cone(s[k], bestY, a, b, l);
            s[k - 1].x <= c.lo < c.hi <= s[k + 1].x &&
            c.lo == s[k].x - (bestY - s[k].y) / l && c.hi == s[k].x + (bestY - s[k].y) / l
  {
    assert ApexAt(s, k, l);
    ConeWithinChord(s[k - 1], s[k + 1], l, bestY);
    EvensOrdered(s, l, 0, k - 1);
    EvensOrdered(s, l, k + 1, |s| - 1);
  }

  /** Every interval is non-empty and consecutive intervals are more than
      `delta` apart, in increasing order. */
  ghost predicate Separated(iv: seq<Interval>, delta: real)
  {
    (forall q :: 0 <= q < |iv| ==> iv[q].lo < iv[q].hi) &&
    (forall q :: 0 <= q < |iv| - 1 ==> iv[q].hi + delta < iv[q + 1].lo)
  }

  /** The last interval, if any, ends no later than `x`. */
  ghost predicate EndsBy(iv: seq<Interval>, x: real)
  {
    |iv| > 0 ==> iv[|iv| - 1].hi <= x
  }

  /** Over an alternating list the scan keeps its intervals non-empty, more
      than `delta` apart, and ending no later than the evaluation after the
      last apex seen. */
  lemma {:induction false} IntervalsShape(s: seq<Point>, bestY: real, a: real, b: real, l: real, delta: real, n: nat)
    requires Scannable(s, bestY, a, b, l) && n <= |s|
    ensures Frontier(n) < |s|
    ensures Separated(IntervalsUpTo(s, bestY, a, b, l, delta, n), delta)
    ensures EndsBy(IntervalsUpTo(s, bestY, a, b, l, delta, n), s[Frontier(n)].x)
  {
    if n > 0 {
      IntervalsShape(s, bestY, a, b, l, delta, n - 1);
      var k := n - 1;
      if k % 2 == 1 {
        assert Frontier(n - 1) == k - 1 && Frontier(n) == k + 1;
        if s[k].y < bestY {
          ConeOfApex(s, bestY, a, b, l, k);
          AbsorbShape(IntervalsUpTo(s, bestY, a, b, l, delta, k), Cone(s[k], bestY, a, b, l), delta, s[k - 1].x, s[k + 1].x);
        } else {
          assert StepsRight(s, k - 1);
        }
      }
    }
  }

  /** Absorbing a non-empty cone that starts no earlier than the last interval
      ends keeps the list separated, and it then ends by the end of the cone. */
  lemma AbsorbShape(acc: seq<Interval>, c: Interval, delta: real, before: real, after: real)
    requires Separated(acc, delta) && EndsBy(acc, before)
    requires before <= c.lo < c.hi <= after
    ensures Separated(Absorb(acc, c, delta), delta) && EndsBy(Absorb(acc, c, delta), after)
  {
    var iv := Absorb(acc, c, delta);
    if |acc| > 0 && acc[|acc| - 1].hi + delta >= c.lo {
      forall q | 0 <= q < |iv| - 1
        ensures iv[q] == acc[q]
      {
      }
    } else {
      assert iv == acc + [c];
    }
  }

  /** `x` lies in one of the intervals. */
  ghost predicate Covered(iv: seq<Interval>, x: real)
  {
    exists q :: 0 <= q < |iv| && iv[q].lo <= x <= iv[q].hi
  }

  /** Absorbing a cone keeps every covered x covered, provided a merge never
      shortens the last interval. */
  lemma AbsorbKeepsCovered(acc: seq<Interval>, c: Interval, delta: real, x: real)
    requires Covered(acc, x)
    requires |acc| > 0 ==> acc[|acc| - 1].hi <= c.hi
    ensures Covered(Absorb(acc, c, delta), x)
  {
    var iv := Absorb(acc, c, delta);
    var q :| 0 <= q < |acc| && acc[q].lo <= x <= acc[q].hi;
    assert iv[q].lo <= x <= iv[q].hi;
  }

  /** Absorbing a cone covers every x of the cone, provided a merge never
      starts after the cone does. */
  lemma AbsorbCoversCone(acc: seq<Interval>, c: Interval, delta: real, x: real)
    requires c.lo <= x <= c.hi
    requires |acc| > 0 ==> acc[|acc| - 1].lo <= c.lo
    ensures Covered(Absorb(acc, c, delta), x)
  {
    var iv := Absorb(acc, c, delta);
    assert iv[|iv| - 1].lo <= x <= iv[|iv| - 1].hi;
  }

  /** Over an alternating list every point of every qualifying apex's cone is
      inside some reported interval: merging only ever stretches the last one. */
  lemma {:induction false} IntervalsCoverCones(s: seq<Point>, bestY: real, a: real, b: real, l: real, delta: real, n: nat, k: nat, x: real)
    requires Scannable(s, bestY, a, b, l) && n <= |s|
    requires k < n && k % 2 == 1 && s[k].y < bestY
    requires Cone(s[k], bestY, a, b, l).lo <= x <= Cone(s[k], bestY, a, b, l).hi
    ensures Covered(IntervalsUpTo(s, bestY, a, b, l, delta, n), x)
  {
    if (n - 1) % 2 == 1 && s[n - 1].y < bestY {
      if k < n - 1 {
        IntervalsCoverCones(s, bestY, a, b, l, delta, n - 1, k, x);
      }
      CoverAtApex(s, bestY, a, b, l, delta, n, k, x);
    } else {
      IntervalsCoverCones(s, bestY, a, b, l, delta, n - 1, k, x);
    }
  }

  /** The step of `IntervalsCoverCones` at a qualifying apex n - 1: its own cone
      becomes covered, and whatever was covered stays covered. */
  lemma CoverAtApex(s: seq<Point>, bestY: real, a: real, b: real, l: real, delta: real, n: nat, k: nat, x: real)
    requires Scannable(s, bestY, a, b, l) && 0 < n <= |s|
    requires (n - 1) % 2 == 1 && s[n - 1].y < bestY && k < n
    requires k == n - 1 ==> Cone(s[k], bestY, a, b, l).lo <= x <= Cone(s[k], bestY, a, b, l).hi
    requires k < n - 1 ==> Covered(IntervalsUpTo(s, bestY, a, b, l, delta, n - 1), x)
    ensures Covered(IntervalsUpTo(s, bestY, a, b, l, delta, n), x)
  {
    var acc := IntervalsUpTo(s, bestY, a, b, l, delta, n - 1);
    var c := Cone(s[n - 1], bestY, a, b, l);
    ConeOfApex(s, bestY, a, b, l, n - 1);
    IntervalsShape(s, bestY, a, b, l, delta, n - 1);
    assert Frontier(n - 1) == n - 2;
    if k == n - 1 {
      AbsorbCoversCone(acc, c, delta, x);
    } else {
      AbsorbKeepsCovered(acc, c, delta, x);
    }
  }

  /** A sawtooth is scannable against its best evaluation. */
  lemma SawtoothScannable(f: real -> real, l: real, a: real, b: real, s: seq<Point>)
    requires Sawtooth(f, l, a, b, s)
    ensures Scannable(s, s[BestEvaluation(s)].y, a, b, l)
  {
  }

  /** An x of [a, b] strictly within (bestY - p.y) / l of `p` lies in its clipped cone. */
  lemma InCone(p: Point, bestY: real, a: real, b: real, l: real, x: real)
    requires l > 0.0 && a <= x <= b
    requires p.x - (bestY - p.y) / l < x < p.x + (bestY - p.y) / l
    ensures Cone(p, bestY, a, b, l).lo <= x <= Cone(p, bestY, a, b, l).hi
  {
  }

  /** The guarantee the intervals give: for an l-Lipschitz objective, any x of
      [a, b] where f is below the best evaluation lies in a reported interval. */
  lemma NothingBetterOutside(f: real -> real, l: real, a: real, b: real, delta: real, s: seq<Point>, x: real)
    requires Lipschitz(f, l, a, b) && Sawtooth(f, l, a, b, s)
    requires a <= x <= b && f(x) < s[BestEvaluation(s)].y
    ensures Covered(IntervalsUpTo(s, s[BestEvaluation(s)].y, a, b, l, delta, |s|), x)
  {
    var k := EnvelopeBelow(f, l, a, b, s, x);
    SawtoothScannable(f, l, a, b, s);
    CoveredByCone(s, s[BestEvaluation(s)].y, a, b, l, delta, k, x, f(x));
  }

  /** An x of [a, b] whose value `fx` respects the V-shaped bound of an apex
      and is below `bestY` is covered by the intervals of the whole scan. */
  lemma CoveredByCone(s: seq<Point>, bestY: real, a: real, b: real, l: real, delta: real, k: nat, x: real, fx: real)
    requires Scannable(s, bestY, a, b, l) && 0 < k < |s| - 1 && k % 2 == 1 && a <= x <= b
    requires s[k].y + l * Abs(x - s[k].x) <= fx < bestY
    ensures Covered(IntervalsUpTo(s, bestY, a, b, l, delta, |s|), x)
  {
    InsideCone(l, s[k], x, fx, bestY);
    InCone(s[k], bestY, a, b, l, x);
    IntervalsCoverCones(s, bestY, a, b, l, delta, |s|, k, x);
  }
}
