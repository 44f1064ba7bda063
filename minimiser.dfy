/** The whole Shubert–Piyavskii minimiser: seed the sawtooth, refine its lowest
    point until the true value there is within `epsilon` of the bound, then
    report the best evaluation and the ranges where a better one could hide. */
module Minimiser {
  import opened Geometry
  import opened Envelope
  import opened Intervals

  /** How a run ends. `RoundsExhausted` is not behaviour of the algorithm:
      `shubert_piyavskii` loops until convergence, and the round budget only stands in for
      a run that has not converged yet. */
  datatype Outcome =
    | Converged(best: Point, intervals: seq<Interval>, samples: seq<Point>, rounds: nat, gap: real)
    | DivisionByZero
    | IndexError(samples: seq<Point>, rounds: nat)
    | RoundsExhausted(samples: seq<Point>, rounds: nat)

  /** The conditions under which the method is meant to be used: a proper
      interval, a positive slope bound, and an objective whose slope stays
      strictly below it. */
  ghost predicate WellPosed(f: real -> real, a: real, b: real, l: real)
  {
    a < b && l > 0.0 && StrictlyLipschitz(f, l, a, b)
  }

  /** `floor` is a lower bound of `f` over [a, b]. */
  ghost predicate FloorOf(f: real -> real, a: real, b: real, floor: real)
  {
    forall x :: a <= x <= b ==> floor <= f(x)
  }

  /** What a converged run promises: `best` is a true evaluation inside [a, b]
      within `epsilon` of the minimum, and every x where f is lower than it
      lies in one of the reported intervals. */
  ghost predicate Guarantees(f: real -> real, a: real, b: real, epsilon: real, best: Point, intervals: seq<Interval>)
  {
    best.y == f(best.x) && a <= best.x <= b &&
    (forall x :: a <= x <= b ==> best.y <= f(x) + epsilon) &&
    (forall x :: a <= x <= b && f(x) < best.y ==> Covered(intervals, x))
  }

  /** On a well-posed problem the lowest point of a sawtooth is an interior
      apex (so neither the wrap at index 0 nor the IndexError at the end can
      happen), and its y bounds f from below. */
  lemma LowestIsFloor(f: real -> real, a: real, b: real, l: real, s: seq<Point>)
    requires WellPosed(f, a, b, l) && Sawtooth(f, l, a, b, s)
    ensures ArgMinY(s) % 2 == 1 && 0 < ArgMinY(s) < |s| - 1 && !IsFirstMinimum(s, |s| - 1)
    ensures (ArgMinY(s) + 1) % 2 == 0
    ensures FloorOf(f, a, b, s[ArgMinY(s)].y)
  {
    FirstMinimumIsApex(f, l, a, b, s);
    OddNext(ArgMinY(s));
    InteriorMinimum(s);
    LowestBoundsF(f, a, b, l, s);
  }

  /** A first minimum before the last position leaves the last position out
      of the first-minimum test. */
  lemma InteriorMinimum(s: seq<Point>)
    requires |s| > 0 && ArgMinY(s) < |s| - 1
    ensures !IsFirstMinimum(s, |s| - 1)
  {
    if IsFirstMinimum(s, |s| - 1) {
      FirstMinimumUnique(s, |s| - 1);
    }
  }

  /** The position after an odd one is even. */
  lemma OddNext(i: int)
    requires i % 2 == 1
    ensures (i + 1) % 2 == 0
  {
  }

  /** The y of the lowest point of a sawtooth bounds an l-Lipschitz f from
      below on [a, b]. */
  lemma LowestBoundsF(f: real -> real, a: real, b: real, l: real, s: seq<Point>)
    requires WellPosed(f, a, b, l) && Sawtooth(f, l, a, b, s)
    ensures FloorOf(f, a, b, s[ArgMinY(s)].y)
  {
    StrictlyLipschitzIsLipschitz(f, l, a, b);
    forall x | a <= x <= b
      ensures s[ArgMinY(s)].y <= f(x)
    {
      var k := EnvelopeBelow(f, l, a, b, s, x);
    }
  }

  /** One round on a well-posed problem: refining the lowest point of a
      sawtooth, which is an interior apex, yields a sawtooth. */
  lemma RoundIsSound(f: real -> real, a: real, b: real, l: real, s: seq<Point>)
    requires WellPosed(f, a, b, l) && Sawtooth(f, l, a, b, s)
    ensures ArgMinY(s) % 2 == 1 && 0 < ArgMinY(s) < |s| - 1 && !IsFirstMinimum(s, |s| - 1)
    ensures Sawtooth(f, l, a, b, Refined(f, l, s, ArgMinY(s)))
  {
    RefineKeepsSawtooth(f, l, a, b, s);
  }

  /** After the loop: once an evaluation at an even position is within
      `epsilon` of a lower bound of f, the best evaluation and the extracted
      intervals meet the guarantees. */
  lemma {:induction false} ResultIsSound(f: real -> real, a: real, b: real, l: real, epsilon: real, delta: real,
                                         s: seq<Point>, floor: real, pos: nat)
    requires WellPosed(f, a, b, l) && Sawtooth(f, l, a, b, s)
    requires pos < |s| && pos % 2 == 0 && s[pos].y <= floor + epsilon && FloorOf(f, a, b, floor)
    ensures Guarantees(f, a, b, epsilon, s[BestEvaluation(s)],
                       IntervalsUpTo(s, s[BestEvaluation(s)].y, a, b, l, delta, |s|))
  {
    var k := BestEvaluation(s);
    StrictlyLipschitzIsLipschitz(f, l, a, b);
    EvensWithin(f, l, a, b, s, k);
    forall x | a <= x <= b && f(x) < s[k].y
      ensures Covered(IntervalsUpTo(s, s[k].y, a, b, l, delta, |s|), x)
    {
      NothingBetterOutside(f, l, a, b, delta, s, x);
    }
  }

  datatype Option<T> = None | Some(value: T)

  /** The gap the loop body measures on `s`: the true value at the first
      minimum's x minus the minimum's predicted y. */
  function RoundGap(f: real -> real, s: seq<Point>): real
    requires |s| > 0
  {
    f(s[ArgMinY(s)].x) - s[ArgMinY(s)].y
  }

  /** The sample list after `n` passes of the loop body, starting from `seed`;
      `None` once a pass hits the IndexError of `sample_points[i + 1]`. */
  function Rounds(f: real -> real, l: real, seed: seq<Point>, n: nat): (r: Option<seq<Point>>)
    requires l != 0.0 && |seed| > 0
    ensures r.Some? ==> |r.value| == |seed| + 2 * n
    decreases n, 0
  {
    if n == 0 then Some(seed) else Pass(f, l, seed, n - 1)
  }

  /** What pass `k + 1` builds from the list after `k` passes: the list with
      its first minimum refined, or `None` when that minimum is the last
      position or an earlier pass already failed. */
  function Pass(f: real -> real, l: real, seed: seq<Point>, k: nat): (r: Option<seq<Point>>)
    requires l != 0.0 && |seed| > 0
    ensures r.Some? ==> |r.value| == |seed| + 2 * (k + 1)
    decreases k, 1
  {
    match Rounds(f, l, seed, k)
    case None => None
    case Some(s) =>
      if ArgMinY(s) == |s| - 1 then None else Some(Refined(f, l, s, ArgMinY(s)))
  }

  /** A pass that refines the first minimum `i` of the list after `n` passes
      builds the list after `n + 1` passes, and the gap it measures at `i` is
      that list's `RoundGap`. */
  lemma RoundsNext(f: real -> real, l: real, seed: seq<Point>, n: nat, s: seq<Point>, i: nat, t: seq<Point>, next: nat)
    requires l != 0.0 && |seed| > 0 && Rounds(f, l, seed, n) == Some(s) && next == n + 1
    requires IsFirstMinimum(s, i) && i < |s| - 1 && t == Refined(f, l, s, i)
    ensures Rounds(f, l, seed, next) == Some(t)
    ensures RoundGap(f, s) == f(s[i].x) - s[i].y
  {
    FirstMinimumUnique(s, i);
  }

  /** The list after `n >= 1` passes refines the first minimum of the list
      after `n - 1` passes, which is not its last position. */
  lemma RoundsPrevious(f: real -> real, l: real, seed: seq<Point>, n: nat)
    requires l != 0.0 && |seed| > 0 && n >= 1 && Rounds(f, l, seed, n).Some?
    ensures Rounds(f, l, seed, n - 1).Some?
    ensures var p := Rounds(f, l, seed, n - 1).value;
            ArgMinY(p) < |p| - 1 && Rounds(f, l, seed, n).value == Refined(f, l, p, ArgMinY(p))
  {
  }

  /** Pass `k + 1` of the loop body ran and the stopping rule
      `delta_value > epsilon` let the loop go on after it. */
  ghost predicate WentOn(f: real -> real, l: real, seed: seq<Point>, epsilon: real, k: nat)
    requires l != 0.0 && |seed| > 0
  {
    Rounds(f, l, seed, k).Some? && RoundGap(f, Rounds(f, l, seed, k).value) > epsilon
  }

  /** The stopping rule let each of the first `n` passes through. */
  ghost predicate KeptGoing(f: real -> real, l: real, seed: seq<Point>, epsilon: real, n: nat)
    requires l != 0.0 && |seed| > 0
  {
    forall k: nat :: k < n ==> WentOn(f, l, seed, epsilon, k)
  }

  /** After `n` passes from `seed` the loop is still running on `s`: `s` is the
      list after `n` passes, and the stopping rule let every one of them through. */
  ghost predicate Running(f: real -> real, l: real, seed: seq<Point>, epsilon: real, n: nat, s: seq<Point>)
    requires l != 0.0 && |seed| > 0
  {
    Rounds(f, l, seed, n) == Some(s) && KeptGoing(f, l, seed, epsilon, n)
  }

  /** The loop stopped after pass `n` on `s`: the first `n - 1` passes had a
      gap above `epsilon`, and pass `n` measured `gap <= epsilon`. */
  ghost predicate StoppedAt(f: real -> real, l: real, seed: seq<Point>, epsilon: real, n: nat, s: seq<Point>, gap: real)
    requires l != 0.0 && |seed| > 0
  {
    n >= 1 && Rounds(f, l, seed, n) == Some(s) &&
    KeptGoing(f, l, seed, epsilon, n - 1) &&
    Rounds(f, l, seed, n - 1).Some? && gap == RoundGap(f, Rounds(f, l, seed, n - 1).value) && gap <= epsilon
  }

  /** A pass of a running loop that builds `t` and measures `gap` keeps the
      loop running or stops it, as that gap is above `epsilon` or not. */
  lemma RunningStep(f: real -> real, l: real, seed: seq<Point>, epsilon: real,
                    n: nat, s: seq<Point>, gap: real, next: nat, t: seq<Point>)
    requires l != 0.0 && |seed| > 0 && Running(f, l, seed, epsilon, n, s)
    requires next == n + 1 && Rounds(f, l, seed, next) == Some(t) && gap == RoundGap(f, s)
    ensures gap > epsilon ==> Running(f, l, seed, epsilon, next, t)
    ensures gap <= epsilon ==> StoppedAt(f, l, seed, epsilon, next, t, gap)
  {
    assert Rounds(f, l, seed, next - 1) == Some(s);
    if gap > epsilon {
      KeptGoingOnce(f, l, seed, epsilon, n);
    }
  }

  /** A loop that kept going for `n` passes and went on after pass `n + 1`
      kept going for `n + 1` passes. */
  lemma KeptGoingOnce(f: real -> real, l: real, seed: seq<Point>, epsilon: real, n: nat)
    requires l != 0.0 && |seed| > 0
    requires KeptGoing(f, l, seed, epsilon, n) && WentOn(f, l, seed, epsilon, n)
    ensures KeptGoing(f, l, seed, epsilon, n + 1)
  {
  }

  /** The loop stops at one pass only: a run that stopped after pass `n` was
      still running after every earlier pass, and it cannot stop twice. */
  lemma StoppedAtIsFirst(f: real -> real, l: real, seed: seq<Point>, epsilon: real,
                         n: nat, s: seq<Point>, gap: real, m: nat, t: seq<Point>)
    requires l != 0.0 && |seed| > 0 && StoppedAt(f, l, seed, epsilon, n, s, gap)
    ensures Running(f, l, seed, epsilon, m, t) ==> m < n
    ensures forall h :: StoppedAt(f, l, seed, epsilon, m, t, h) ==> m == n && t == s && h == gap
  {
    if Running(f, l, seed, epsilon, m, t) && m >= n {
      WentOnBefore(f, l, seed, epsilon, m, n - 1);
      assert false;
    }
    forall h | StoppedAt(f, l, seed, epsilon, m, t, h)
      ensures m == n && t == s && h == gap
    {
      if m < n {
        WentOnBefore(f, l, seed, epsilon, n - 1, m - 1);
        assert false;
      } else if n < m {
        WentOnBefore(f, l, seed, epsilon, m - 1, n - 1);
        assert false;
      }
    }
  }

  /** Each pass before a run that kept going went on. */
  lemma WentOnBefore(f: real -> real, l: real, seed: seq<Point>, epsilon: real, n: nat, k: nat)
    requires l != 0.0 && |seed| > 0 && KeptGoing(f, l, seed, epsilon, n) && k < n
    ensures WentOn(f, l, seed, epsilon, k)
  {
  }

  /** On a well-posed problem a pass from a sawtooth succeeds and yields a
      sawtooth. */
  lemma PassKeepsSawtooth(f: real -> real, a: real, b: real, l: real, seed: seq<Point>,
                          n: nat, s: seq<Point>, next: nat)
    requires WellPosed(f, a, b, l) && |seed| > 0 && Rounds(f, l, seed, n) == Some(s)
    requires Sawtooth(f, l, a, b, s) && next == n + 1
    ensures Rounds(f, l, seed, next).Some? && Sawtooth(f, l, a, b, Rounds(f, l, seed, next).value)
  {
    var i := ArgMinY(s);
    assert i < |s| - 1 && Sawtooth(f, l, a, b, Refined(f, l, s, i)) by {
      RoundIsSound(f, a, b, l, s);
    }
    RoundsNext(f, l, seed, n, s, i, Refined(f, l, s, i), next);
  }

  /** On a well-posed problem every pass from a sawtooth succeeds and keeps the
      shape: the list after any number of passes exists and is a sawtooth. */
  lemma {:induction false} RoundsStaySawtooth(f: real -> real, a: real, b: real, l: real, seed: seq<Point>, n: nat)
    requires WellPosed(f, a, b, l) && Sawtooth(f, l, a, b, seed)
    ensures Rounds(f, l, seed, n).Some? && Sawtooth(f, l, a, b, Rounds(f, l, seed, n).value)
  {
    if n > 0 {
      RoundsStaySawtooth(f, a, b, l, seed, n - 1);
      PassKeepsSawtooth(f, a, b, l, seed, n - 1, Rounds(f, l, seed, n - 1).value, n);
    }
  }

  /** A run still going on a well-posed problem holds a sawtooth whose last
      position is not the first minimum, so its next pass raises no IndexError. */
  lemma RunningIsSound(f: real -> real, a: real, b: real, l: real, epsilon: real, n: nat, s: seq<Point>)
    requires WellPosed(f, a, b, l) && Running(f, l, InitialSamples(f, a, b, l), epsilon, n, s)
    ensures Sawtooth(f, l, a, b, s) && !IsFirstMinimum(s, |s| - 1)
  {
    InitialIsSawtooth(f, a, b, l);
    RoundsStaySawtooth(f, a, b, l, InitialSamples(f, a, b, l), n);
    LowestIsFloor(f, a, b, l, s);
  }

  /** A run that stopped on a well-posed problem meets the guarantees. */
  lemma StoppedIsSound(f: real -> real, a: real, b: real, l: real, epsilon: real, delta: real,
                       n: nat, s: seq<Point>, gap: real)
    requires WellPosed(f, a, b, l) && StoppedAt(f, l, InitialSamples(f, a, b, l), epsilon, n, s, gap)
    ensures Sawtooth(f, l, a, b, s)
    ensures Guarantees(f, a, b, epsilon, s[BestEvaluation(s)],
                       IntervalsUpTo(s, s[BestEvaluation(s)].y, a, b, l, delta, |s|))
  {
    InitialIsSawtooth(f, a, b, l);
    var seed := InitialSamples(f, a, b, l);
    LastPassIsSound(f, a, b, l, seed, epsilon, delta, n - 1, Rounds(f, l, seed, n - 1).value, s);
  }

  /** The pass that stops the loop: from the sawtooth `p` after `m` passes it
      evaluated f at the lowest point, which bounds f from below, found it
      within `epsilon` of that bound, and built the sawtooth `s`; so `s` meets
      the guarantees. */
  lemma LastPassIsSound(f: real -> real, a: real, b: real, l: real, seed: seq<Point>,
                        epsilon: real, delta: real, m: nat, p: seq<Point>, s: seq<Point>)
    requires WellPosed(f, a, b, l) && Sawtooth(f, l, a, b, seed)
    requires Rounds(f, l, seed, m) == Some(p) && Rounds(f, l, seed, m + 1) == Some(s) && RoundGap(f, p) <= epsilon
    ensures Sawtooth(f, l, a, b, s)
    ensures Guarantees(f, a, b, epsilon, s[BestEvaluation(s)],
                       IntervalsUpTo(s, s[BestEvaluation(s)].y, a, b, l, delta, |s|))
  {
    StoppingPass(f, a, b, l, seed, epsilon, m, p, s);
    RoundsFloor(f, a, b, l, seed, m);
    ResultIsSound(f, a, b, l, epsilon, delta, s, p[ArgMinY(p)].y, ArgMinY(p) + 1);
  }

  /** The stopping pass from the list `p` after `m` passes builds a sawtooth
      `s` holding, next to the old first minimum, an evaluation within
      `epsilon` of that minimum's y. */
  lemma StoppingPass(f: real -> real, a: real, b: real, l: real, seed: seq<Point>,
                     epsilon: real, m: nat, p: seq<Point>, s: seq<Point>)
    requires WellPosed(f, a, b, l) && Sawtooth(f, l, a, b, seed)
    requires Rounds(f, l, seed, m) == Some(p) && Rounds(f, l, seed, m + 1) == Some(s) && RoundGap(f, p) <= epsilon
    ensures Sawtooth(f, l, a, b, s)
    ensures ArgMinY(p) + 1 < |s| && s[ArgMinY(p) + 1].y <= p[ArgMinY(p)].y + epsilon
  {
    RoundsStaySawtooth(f, a, b, l, seed, m + 1);
    StoppingEvaluation(f, l, seed, m, p, s, epsilon);
  }

  /** On a well-posed problem the lowest point of the list after any number
      of passes from a sawtooth is at an odd position, and its y bounds f
      from below. */
  lemma RoundsFloor(f: real -> real, a: real, b: real, l: real, seed: seq<Point>, m: nat)
    requires WellPosed(f, a, b, l) && Sawtooth(f, l, a, b, seed)
    ensures Rounds(f, l, seed, m).Some?
    ensures var p := Rounds(f, l, seed, m).value;
            (ArgMinY(p) + 1) % 2 == 0 && FloorOf(f, a, b, p[ArgMinY(p)].y)
  {
    RoundsStaySawtooth(f, a, b, l, seed, m);
    LowestIsFloor(f, a, b, l, Rounds(f, l, seed, m).value);
  }

  /** The evaluation the stopping pass inserts next to the first minimum is
      the true value there, so a gap within `epsilon` puts it within `epsilon`
      of the minimum's y. */
  lemma StoppingEvaluation(f: real -> real, l: real, seed: seq<Point>, m: nat, p: seq<Point>, s: seq<Point>, epsilon: real)
    requires l != 0.0 && |seed| > 0
    requires Rounds(f, l, seed, m) == Some(p) && Rounds(f, l, seed, m + 1) == Some(s) && RoundGap(f, p) <= epsilon
    ensures ArgMinY(p) + 1 < |s| && s[ArgMinY(p) + 1] == Point(p[ArgMinY(p)].x, f(p[ArgMinY(p)].x))
    ensures s[ArgMinY(p) + 1].y <= p[ArgMinY(p)].y + epsilon
  {
    RoundsPrevious(f, l, seed, m + 1);
  }

  /** Why the refinement loop stopped: the gap closed to `epsilon`,
      `sample_points[i + 1]` raised IndexError, or the round budget ran out. */
  datatype Stop = Close | LastIsLowest | OutOfRounds

  /** A pass that refines the first minimum `i` of a running loop's list and
      measures the gap there keeps the loop running or stops it. */
  lemma PassStep(f: real -> real, l: real, seed: seq<Point>, epsilon: real,
                 n: nat, s: seq<Point>, i: nat, t: seq<Point>, gap: real)
    requires l != 0.0 && |seed| > 0 && Running(f, l, seed, epsilon, n, s)
    requires IsFirstMinimum(s, i) && i < |s| - 1 && t == Refined(f, l, s, i) && gap == f(s[i].x) - s[i].y
    ensures gap > epsilon ==> Running(f, l, seed, epsilon, n + 1, t)
    ensures gap <= epsilon ==> StoppedAt(f, l, seed, epsilon, n + 1, t, gap)
  {
    FirstMinimumUnique(s, i);
    RoundsNext(f, l, seed, n, s, i, t, n + 1);
    RunningStep(f, l, seed, epsilon, n, s, gap, n + 1, t);
  }

  /** One pass of the loop body on a running loop's list after `n` passes:
      it raises IndexError at `sample_points[i + 1]` exactly when the first
      minimum is the last position; otherwise the gap it measures keeps the
      loop running or stops it after pass `n + 1`. */
  method NextPass(f: real -> real, l: real, seed: seq<Point>, epsilon: real, n: nat, s: seq<Point>)
    returns (step: RoundResult)
    requires l != 0.0 && |seed| > 0 && Running(f, l, seed, epsilon, n, s)
    ensures step.IndexOutOfRange? <==> IsFirstMinimum(s, |s| - 1)
    ensures step.Refinement? && step.gap > epsilon ==> Running(f, l, seed, epsilon, n + 1, step.samples)
    ensures step.Refinement? && step.gap <= epsilon ==> StoppedAt(f, l, seed, epsilon, n + 1, step.samples, step.gap)
  {
    step := RefineRound(f, l, s);
    if step.Refinement? {
      PassStep(f, l, seed, epsilon, n, s, step.index, step.samples, step.gap);
    }
  }

  /** The `while delta_value > epsilon` loop of `shubert_piyavskii`, run from
      the list `seed` for at most `maxRounds` passes. */
  method RefineUntilClose(f: real -> real, l: real, seed: seq<Point>, epsilon: real, maxRounds: nat)
    returns (stop: Stop, s: seq<Point>, rounds: nat, gap: real)
    requires l != 0.0 && |seed| > 0
    ensures rounds <= maxRounds
    ensures stop.Close? ==> StoppedAt(f, l, seed, epsilon, rounds, s, gap)
    ensures !stop.Close? ==> Running(f, l, seed, epsilon, rounds, s)
    ensures stop.LastIsLowest? ==> rounds < maxRounds && IsFirstMinimum(s, |s| - 1)
    ensures stop.OutOfRounds? ==> rounds == maxRounds
  {
    s, rounds, gap := seed, 0, 0.0;
    assert Running(f, l, seed, epsilon, 0, s);
    var converged := false;
    while !converged
      invariant rounds <= maxRounds
      invariant converged ==> StoppedAt(f, l, seed, epsilon, rounds, s, gap)
      invariant !converged ==> Running(f, l, seed, epsilon, rounds, s)
      decreases maxRounds - rounds
    {
      if rounds == maxRounds {
        return OutOfRounds, s, rounds, gap;
      }
      var step := NextPass(f, l, seed, epsilon, rounds, s);
      if step.IndexOutOfRange? {
        return LastIsLowest, s, rounds, gap;
      }
      s, gap := step.samples, step.gap;
      rounds := rounds + 1;
      converged := gap <= epsilon;
    }
    stop := Close;
  }

  /** `shubert_piyavskii(f, a, b, l, epsilon, delta=0.001)`, run for at most
      `maxRounds` rounds of its refinement loop. */
  method ShubertPiyavskii(maxRounds: nat, f: real -> real, a: real, b: real, l: real, epsilon: real, delta: real := 0.001)
    returns (r: Outcome)
    ensures r.DivisionByZero? <==> l == 0.0
    ensures r.Converged? ==>
              1 <= r.rounds <= maxRounds && |r.samples| == 5 + 2 * r.rounds && r.gap <= epsilon &&
              r.best == r.samples[BestEvaluation(r.samples)] &&
              r.intervals == IntervalsUpTo(r.samples, r.best.y, a, b, l, delta, |r.samples|)
    ensures r.Converged? ==> StoppedAt(f, l, InitialSamples(f, a, b, l), epsilon, r.rounds, r.samples, r.gap)
    ensures r.IndexError? ==>
              r.rounds < maxRounds && Running(f, l, InitialSamples(f, a, b, l), epsilon, r.rounds, r.samples) &&
              IsFirstMinimum(r.samples, |r.samples| - 1)
    ensures r.RoundsExhausted? ==> r.rounds == maxRounds && Running(f, l, InitialSamples(f, a, b, l), epsilon, maxRounds, r.samples)
    ensures WellPosed(f, a, b, l) ==> r.Converged? || r.RoundsExhausted?
    ensures WellPosed(f, a, b, l) && r.RoundsExhausted? ==> Sawtooth(f, l, a, b, r.samples)
    ensures WellPosed(f, a, b, l) && r.Converged? ==>
              Sawtooth(f, l, a, b, r.samples) && Guarantees(f, a, b, epsilon, r.best, r.intervals)
  {
    if l == 0.0 {
      return DivisionByZero;
    }
    var stop, s, rounds, gap := RefineUntilClose(f, l, InitialSamples(f, a, b, l), epsilon, maxRounds);
    match stop
    case OutOfRounds =>
      if WellPosed(f, a, b, l) {
        RunningIsSound(f, a, b, l, epsilon, rounds, s);
      }
      return RoundsExhausted(s, rounds);
    case LastIsLowest =>
      if WellPosed(f, a, b, l) {
        RunningIsSound(f, a, b, l, epsilon, rounds, s);
        assert false;
      }
      return IndexError(s, rounds);
    case Close =>
      var best, intervals := ExtractIntervals(s, a, b, l, delta);
      BestEvaluationUnique(s, best);
      if WellPosed(f, a, b, l) {
        StoppedIsSound(f, a, b, l, epsilon, delta, rounds, s, gap);
      }
      return Converged(s[best], intervals, s, rounds, gap);
  }
}
