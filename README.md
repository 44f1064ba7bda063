# Shubert–Piyavskii global minimiser, modelled in Dafny

The program finds the global minimum of a one-dimensional objective `f` on an
interval `[a, b]`, given a bound `l` on the slope of `f`.

It keeps a list of sample points, called here the *sawtooth*:
- The even positions hold true evaluations `(x, f(x))`.
- Each odd position holds the *apex* where the line of slope `-l` falling from
  the left evaluation meets the line of slope `+l` rising to the right one.

The algorithm has two phases:
1. **Refinement.** Each round picks the lowest point of the list and evaluates
   `f` at its x. It then splices three points in its place: the new evaluation
   and the two new apexes beside it. The loop stops once the true value at the
   refined x is within `epsilon` of the point's predicted value.
2. **Extraction.** After the loop, the program returns the best true
   evaluation. It also returns the merged x-ranges, clipped to `[a, b]`, where
   the slope bound still allows a lower value.

All arithmetic is over `real`. The objective `f` is a parameter of type
`real -> real`.

Files, one module each:
- `geometry.dfy` (`Geometry`): `Point`, the apex `Intersect`, the Lipschitz
  predicates, and the V-shaped lower bound an apex gives.
- `envelope.dfy` (`Envelope`): the sample list. It has the five-point seed,
  the first-minimum choice `ArgMinY` and the spec function `Refined`. The
  method `RefineRound` performs one round with `del` and three `insert`s, as
  `shubert_piyavskii` does. The invariant `Sawtooth` is the list's shape.
- `intervals.dfy` (`Intervals`): the choice of the best evaluation, the clipped
  cone of an apex, the merge rule `Absorb`, and the spec function
  `IntervalsUpTo`. The methods `ExtractIntervals` and `ScanApexes` hold the
  scanning loop. The lemmas give the intervals' shape and the coverage
  guarantee.
- `minimiser.dfy` (`Minimiser`): the whole function. `RefineUntilClose` is the
  refinement loop and `ShubertPiyavskii` is the entry point, which returns an
  `Outcome`.

Behaviour of the code that the model keeps:
- **`l == 0`.** The code divides by zero in the first apex computation. The
  model returns `DivisionByZero`.
- **Lowest point at the last position.** `sample_points[i + 1]` raises IndexError. The
  model returns `IndexError` with the list as it stood.
- **Lowest point at position 0.** `sample_points[i - 1]` reads the last element, as
  Python's negative indexing does (`PyAt`). `FirstRoundCanWrap` shows that this
  happens for an objective whose slope equals the bound: with `f(x) = x` and
  `l = 1`, the first apex coincides with the point at `a`. The round then
  builds its left apex from the point at `b`, and the list stops being a
  sawtooth.
- **Where the shape and the guarantees hold.** For this reason they are proved
  for objectives whose slope stays *strictly* below `l` (`WellPosed`). Under
  that condition, neither the wrap nor the IndexError can happen.
- **No input validation.** The code does not reject `a >= b` or `l <= 0`, and
  neither does the model. Those inputs simply fall outside `WellPosed`.
- **Python's `max` and `min`.** `Max` and `Min` follow them exactly: the first
  argument wins ties.
- **`delta=0.001`.** `ShubertPiyavskii` keeps Python's default for `delta`.
  The model's round budget `maxRounds` is its first parameter, so the
  default can stay last.
- **Python's `//` and `%`.** These do not occur in the modelled code.

## Model

| member | source | states |
|---|---|---|
| Geometry.Intersect | shubert_piyavskii_method/shubert_piyavskii_method/main.py:11-13 | for l ≠ 0 the apex lies on the line of slope -l through A and on the line of slope +l through B |
| Geometry.IntersectUnique | shubert_piyavskii_method/shubert_piyavskii_method/main.py:11-13 | any point on both lines is the apex, so the apex is determined by the two lines |
| Geometry.ApexInChord | shubert_piyavskii_method/shubert_piyavskii_method/main.py:11-13 | if l > 0, A.x ≤ B.x and the rise between A and B is within l times the width, the apex x is in [A.x, B.x] and its y is at most both A.y and B.y |
| Geometry.ApexStrictlyInside | shubert_piyavskii_method/shubert_piyavskii_method/main.py:11-13 | with the rise strictly within the bound, the apex is strictly inside the chord and strictly below both ends |
| Geometry.RaisedApexes | shubert_piyavskii_method/shubert_piyavskii_method/main.py:38-41 | replacing an apex by a higher point at its x, within the slope bound of both ends, gives two new apexes no lower than the old one |
| Geometry.BelowLipschitz | shubert_piyavskii_method/shubert_piyavskii_method/main.py:11-13 | between two true evaluations of an l-Lipschitz f, f(x) is at least the apex y plus l times the distance from the apex x |
| Geometry.ConeWithinChord | shubert_piyavskii_method/shubert_piyavskii_method/main.py:59-65 | when both ends are at least bestY and the apex is below it, the cone of half-width (bestY - apex.y)/l is non-empty and lies inside the chord |
| Geometry.InsideCone | shubert_piyavskii_method/shubert_piyavskii_method/main.py:59-65 | a point whose V-shaped bound stays below bestY lies strictly within (bestY - apex.y)/l of the apex |
| Envelope.ArgMinY | shubert_piyavskii_method/shubert_piyavskii_method/main.py:30 | the result is a valid index whose y is at most every y and strictly below the y of every earlier index |
| Envelope.FirstMinimumUnique | shubert_piyavskii_method/shubert_piyavskii_method/main.py:30 | the first minimum is unique: any index with that property is the one `ArgMinY` returns |
| Envelope.InitialSamples | shubert_piyavskii_method/shubert_piyavskii_method/main.py:17-23 | the seed has length 5: evaluations at a, (a+b)/2 and b, with the apex of each neighbouring pair between them |
| Envelope.InitialIsSawtooth | shubert_piyavskii_method/shubert_piyavskii_method/main.py:17-23 | for a < b and l > 0 the seed is a sawtooth spanning [a, b] |
| Envelope.Refined | shubert_piyavskii_method/shubert_piyavskii_method/main.py:33-46 | the list grows by 2; the prefix before i is unchanged; the suffix after i is unchanged but shifted by 2; position i becomes [apex(s[i-1], P), P, apex(P, s[i+1])] with P = (s[i].x, f(s[i].x)) and s[-1] read Python-style |
| Envelope.RefineRound | shubert_piyavskii_method/shubert_piyavskii_method/main.py:30-46 | the del and three inserts yield `Refined(s, i)` for i the first minimum, with gap P.y - s[i].y; the round raises IndexError exactly when the last position is the first minimum |
| Envelope.DelInsert | shubert_piyavskii_method/shubert_piyavskii_method/main.py:43-46 | deleting position i and then inserting P_next, P and P_prev at i, in that order, leaves s[..i] + [P_prev, P, P_next] + s[i+1..] |
| Envelope.EvaluationAboveApex | shubert_piyavskii_method/shubert_piyavskii_method/main.py:30-41 | for strictly l-Lipschitz f, every evaluation of a sawtooth has a strictly lower apex beside it, so the first minimum is never an evaluation |
| Envelope.EvensOrdered | shubert_piyavskii_method/shubert_piyavskii_method/main.py:43-46 | in an alternating list the evaluations' x are strictly increasing |
| Envelope.EvensWithin | shubert_piyavskii_method/shubert_piyavskii_method/main.py:43-46 | every evaluation of a sawtooth lies in [a, b] |
| Envelope.ApexBetween | shubert_piyavskii_method/shubert_piyavskii_method/main.py:38-41 | for l-Lipschitz f, each apex of a sawtooth lies over its chord, no higher than either neighbour |
| Envelope.ApexStrictlyBetween | shubert_piyavskii_method/shubert_piyavskii_method/main.py:38-41 | for strictly l-Lipschitz f, each apex lies strictly inside its chord, strictly below either neighbour |
| Envelope.FirstMinimumIsApex | shubert_piyavskii_method/shubert_piyavskii_method/main.py:30-41 | for strictly l-Lipschitz f, the first minimum of a sawtooth is at an odd interior position, so `s[i-1]` does not wrap and `s[i+1]` does not raise |
| Envelope.RefinedApexes | shubert_piyavskii_method/shubert_piyavskii_method/main.py:38-46 | refining an odd position keeps every odd position the apex of its neighbours |
| Envelope.RefinedOrdered | shubert_piyavskii_method/shubert_piyavskii_method/main.py:43-46 | refining an odd position strictly inside its chord keeps the evaluations' x strictly increasing |
| Envelope.RefinedEvaluations | shubert_piyavskii_method/shubert_piyavskii_method/main.py:33-46 | refining an odd position keeps the ends at a and b and every even position a true evaluation |
| Envelope.RefinedAlternating | shubert_piyavskii_method/shubert_piyavskii_method/main.py:38-46 | refining an odd position strictly inside its chord keeps the list alternating: odd length, apexes at odd positions, increasing evaluations |
| Envelope.RefineKeepsSawtooth | shubert_piyavskii_method/shubert_piyavskii_method/main.py:27-46 | for strictly l-Lipschitz f, the refined first minimum is odd and interior, and the refined list is again a sawtooth |
| Envelope.GapNonNegative | shubert_piyavskii_method/shubert_piyavskii_method/main.py:33-35 | for l-Lipschitz f the gap measured at an apex of a sawtooth is never negative |
| Envelope.NewPointsAboveApex | shubert_piyavskii_method/shubert_piyavskii_method/main.py:33-41 | the three inserted points are no lower than the apex they replace |
| Envelope.RefineRaisesFloor | shubert_piyavskii_method/shubert_piyavskii_method/main.py:27-46 | for strictly l-Lipschitz f, a round never lowers the lowest point of the list: the predicted minimum rises from round to round |
| Envelope.EnvelopeBelow | shubert_piyavskii_method/shubert_piyavskii_method/main.py:27-30 | for l-Lipschitz f, f(x) at every x of [a, b] is at least the V-shaped bound of the apex over x, and at least the lowest y of the list |
| Envelope.FirstRoundCanWrap | shubert_piyavskii_method/shubert_piyavskii_method/main.py:38 | for f(x) = x and l = 1 (an l-Lipschitz objective), the first minimum of the seed is position 0, the refined list starts with the point at b, and it is not a sawtooth |
| Envelope.PyAt | shubert_piyavskii_method/shubert_piyavskii_method/main.py:38 | `sample_points[i - 1]` with Python indexing: a non-negative index reads that position, and -1 reads the last one |
| Intervals.Max | shubert_piyavskii_method/shubert_piyavskii_method/main.py:63 | Python's `max` of two reals: at least both arguments and equal to one of them |
| Intervals.Min | shubert_piyavskii_method/shubert_piyavskii_method/main.py:66 | Python's `min` of two reals: at most both arguments and equal to one of them |
| Intervals.EvenPoints | shubert_piyavskii_method/shubert_piyavskii_method/main.py:51 | the slice `sample_points[0:len:2]` has ⌈n/2⌉ points, and its k-th point is position 2k of the list |
| Intervals.BestEvaluation | shubert_piyavskii_method/shubert_piyavskii_method/main.py:51-52 | the index is even, its y is at most the y of every even position, and it is strictly below that of every earlier even position |
| Intervals.BestEvaluationUnique | shubert_piyavskii_method/shubert_piyavskii_method/main.py:51-52 | only one index has those properties |
| Intervals.Cone | shubert_piyavskii_method/shubert_piyavskii_method/main.py:59-65 | the clipped cone satisfies a ≤ x_lo and x_hi ≤ b |
| Intervals.AbsorbCases | shubert_piyavskii_method/shubert_piyavskii_method/main.py:68-73 | a new interval is appended exactly when the list is empty or last.hi + delta < x_lo; otherwise the last interval becomes (last.lo, x_hi); earlier intervals are kept |
| Intervals.ExtractIntervals | shubert_piyavskii_method/shubert_piyavskii_method/main.py:48-76 | returns the best evaluation's index and the interval list of the scan over the whole sample list, which it leaves unchanged |
| Intervals.ScanApexes | shubert_piyavskii_method/shubert_piyavskii_method/main.py:54-74 | the while loop stepping j by 2 builds exactly the left fold `IntervalsUpTo` over the odd positions with y below bestY |
| Intervals.ScanStep | shubert_piyavskii_method/shubert_piyavskii_method/main.py:54-74 | over two positions ending at the odd j = 2m + 1, the even position contributes nothing, and j contributes its cone exactly when its y is below bestY |
| Intervals.IntervalsClipped | shubert_piyavskii_method/shubert_piyavskii_method/main.py:62-73 | every reported interval lies in [a, b] |
| Intervals.IntervalsCount | shubert_piyavskii_method/shubert_piyavskii_method/main.py:56-73 | there are no more intervals than qualifying apexes, and the list is empty exactly when no apex qualifies |
| Intervals.ConeOfApex | shubert_piyavskii_method/shubert_piyavskii_method/main.py:59-65 | the cone of a qualifying apex is non-empty, unclipped, and inside the apex's chord |
| Intervals.IntervalsShape | shubert_piyavskii_method/shubert_piyavskii_method/main.py:54-74 | over a sawtooth every interval is non-empty, consecutive intervals are more than delta apart, and the last ends by the evaluation after the last apex seen |
| Intervals.AbsorbShape | shubert_piyavskii_method/shubert_piyavskii_method/main.py:68-73 | absorbing a cone that starts after the list ends keeps the list separated, ending by the cone's chord |
| Intervals.AbsorbKeepsCovered | shubert_piyavskii_method/shubert_piyavskii_method/main.py:68-73 | a merge only stretches the last interval, so a covered x stays covered |
| Intervals.AbsorbCoversCone | shubert_piyavskii_method/shubert_piyavskii_method/main.py:68-73 | after absorbing a cone, every x of the cone is covered |
| Intervals.IntervalsCoverCones | shubert_piyavskii_method/shubert_piyavskii_method/main.py:54-74 | every x in the cone of any qualifying apex lies in some reported interval |
| Intervals.NothingBetterOutside | shubert_piyavskii_method/shubert_piyavskii_method/main.py:48-76 | for l-Lipschitz f and a sawtooth, every x of [a, b] with f(x) below the returned y lies in a returned interval |
| Minimiser.LowestIsFloor | shubert_piyavskii_method/shubert_piyavskii_method/main.py:27-41 | on a well-posed problem the first minimum of a sawtooth is at an odd interior position, the last position is not a first minimum, the next position is even, and its y bounds f from below on [a, b] |
| Minimiser.InteriorMinimum | shubert_piyavskii_method/shubert_piyavskii_method/main.py:30 | a first minimum before the last position means the last position is not a first minimum |
| Minimiser.LowestBoundsF | shubert_piyavskii_method/shubert_piyavskii_method/main.py:30 | on a well-posed problem the lowest y of a sawtooth is at most f(x) for every x in [a, b] |
| Minimiser.RoundIsSound | shubert_piyavskii_method/shubert_piyavskii_method/main.py:27-46 | on a well-posed problem the lowest point is an odd interior apex, so neither `sample_points[i - 1]` wraps nor `sample_points[i + 1]` raises, and the refined list is a sawtooth |
| Minimiser.ResultIsSound | shubert_piyavskii_method/shubert_piyavskii_method/main.py:48-76 | once an even position is within epsilon of a lower bound, the best evaluation is a true evaluation in [a, b], within epsilon of every f(x), and every better x is covered |
| Minimiser.Rounds | shubert_piyavskii_method/shubert_piyavskii_method/main.py:27-46 | the list after n passes of the loop body from the seed, when every pass got past `sample_points[i + 1]`, has 2n more points than the seed |
| Minimiser.RoundsNext | shubert_piyavskii_method/shubert_piyavskii_method/main.py:30-46 | refining the first minimum of the list after n passes builds the list after n + 1 passes, and the gap measured there is that list's gap |
| Minimiser.RoundsPrevious | shubert_piyavskii_method/shubert_piyavskii_method/main.py:30-46 | a list after n ≥ 1 passes is the refinement of the first minimum of the list after n - 1 passes, and that minimum was not the last position |
| Minimiser.RunningStep | shubert_piyavskii_method/shubert_piyavskii_method/main.py:27-35 | after a pass of a loop still running, a gap above epsilon keeps it running and a gap ≤ epsilon stops it at that pass |
| Minimiser.KeptGoingOnce | shubert_piyavskii_method/shubert_piyavskii_method/main.py:27 | a loop that let n passes through and lets pass n + 1 through has let n + 1 passes through |
| Minimiser.StoppedAtIsFirst | shubert_piyavskii_method/shubert_piyavskii_method/main.py:27-35 | the loop stops at the first pass whose gap is ≤ epsilon: it was running after every earlier pass, and no other pass, list or gap also stops it |
| Minimiser.WentOnBefore | shubert_piyavskii_method/shubert_piyavskii_method/main.py:27 | a loop that let n passes through let each earlier pass through |
| Minimiser.PassKeepsSawtooth | shubert_piyavskii_method/shubert_piyavskii_method/main.py:27-46 | on a well-posed problem a pass from a sawtooth succeeds and yields a sawtooth |
| Minimiser.RoundsStaySawtooth | shubert_piyavskii_method/shubert_piyavskii_method/main.py:27-46 | on a well-posed problem the list after any number of passes exists and is a sawtooth |
| Minimiser.RunningIsSound | shubert_piyavskii_method/shubert_piyavskii_method/main.py:27-46 | on a well-posed problem a running loop holds a sawtooth whose last position is not the first minimum, so the next pass raises no IndexError |
| Minimiser.StoppedIsSound | shubert_piyavskii_method/shubert_piyavskii_method/main.py:27-76 | on a well-posed problem a loop that stopped holds a sawtooth, and the returned point and intervals meet the guarantees |
| Minimiser.LastPassIsSound | shubert_piyavskii_method/shubert_piyavskii_method/main.py:33-76 | the pass that measured a gap ≤ epsilon from the list after m passes yields a sawtooth whose best evaluation and intervals meet the guarantees |
| Minimiser.StoppingPass | shubert_piyavskii_method/shubert_piyavskii_method/main.py:33-46 | the stopping pass yields a sawtooth holding, just after the old first minimum, an evaluation within epsilon of that minimum's y |
| Minimiser.RoundsFloor | shubert_piyavskii_method/shubert_piyavskii_method/main.py:27-41 | on a well-posed problem the first minimum of the list after any number of passes is followed by an even position, and its y bounds f from below |
| Minimiser.StoppingEvaluation | shubert_piyavskii_method/shubert_piyavskii_method/main.py:33-46 | the point inserted after the old first minimum is (x, f(x)) at that minimum's x, so a gap ≤ epsilon puts it within epsilon of the minimum's y |
| Minimiser.PassStep | shubert_piyavskii_method/shubert_piyavskii_method/main.py:27-46 | refining the first minimum of a running loop's list keeps the loop running when the gap is above epsilon, and stops it at pass n + 1 with that gap otherwise |
| Minimiser.NextPass | shubert_piyavskii_method/shubert_piyavskii_method/main.py:27-46 | one pass raises IndexError exactly when the last position is the first minimum; otherwise the loop after n + 1 passes is running (gap > epsilon) or stopped there (gap ≤ epsilon) |
| Minimiser.RefineUntilClose | shubert_piyavskii_method/shubert_piyavskii_method/main.py:25-46 | `Close`: the loop stopped at the first pass with a gap ≤ epsilon, every earlier pass had a gap above epsilon, and the list and gap are those of that pass; `LastIsLowest`: the list after `rounds` passes has its first minimum at the last position; `OutOfRounds`: `maxRounds` passes all had gaps above epsilon |
| Minimiser.ShubertPiyavskii | shubert_piyavskii_method/shubert_piyavskii_method/main.py:16-76 | l = 0 gives the division error; `Converged` holds the list and gap of the first pass with a gap ≤ epsilon, the best even point and the scan's intervals; `IndexError` and `RoundsExhausted` hold a loop still running; on a well-posed problem there is no error, and the best point is a true evaluation in [a, b] within epsilon of min f with every x where f is below it covered |

## Left out

- The demo script and the plot at the end of `main.py` (`test_function`, `np.linspace`, `print`, matplotlib) are not part of this model. They are I/O.
- `Armijo_Goldstien_method/main.py` is not part of this model. It is a separate line-search routine over numpy float arrays.
- Floating point is not modelled. Every quantity is a `real`, so rounding, overflow and NaN do not arise. The `float('inf')` sentinel of `delta_value` becomes a loop flag that forces the first round.
- Minimiser.RefineUntilClose: the `maxRounds` budget is a modelling device. `shubert_piyavskii` loops until the gap closes, with no cap. `RoundsExhausted` stands for a run that has not converged within the budget, and termination of the real loop is not proved.
- Minimiser.ShubertPiyavskii: its error outcomes stand for Python exceptions. `DivisionByZero` is raised at the first apex computation and `IndexError` at `sample_points[i + 1]`. Exceptions are not propagated as such.
- Minimiser.ShubertPiyavskii: the optimality and coverage guarantees are stated only for `WellPosed` inputs (a < b, l > 0, slope strictly below l). With a slope that reaches l, the wrap at position 0 can break the list's shape (`Envelope.FirstRoundCanWrap`).
- The objective `f` is a pure `real -> real` parameter. Side effects and exceptions inside `f` are not modelled.
- `list.index` in the best-evaluation line compares points by identity. Every point in the list is a distinct object, so this finds the position of the first minimum. The model uses that position directly.
- `Point` is a value here, while Python's `Point` objects are mutable. No point is mutated after creation.
- The in-place `del`/`insert` on the Python list is modelled on a `seq` value that `RefineRound` rebinds step by step. Aliasing of that list is not modelled. The list is local to the function.
- The tuple intervals `(x_lo, x_hi)` are the `Interval` datatype.
- `Absorb` and `IntervalsUpTo` are specification functions without contracts of their own. `Intervals.AbsorbCases`, `Intervals.ScanApexes`, `Intervals.IntervalsClipped`, `Intervals.IntervalsShape` and `Intervals.IntervalsCoverCones` state their properties.
