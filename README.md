# nlcor: adaptive-segmentation nonlinear correlation, in Dafny

This project models the Python core of nlcor (`python/nlcor/correlations.py`
and `python/nlcor/utilities.py`). nlcor estimates a nonlinear correlation
between `x` and `y` as follows:

1. Sort the points by `x`.
2. Cut the sorted positions `1..l` into windows of `floor(refine * l)` points.
3. Walk the windows left to right and greedily merge each one into the run
   being grown while the local Pearson correlation allows it.
4. Combine the per-run coefficients into one estimate in [0, 1] and one
   adjusted p-value. Runs that fail a Bonferroni-corrected threshold are
   nulled.
5. When no granularity is given, try the ladder 0.01 .. 0.15. Keep a
   candidate only when its rounded estimate beats the best so far (at
   first the absolute whole-sequence coefficient) and its rounded p-value
   is no worse.

Modules:

- `Intervals` (`intervals.dfy`): runs of consecutive positions and the
  predicate `Tiles`. `Tiles` states that a list of segments lays non-empty
  runs end to end over a range. Lemmas show that a tiling is ordered,
  disjoint, adjacent and covers the range exactly.
- `Utilities` (`utilities.dfy`):
  - `ValidateRefine` is a loop proved against the function `ValidRefine`.
  - `Segment` is a loop proved against the function `Windows`, which
    tiles `1..l`.
  - The NaN-safe `SegmentCorrelation`.
  - The class `SegmentsCor`, whose method `UpdateSegmentsCor` appends to
    its list of per-run statistics.
- `Correlations` (`correlations.dfy`):
  - The merge decision `MergeFlag`.
  - The greedy walk. The method `MergeWindows` is proved against the fold
    `GreedyFrom`.
  - The aggregator. The method `NetCor` nulls in place over arrays and is
    proved against the function `NetCorrelation`.
  - `NlcorGreedySearch`.
  - The granularity search. The method `Ladder` is proved against the
    fold `Select`, and `Nlcor` covers both entry paths.

How the model stands in for the parts it does not compute:

- **Pearson statistic.** `scipy.stats.pearsonr` is a parameter, the
  `Oracle`. It maps a list of sorted positions to `None` (coefficient
  undefined, NaN) or to a coefficient in [-1, 1] with a p-value in [0, 1].
- **Rounding.** Python's `round(v, 2)` is an arbitrary parameter `round2`.
- **Granularities.** These are whole hundredths, so `refine = 0.07` is `7`.
- **Data.** The data are taken as already sorted by `x` and indexed from 1.

The sorting, the data frame and the plotting are not modelled.

## Model

| member | source | states |
|---|---|---|
| Utilities.RaiseRefine | python/nlcor/utilities.py:54-55 | Raising by hundredths never lowers the granularity and stops at a window of more than MIN_SEGMENT_SIZE points. |
| Utilities.RaiseRefineLeast | python/nlcor/utilities.py:54-55 | The raising loop stops at the least granularity at or above the start whose window holds more than MIN_SEGMENT_SIZE points. Every granularity it passes over holds at most MIN_SEGMENT_SIZE. |
| Utilities.ValidRefineWindow | python/nlcor/utilities.py:49-56 | With more than MIN_SEGMENT_SIZE points, the validated window holds at least MIN_SEGMENT_SIZE points. A granularity of at most 1 stays at most 1, and its window then holds at most `l` points. |
| Utilities.ValidateRefine | python/nlcor/utilities.py:49-56 | A granularity whose window already holds MIN_SEGMENT_SIZE points is returned unchanged. Otherwise the result is strictly larger, its window holds more than MIN_SEGMENT_SIZE points, and no smaller raised granularity does. The result equals `ValidRefine`. |
| Utilities.WindowsPartition | python/nlcor/utilities.py:18-36 | The windows tile `1..l`: non-empty, consecutive, in order, disjoint, and covering every position once. |
| Utilities.WindowsShape | python/nlcor/utilities.py:18-36 | Every window but the last is the full window `i*w+1 .. (i+1)*w`. There are three cases. (1) An exact division gives `l // w` windows, the last also full. (2) A remainder of at most MIN_SEGMENT_SIZE points is merged into the last window, which then has `w + rem` points. (3) A longer remainder becomes a final window of `rem` points. Every window has at least MIN_SEGMENT_SIZE points when `w` does. |
| Utilities.Segment | python/nlcor/utilities.py:18-36 | The loop that lays down `l // w` full windows, followed by the remainder step, yields exactly `Windows`, whose shape WindowsShape gives. The result tiles `1..l`. |
| Utilities.SegmentAsWrittenOverlaps | python/nlcor/utilities.py:29-33 | As written, with `l = 11` and `w = 4`, the partition names 15 positions and does not tile `1..11`. The intended windows do tile it. |
| Utilities.SegmentCorrelation | python/nlcor/utilities.py:39-47 | An undefined coefficient reads as coefficient 0 with p-value 1. Otherwise the statistic is passed through unchanged. |
| Utilities.SegmentsCor.constructor | python/nlcor/correlations.py:117 | The accumulator starts with no entries. |
| Utilities.SegmentsCor.UpdateSegmentsCor | python/nlcor/utilities.py:10-16 | Exactly one entry is appended: the raw statistic of the given run. Earlier entries are unchanged. |
| Utilities.RunningSumCancels | python/nlcor/utilities.py:14-15 | As written, two runs with coefficients 0.5 and -0.5 (p = 0.01 each) leave one entry (0, 0.02). The two runs cancel. |
| Correlations.MergeFlag | python/nlcor/correlations.py:135-161 | The decision table. A significant window (p <= 0.05) in the same direction is merged. A significant reversal is never merged. An insignificant window is merged exactly when `abs(combined) >= mean(abs(prev), cur)`, whatever the direction. |
| Correlations.GreedyFrom | python/nlcor/correlations.py:126-197 | The walk never drops or reorders the runs already closed. It produces at least one more run, and at most one per remaining window plus the working one. |
| Correlations.OptimalSegments | python/nlcor/correlations.py:119-197 | There is at least one run, and never more runs than windows. |
| Correlations.GreedyFromConcat | python/nlcor/correlations.py:163-181 | Merging loses and repeats no position. The runs flatten to the closed runs, then the working run, then the remaining windows. |
| Correlations.GreedyFromNonEmpty | python/nlcor/correlations.py:163-181 | Runs built from non-empty windows are non-empty. |
| Correlations.GreedyFromBoundaries | python/nlcor/correlations.py:135-181 | Every boundary between two consecutive runs is a refused merge. The later run begins with a window whose merge with the whole earlier run the decision refused. |
| Correlations.GreedyFromMergesAll | python/nlcor/correlations.py:135-181 | The converse of the boundaries: when every window merges with everything grown before it, the walk closes no run, and one run covers the working segment and all the windows. |
| Correlations.OptimalSegmentsMergesAll | python/nlcor/correlations.py:119-197 | When each window merges with the run of all earlier windows, the greedy search returns the whole sequence as one run. |
| Correlations.OptimalSegmentsPartition | python/nlcor/correlations.py:119-197 | The runs cover the same positions as the windows and tile `1..l` whenever the windows do. |
| Correlations.MergeWindows | python/nlcor/correlations.py:119-203 | The loop yields exactly the greedy runs. It records one raw statistic per run, in run order, each the statistic of that run. A single window yields itself and its own statistic. |
| Correlations.GreedyAsWrittenLosesRuns | python/nlcor/correlations.py:163-192 | As written, two significant windows of opposite sign end as a single run (the last window), and only its statistic is recorded. Positions 1..3 are lost. The intended walk keeps both windows as runs. |
| Correlations.NetCorrelationBounds | python/nlcor/correlations.py:212-226 | The estimate lies in [0, 1] and the adjusted p-value lies in [0, 1]. There is one entry per record. An entry keeps a p-value only if its record's p-value is at most `p_threshold / k`. Every other entry has coefficient 0. |
| Correlations.NetCor | python/nlcor/correlations.py:212-226 | The in-place nulling loop yields `NetCorrelation`. Its estimate and adjusted p-value lie in [0, 1]. |
| Correlations.GreedySearchSound | python/nlcor/correlations.py:98-209 | At every granularity, including those above 1, the runs tile `1..l`, and the estimate and adjusted p-value lie in [0, 1]. |
| Correlations.NlcorGreedySearch | python/nlcor/correlations.py:98-209 | The search validates, segments, merges and aggregates. Its runs tile `1..l`, it has one aggregated entry per run, and both outputs lie in [0, 1]. The result equals `GreedySearch`. |
| Correlations.Arange | python/nlcor/correlations.py:56 | `np.arange(start, stop)` in hundredths: `stop - start` values (none when `stop <= start`), the `i`-th being `start + i`. |
| Correlations.Refinements | python/nlcor/correlations.py:56 | The ladder holds 15 granularities, from 0.01 up to 0.15; the stop 0.16 is excluded. |
| Correlations.Candidates | python/nlcor/correlations.py:56-60 | One greedy search per granularity of the ladder. Every candidate's runs tile `1..l`, and its estimate and adjusted p-value lie in [0, 1]. |
| Correlations.Baseline | python/nlcor/correlations.py:50-54 | The starting best is the absolute whole-sequence coefficient, in [0, 1], with its p-value rounded once, and a single segment that tiles `1..l`. It exists exactly when the coefficient is defined. Its p-value is in [0, 1] when rounding keeps probabilities in [0, 1]. |
| Correlations.Improves | python/nlcor/correlations.py:62 | A candidate improves exactly when the best is defined, its rounded estimate is strictly greater and its rounded p-value is no greater. It never improves on its own estimate. |
| Correlations.Pick | python/nlcor/correlations.py:62-70 | An improving candidate replaces the best's estimate, p-value and partition together. Any other candidate leaves the best unchanged. The best stays defined exactly when it was, the rounded estimate does not drop, and the rounded p-value does not rise. |
| Correlations.PickIdempotent | python/nlcor/correlations.py:62-70 | Offering the same candidate a second time changes nothing. |
| Correlations.SelectMonotone | python/nlcor/correlations.py:55-70 | The best is defined after the ladder exactly when it was defined before. Its estimate and p-value stay in [0, 1]. Its rounded estimate never goes down and its rounded p-value never goes up. Its partition tiles `1..l`. |
| Correlations.SelectKeepsUnbeaten | python/nlcor/correlations.py:62-70 | When no candidate passes the test of line 62, the starting best and its partition are kept. |
| Correlations.SelectTakesImprovement | python/nlcor/correlations.py:57-70 | When some candidate passes the test of line 62 against the starting best, the ladder ends with a rounded estimate strictly above the start's. |
| Correlations.SelectNeverWorse | python/nlcor/correlations.py:57-70 | Over any candidates, the best stays defined exactly when it was, its rounded estimate never drops and its rounded p-value never rises. |
| Correlations.Ladder | python/nlcor/correlations.py:55-70 | The loop over 0.01 .. 0.15 keeps a candidate exactly when it improves on the best so far. The result equals `Select` over the candidates. |
| Correlations.Nlcor | python/nlcor/correlations.py:41-94 | With no granularity given, the result is the ladder from the baseline. Its rounded estimate is at least the rounded absolute whole-sequence coefficient, and its rounded p-value is at most the rounded baseline p-value. With a granularity given, the baseline estimate is kept and only the partition is replaced. Either way the partition tiles `1..l`. An estimate exists exactly when the whole-sequence coefficient is defined. Its estimate and p-value then lie in [0, 1], given that rounding keeps probabilities in [0, 1]. When some ladder candidate improves on the baseline, the rounded estimate ends strictly above the baseline's. |

## Left out

- `scipy.stats.pearsonr` is not computed. It is the `Oracle` parameter, and the model uses only its output ranges.
- Python's `round(v, 2)` is the uninterpreted parameter `round2`, because floating-point rounding is not modelled.
- Granularities are whole hundredths. Adding `0.01` to a float in the source drifts (`0.06 + 0.01` is not exactly `0.07`), so `floor(refine * l)` can fall one short at some hundredths. The model computes `refine * l / 100` exactly.
- A given `refine` is a non-negative whole number of hundredths. Above 1 the window is at least as long as the data (`floor(1.01 * 4) = 4`), and Segment yields the single window `1..l`: either one exact window, or a remainder of all `l` points that stands alone. The model covers this through `Utilities.Segmentable`.
- Correlations.Nlcor: `round2` is assumed to map [0, 1] into [0, 1] (`RoundsProbabilities`). Python's `round(v, 2)` does this; the p-value bound depends on it.
- Utilities.Segment requires `Segmentable`. A window length of 0 is a ZeroDivisionError in the source. A window longer than data of at most MIN_SEGMENT_SIZE points leaves no full window, and merging the remainder then indexes an empty list. Both are raised errors and are not modelled.
- Correlations.GreedySearch, Correlations.NlcorGreedySearch, Correlations.Ladder and Correlations.Nlcor require more than MIN_SEGMENT_SIZE points. The documented requirement (correlations.py:4) is more than 10, so every documented input is covered. Smaller inputs differ. With no points the ValidateRefine loop never ends. With 1 to 3 points, a window below 3 is first raised beyond the data; a window longer than the data, raised or given, leaves Segment no full window, and it then indexes an empty window list. With exactly 3 points and a given `refine` from 1.00 to 1.33, the window is exactly 3, `refine` comes back unchanged, and the source returns the single segment `1..3` through its one-window branch (correlations.py:199-203). The model does not cover this case.
- The data frame is not modelled: sorting by `x`, re-indexing from 1 and the `df.x[...]` lookups. The oracle is applied to sorted positions directly.
- UpdateDfFit (utilities.py:58-84), the plotting branch of nlcor (lines 77-89, `PlotNlcor` and `print`), `visualization.py` and `setup.py` are not part of this model.
- `self.NlcorGreedySearch`, `self.NetCor` and the keyword arguments `x.seg=` / `y.seg=` are module-level calls with `x_seg=` / `y_seg=` in the model. As written they are a NameError and a SyntaxError.
- Correlations.NetCor: the source wraps the lists once more (`[cors]`, `[p_values]`), so `len([cors])` is 1 and `[p_values][i] > threshold` compares a list with a float. The model works on the full lists of per-run values.
- Correlations.NetCor: the source tests `p > threshold` before `p == None`, so a missing p-value would raise before it is nulled. The model nulls missing p-values.
- Correlations.NetCorrelation: a run whose coefficient is undefined is nulled (coefficient 0, no p-value). In the source a NaN p-value passes both tests of line 218 and would make the estimate NaN.
- Correlations.Baseline: an undefined whole-sequence coefficient is `best == None`. Every comparison against NaN is false, so no candidate can replace it, and the model's `Improves` requires a defined best.
- Correlations.MergeFlag: the current window's coefficient enters the mean without `abs`, as in lines 147 and 160. The model keeps this.
- Correlations.Nlcor: the initial `bestOptimalSegments` is the flat list `1..l`. The model reads it as one segment covering `1..l`.
- Correlations.Choice bundles `bestCor`, `bestPvalue` and `bestOptimalSegments`. `bestRefine` is assigned but never read, so it is not modelled.
- Correlations.MergeWindows: a refused merge appends a new slot to `optimalSegments`, where line 181 writes to the last slot. Lines 123, 167, 181 and 192 only ever touch the last slot, so as written the partition never holds more than one run; the append is the reading under which the runs partition the data.
- Correlations.MergeWindows: `if i == len(segments)` (line 168) never holds inside the loop. The model reads it as "this is the last window". Under that reading both branches after the loop (lines 184-197) record the working run, and that is what the model does.
- Lists are values in the model: each update of `optimalSegments` and `segmentsCor` builds a new sequence, so in-place mutation and any sharing between lists are not tracked. This changes no result; the slot overwrite of line 181 is a separate matter, given under Correlations.MergeWindows above.

## Findings

| source | as written | input that shows it | evidently intended | confidence | as-written member | corrected member |
|---|---|---|---|---|---|---|
| python/nlcor/utilities.py:33 | A short remainder is merged with a copy of the last window and inserted as an extra element, so the last full window is kept too. | `l = 11`, `w = 4`: windows 1..4, 5..8 and 5..11. Positions 5..8 appear twice. | Replace the last window by the last window plus the remainder, so that the windows tile `1..l`. | not executed | Utilities.SegmentAsWrittenOverlaps | Utilities.WindowsPartition |
| python/nlcor/correlations.py:168-192 | The `else` of line 171 belongs to `if i == len(segments)`, which never holds in the loop. So a merge records the fused pair and restarts from the current window, a refusal records nothing, and after the loop the last slot is overwritten by the last window. Lines 123, 167, 181 and 192 only ever write the last slot of `optimalSegments`, so the partition never holds more than one run. | Two windows 1..3 and 4..6 with significant coefficients 1 and -1: the final partition is 4..6 alone, and only it is recorded. | The `else` belongs to `if merge_flag`, and a refusal appends the window as a new slot instead of writing the last one (line 181): it records the working run and opens a new run. The final run is recorded once. Moving the `else` alone is not enough, because line 181 would still overwrite the closed run. | not executed | Correlations.GreedyAsWrittenLosesRuns | Correlations.MergeWindows |
| python/nlcor/utilities.py:14-15 | Coefficients and p-values are summed into a single running value. | Runs with (0.5, 0.01) and (-0.5, 0.01) give (0, 0.02). | Append one (coefficient, p-value) per run, so that NetCor can null and average them per run. | not executed | Utilities.RunningSumCancels | Utilities.SegmentsCor.UpdateSegmentsCor |
