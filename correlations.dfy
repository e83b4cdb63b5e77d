/** Model of nlcor's estimator (python/nlcor/correlations.py): the greedy
    merge of adjacent windows, the aggregation of the per-run statistics
    into one estimate and one p-value, and the search over granularities
    that keeps the best candidate against the whole-sequence baseline. */
module Correlations {
  import opened Intervals
  import opened Utilities

  /** A window whose own p-value is at most this is significant. */
  const SIGNIFICANCE_LEVEL: real := 0.05

  /** Default `p_threshold` of NetCor. */
  const P_THRESHOLD: real := 0.05

  /** Bounds of the automatic granularity ladder `np.arange(0.01, 0.16, 0.01)`,
      in hundredths (the stop is excluded). */
  const LADDER_START: nat := 1
  const LADDER_STOP: nat := 16

  /** `np.sign`: zero has a sign of its own. */
  function Sign(x: real): int
  {
    if x > 0.0 then 1 else if x < 0.0 then -1 else 0
  }

  function Abs(x: real): real
  {
    if x < 0.0 then -x else x
  }

  // ---------------------------------------------------------------------
  // The merge decision (NlcorGreedySearch, lines 135-161)
  // ---------------------------------------------------------------------

  /** Fusing does not weaken the signal: `|combined| >= mean(|prev|, cur)`.
      The current window's coefficient enters WITHOUT an absolute value. */
  predicate CombinedNotWeaker(prev: Pearson, cur: Pearson, combined: Pearson)
  {
    Abs(combined.cor) >= (Abs(prev.cor) + cur.cor) / 2.0
  }

  /** `merge_flag` for the working segment (`prev`), the next window (`cur`)
      and their concatenation (`combined`). The decision table: a significant
      window in the same direction is merged, a significant reversal is
      never merged, and an insignificant window is merged exactly when the
      combination is not weaker, whatever its direction. */
  function MergeFlag(prev: Pearson, cur: Pearson, combined: Pearson): (merge: bool)
    ensures Sign(prev.cor) == Sign(cur.cor) && cur.p <= SIGNIFICANCE_LEVEL ==> merge
    ensures Sign(prev.cor) != Sign(cur.cor) && cur.p <= SIGNIFICANCE_LEVEL ==> !merge
    ensures cur.p > SIGNIFICANCE_LEVEL ==> (merge <==> CombinedNotWeaker(prev, cur, combined))
  {
    if Sign(prev.cor) == Sign(cur.cor) then
      if cur.p <= SIGNIFICANCE_LEVEL then true
      else CombinedNotWeaker(prev, cur, combined)
    else
      if cur.p <= SIGNIFICANCE_LEVEL then false
      else CombinedNotWeaker(prev, cur, combined)
  }

  /** The decision for extending `working` by `window`, from the three
      NaN-safe segment statistics. */
  predicate Merges(stats: Oracle, working: seq<int>, window: seq<int>)
  {
    MergeFlag(SegmentCorrelation(stats, working),
              SegmentCorrelation(stats, window),
              SegmentCorrelation(stats, working + window))
  }

  // ---------------------------------------------------------------------
  // The greedy merge (NlcorGreedySearch, lines 119-203)
  // ---------------------------------------------------------------------

  /** The greedy walk, read as its comments intend: `finalized` are the runs
      already closed, `working` is the run being grown and `rest` are the
      windows still to visit. A merge extends the working run; a refusal
      closes it and starts a new one from the window. The result is the list
      of runs. */
  function GreedyFrom(stats: Oracle, finalized: seq<seq<int>>, working: seq<int>, rest: seq<seq<int>>): (runs: seq<seq<int>>)
    ensures |finalized| < |runs| <= |finalized| + 1 + |rest|
    ensures runs[..|finalized|] == finalized
    decreases |rest|
  {
    if rest == [] then finalized + [working]
    else if Merges(stats, working, rest[0]) then GreedyFrom(stats, finalized, working + rest[0], rest[1..])
    else
      var runs := GreedyFrom(stats, finalized + [working], rest[0], rest[1..]);
      assert runs[..|finalized|] == runs[..|finalized| + 1][..|finalized|];
      runs
  }

  /** The runs the greedy search ends with (`optimalSegments`), starting
      from the first window. */
  function OptimalSegments(stats: Oracle, windows: seq<seq<int>>): (runs: seq<seq<int>>)
    requires |windows| > 0
    ensures 0 < |runs| <= |windows|
  {
    GreedyFrom(stats, [], windows[0], windows[1..])
  }

  /** One raw `pearsonr` result per run, in order. */
  function RecordsOf(stats: Oracle, runs: seq<seq<int>>): seq<Option<Pearson>>
  {
    seq(|runs|, j requires 0 <= j < |runs| => stats(runs[j]))
  }

  /** The greedy walk never loses or repeats a position: the runs flatten to
      the finalized runs, the working run and the remaining windows. */
  lemma {:induction false} GreedyFromConcat(stats: Oracle, finalized: seq<seq<int>>, working: seq<int>, rest: seq<seq<int>>)
    ensures Concat(GreedyFrom(stats, finalized, working, rest)) == Concat(finalized) + working + Concat(rest)
    decreases |rest|
  {
    if rest == [] {
      ConcatAppend(finalized, working);
    } else {
      var done, tail := Concat(finalized), Concat(rest[1..]);
      assert Concat(rest) == rest[0] + tail;
      if Merges(stats, working, rest[0]) {
        GreedyFromConcat(stats, finalized, working + rest[0], rest[1..]);
        AppendAssoc(done, working, rest[0], tail);
      } else {
        GreedyFromConcat(stats, finalized + [working], rest[0], rest[1..]);
        ConcatAppend(finalized, working);
        AppendAssoc(done, working, rest[0], tail);
      }
    }
  }

  lemma AppendAssoc(a: seq<int>, b: seq<int>, c: seq<int>, d: seq<int>)
    ensures a + (b + c) + d == a + b + (c + d) == a + b + c + d
  {
  }

  /** Runs are never empty when the windows are not. */
  lemma {:induction false} GreedyFromNonEmpty(stats: Oracle, finalized: seq<seq<int>>, working: seq<int>, rest: seq<seq<int>>)
    requires forall i :: 0 <= i < |finalized| ==> |finalized[i]| > 0
    requires |working| > 0
    requires forall i :: 0 <= i < |rest| ==> |rest[i]| > 0
    ensures forall i :: 0 <= i < |GreedyFrom(stats, finalized, working, rest)| ==> |GreedyFrom(stats, finalized, working, rest)[i]| > 0
    decreases |rest|
  {
    if rest != [] {
      if Merges(stats, working, rest[0]) {
        GreedyFromNonEmpty(stats, finalized, working + rest[0], rest[1..]);
      } else {
        GreedyFromNonEmpty(stats, finalized + [working], rest[0], rest[1..]);
      }
    }
  }

  /** The run that starts with the working segment begins with it. */
  lemma {:induction false} GreedyFromWorkingPrefix(stats: Oracle, finalized: seq<seq<int>>, working: seq<int>, rest: seq<seq<int>>)
    ensures working <= GreedyFrom(stats, finalized, working, rest)[|finalized|]
    decreases |rest|
  {
    if rest != [] {
      if Merges(stats, working, rest[0]) {
        GreedyFromWorkingPrefix(stats, finalized, working + rest[0], rest[1..]);
      } else {
        var runs := GreedyFrom(stats, finalized + [working], rest[0], rest[1..]);
        assert runs[..|finalized| + 1][|finalized|] == working;
      }
    }
  }

  /** Every boundary between two runs is a refused merge: the next run begins
      with a window that the decision refused to fuse with the whole of the
      run before it. */
  lemma {:induction false} GreedyFromBoundaries(stats: Oracle, finalized: seq<seq<int>>, working: seq<int>, rest: seq<seq<int>>, j: nat)
    requires |finalized| <= j && j + 1 < |GreedyFrom(stats, finalized, working, rest)|
    ensures var runs := GreedyFrom(stats, finalized, working, rest);
            exists k :: 0 <= k < |rest| && !Merges(stats, runs[j], rest[k]) && rest[k] <= runs[j + 1]
    decreases |rest|
  {
    var runs := GreedyFrom(stats, finalized, working, rest);
    if rest == [] {
      assert false;
    } else if Merges(stats, working, rest[0]) {
      GreedyFromBoundaries(stats, finalized, working + rest[0], rest[1..], j);
      var k :| 0 <= k < |rest[1..]| && !Merges(stats, runs[j], rest[1..][k]) && rest[1..][k] <= runs[j + 1];
      assert rest[k + 1] == rest[1..][k];
    } else if j == |finalized| {
      assert runs[..|finalized| + 1][|finalized|] == working;
      GreedyFromWorkingPrefix(stats, finalized + [working], rest[0], rest[1..]);
      assert !Merges(stats, runs[j], rest[0]) && rest[0] <= runs[j + 1];
    } else {
      GreedyFromBoundaries(stats, finalized + [working], rest[0], rest[1..], j);
      var k :| 0 <= k < |rest[1..]| && !Merges(stats, runs[j], rest[1..][k]) && rest[1..][k] <= runs[j + 1];
      assert rest[k + 1] == rest[1..][k];
    }
  }

  /** The converse of the boundaries: when every window in turn merges with
      everything grown before it, the walk closes no run and ends with one
      run covering the working segment and all the windows. */
  lemma {:induction false} GreedyFromMergesAll(stats: Oracle, finalized: seq<seq<int>>, working: seq<int>, rest: seq<seq<int>>)
    requires forall k :: 0 <= k < |rest| ==> Merges(stats, working + Concat(rest[..k]), rest[k])
    ensures GreedyFrom(stats, finalized, working, rest) == finalized + [working + Concat(rest)]
    decreases |rest|
  {
    if rest == [] {
      assert working + Concat(rest) == working;
    } else {
      MergesAllShift(stats, working, rest);
      GreedyFromMergesAll(stats, finalized, working + rest[0], rest[1..]);
      assert working + rest[0] + Concat(rest[1..]) == working + Concat(rest);
    }
  }

  /** The premise of GreedyFromMergesAll holds again one window further on. */
  lemma MergesAllShift(stats: Oracle, working: seq<int>, rest: seq<seq<int>>)
    requires |rest| > 0
    requires forall k :: 0 <= k < |rest| ==> Merges(stats, working + Concat(rest[..k]), rest[k])
    ensures Merges(stats, working, rest[0])
    ensures forall k :: 0 <= k < |rest| - 1 ==> Merges(stats, working + rest[0] + Concat(rest[1..][..k]), rest[1..][k])
  {
    assert rest[..0] == [] && working + Concat(rest[..0]) == working;
    forall k | 0 <= k < |rest| - 1
      ensures Merges(stats, working + rest[0] + Concat(rest[1..][..k]), rest[1..][k])
    {
      ConcatPrefix(rest, k);
      assert working + Concat(rest[..k + 1]) == working + rest[0] + Concat(rest[1..][..k]);
      assert Merges(stats, working + Concat(rest[..k + 1]), rest[k + 1]);
    }
  }

  /** When each window merges with the run of all windows before it, the
      greedy search keeps the whole sequence as a single run. */
  lemma OptimalSegmentsMergesAll(stats: Oracle, windows: seq<seq<int>>)
    requires |windows| > 0
    requires forall k :: 1 <= k < |windows| ==> Merges(stats, Concat(windows[..k]), windows[k])
    ensures OptimalSegments(stats, windows) == [Concat(windows)]
  {
    var rest := windows[1..];
    forall k | 0 <= k < |rest|
      ensures Merges(stats, windows[0] + Concat(rest[..k]), rest[k])
    {
      ConcatPrefix(windows, k);
      assert Merges(stats, Concat(windows[..k + 1]), windows[k + 1]);
    }
    GreedyFromMergesAll(stats, [], windows[0], rest);
    assert Concat(windows) == windows[0] + Concat(rest);
  }

  /** The runs tile whatever the windows tile: contiguous, ordered,
      disjoint, and covering the same positions. */
  lemma OptimalSegmentsPartition(stats: Oracle, windows: seq<seq<int>>, l: nat)
    requires Tiles(windows, 1, l) && |windows| > 0
    ensures Concat(OptimalSegments(stats, windows)) == Concat(windows)
    ensures Tiles(OptimalSegments(stats, windows), 1, l)
  {
    var runs := OptimalSegments(stats, windows);
    GreedyFromConcat(stats, [], windows[0], windows[1..]);
    assert Concat(windows) == windows[0] + Concat(windows[1..]);
    TilesConcat(windows, 1, l);
    TilesNonEmpty(windows, 1, l);
    GreedyFromNonEmpty(stats, [], windows[0], windows[1..]);
    ConcatTiles(runs, 1, l);
  }

  lemma {:induction false} TilesNonEmpty(parts: seq<seq<int>>, start: int, len: nat)
    requires Tiles(parts, start, len)
    ensures forall i :: 0 <= i < |parts| ==> |parts[i]| > 0
    decreases |parts|
  {
    if parts != [] {
      TilesNonEmpty(parts[1..], start + |parts[0]|, len - |parts[0]|);
      assert forall i :: 1 <= i < |parts| ==> parts[i] == parts[1..][i - 1];
    }
  }

  /** One step of the walk over the windows from index `i`: a merge grows
      the working run, a refusal closes it. */
  lemma GreedyFromStep(stats: Oracle, finalized: seq<seq<int>>, working: seq<int>, windows: seq<seq<int>>, i: nat)
    requires i < |windows|
    ensures Merges(stats, working, windows[i]) ==>
              GreedyFrom(stats, finalized, working, windows[i..]) == GreedyFrom(stats, finalized, working + windows[i], windows[i + 1..])
    ensures !Merges(stats, working, windows[i]) ==>
              GreedyFrom(stats, finalized, working, windows[i..]) == GreedyFrom(stats, finalized + [working], windows[i], windows[i + 1..])
  {
    assert windows[i..][0] == windows[i] && windows[i..][1..] == windows[i + 1..];
  }

  /** Recording one more run appends its statistic. */
  lemma RecordsOfSnoc(stats: Oracle, runs: seq<seq<int>>, run: seq<int>)
    ensures RecordsOf(stats, runs + [run]) == RecordsOf(stats, runs) + [stats(run)]
  {
  }

  /** The greedy walk of NlcorGreedySearch over the raw windows. The
      working segment is the last slot of `optimalSegments`; a refused merge
      records the working run's statistic and opens a new slot, and after
      the loop the remaining working run is recorded. */
  method MergeWindows(stats: Oracle, segments: seq<seq<int>>) returns (optimalSegments: seq<seq<int>>, segmentsCor: seq<Option<Pearson>>)
    requires |segments| > 0
    ensures optimalSegments == OptimalSegments(stats, segments)
    ensures |segmentsCor| == |optimalSegments|
    ensures forall j :: 0 <= j < |optimalSegments| ==> segmentsCor[j] == stats(optimalSegments[j])
    ensures |segments| == 1 ==> optimalSegments == segments && segmentsCor == [stats(segments[0])]
  {
    var acc := new SegmentsCor();
    var seg := segments[0];
    optimalSegments := [seg];
    ghost var closed: seq<seq<int>> := [];
    for i := 1 to |segments|
      invariant optimalSegments == closed + [seg]
      invariant GreedyFrom(stats, closed, seg, segments[i..]) == OptimalSegments(stats, segments)
      invariant acc.entries == RecordsOf(stats, closed)
    {
      var previous := SegmentCorrelation(stats, seg);
      var current := SegmentCorrelation(stats, segments[i]);
      var combined := SegmentCorrelation(stats, seg + segments[i]);
      var mergeFlag := MergeFlag(previous, current, combined);
      GreedyFromStep(stats, closed, seg, segments, i);
      if mergeFlag {
        // Extend the working segment in its slot; nothing is recorded.
        seg := seg + segments[i];
        optimalSegments := optimalSegments[..|optimalSegments| - 1] + [seg];
      } else {
        // Refused: close the working run, record its statistic, open a slot for the window.
        acc.UpdateSegmentsCor(stats, seg);
        RecordsOfSnoc(stats, closed, seg);
        closed := closed + [seg];
        seg := segments[i];
        optimalSegments := optimalSegments + [seg];
      }
    }
    // The last working run is recorded exactly once.
    acc.UpdateSegmentsCor(stats, seg);
    RecordsOfSnoc(stats, closed, seg);
    assert segments[|segments|..] == [];
    segmentsCor := acc.entries;
  }

  /** Lines 126-197 as written. The `else` at line 171 belongs to
      `if i == len(segments)`, which never holds inside the loop, and every
      assignment goes to the LAST slot of `optimalSegments`. So a merge
      records the statistic of the fused pair and resets the working segment
      to the window; a refusal does nothing. After the loop the last slot is
      overwritten by the last window, which is recorded. Returns the final
      `optimalSegments` and the segments whose statistic is recorded. */
  function GreedyAsWritten(stats: Oracle, windows: seq<seq<int>>): (seq<seq<int>>, seq<seq<int>>)
    requires |windows| > 0
  {
    var last := windows[|windows| - 1];
    ([last], RecordedAsWritten(stats, windows[0], windows[1..]) + [last])
  }

  function RecordedAsWritten(stats: Oracle, working: seq<int>, rest: seq<seq<int>>): seq<seq<int>>
    decreases |rest|
  {
    if rest == [] then []
    else if Merges(stats, working, rest[0]) then [working + rest[0]] + RecordedAsWritten(stats, rest[0], rest[1..])
    else RecordedAsWritten(stats, working, rest[1..])
  }

  /** Two windows with significant correlations of opposite sign (1 on
      positions 1..3, -1 elsewhere, both with p = 0). */
  function TwoRegimes(seg: seq<int>): Option<Pearson>
  {
    if |seg| > 0 && seg[0] == 1 then Some(Pearson(1.0, 0.0)) else Some(Pearson(-1.0, 0.0))
  }

  /** As written, the first window of a significant reversal disappears:
      the final partition is the last window alone and only its statistic
      is recorded. The intended walk keeps both windows as runs. */
  lemma GreedyAsWrittenLosesRuns()
    ensures var windows := [Interval(1, 3), Interval(4, 3)];
            GreedyAsWritten(TwoRegimes, windows) == ([Interval(4, 3)], [Interval(4, 3)])
            && Concat(GreedyAsWritten(TwoRegimes, windows).0) != Concat(windows)
            && OptimalSegments(TwoRegimes, windows) == windows
  {
    var windows := [Interval(1, 3), Interval(4, 3)];
    assert Interval(4, 3)[0] == 4;
    assert !Merges(TwoRegimes, Interval(1, 3), Interval(4, 3));
    assert windows[1..] == [Interval(4, 3)] && windows[|windows| - 1] == Interval(4, 3);
    assert [Interval(4, 3)][1..] == [];
    assert RecordedAsWritten(TwoRegimes, Interval(4, 3), []) == [];
    assert RecordedAsWritten(TwoRegimes, Interval(1, 3), [Interval(4, 3)]) == [];
    assert [] + [Interval(4, 3)] == [Interval(4, 3)];
    assert Concat([Interval(4, 3)]) == Interval(4, 3);
    assert Concat(windows) == Interval(1, 3) + Interval(4, 3);
  }

  // ---------------------------------------------------------------------
  // NetCor (lines 212-226)
  // ---------------------------------------------------------------------

  /** One entry of `segment_cor` after nulling. */
  datatype SegmentCor = SegmentCor(cor: real, pValue: Option<real>)

  datatype NetCorResult = NetCorResult(corEstimate: real, adjustedPValue: real, segmentCor: seq<SegmentCor>)

  /** An entry survives when its p-value exists and is at most the corrected
      threshold; otherwise its coefficient becomes 0 and its p-value is
      dropped. */
  function Nullify(entry: Option<Pearson>, threshold: real): SegmentCor
  {
    if entry.Some? && entry.value.p <= threshold then SegmentCor(entry.value.cor, Some(entry.value.p))
    else SegmentCor(0.0, None)
  }

  /** A record as it enters the nulling loop: an undefined coefficient
      reads as coefficient 0 with no p-value. */
  function Raw(entry: Option<Pearson>): SegmentCor
  {
    if entry.Some? then SegmentCor(entry.value.cor, Some(entry.value.p)) else SegmentCor(0.0, None)
  }

  /** Nulling acts on the entry as it enters the loop: a missing or too
      large p-value nulls it, any other entry is kept as it is. */
  lemma NullifyRaw(entry: Option<Pearson>, threshold: real)
    ensures var raw := Raw(entry);
            Nullify(entry, threshold) == if raw.pValue.None? || raw.pValue.value > threshold then SegmentCor(0.0, None) else raw
  {
  }

  function SumAbs(entries: seq<SegmentCor>): real
  {
    if entries == [] then 0.0 else Abs(entries[0].cor) + SumAbs(entries[1..])
  }

  /** `prod(1 - p)` over the entries that still carry a p-value. */
  function SurvivorProduct(entries: seq<SegmentCor>): real
  {
    if entries == [] then 1.0
    else (match entries[0].pValue case Some(p) => 1.0 - p case None => 1.0) * SurvivorProduct(entries[1..])
  }

  /** Entries whose coefficient lies in [-1, 1] and whose p-value, if any,
      lies in [0, 1]. */
  predicate InRange(entries: seq<SegmentCor>)
  {
    forall i :: 0 <= i < |entries| ==>
      -1.0 <= entries[i].cor <= 1.0
      && (entries[i].pValue.Some? ==> 0.0 <= entries[i].pValue.value <= 1.0)
  }

  /** NetCor over the full list of records: a Bonferroni threshold
      `p_threshold / k`, nulling, the mean of |cor| and `1 - prod(1 - p)`. */
  function NetCorrelation(records: seq<Option<Pearson>>, pThreshold: real): NetCorResult
    requires |records| > 0
  {
    var k := |records|;
    var threshold := pThreshold / k as real;
    var segmentCor := seq(k, i requires 0 <= i < k => Nullify(records[i], threshold));
    NetCorResult(SumAbs(segmentCor) / k as real, 1.0 - SurvivorProduct(segmentCor), segmentCor)
  }

  lemma {:induction false} SumAbsBound(entries: seq<SegmentCor>)
    requires InRange(entries)
    ensures 0.0 <= SumAbs(entries) <= |entries| as real
  {
    if entries != [] {
      assert InRange(entries[1..]) by {
        forall i | 0 <= i < |entries[1..]| ensures entries[1..][i] == entries[i + 1] { }
      }
      SumAbsBound(entries[1..]);
    }
  }

  lemma {:induction false} SurvivorProductBound(entries: seq<SegmentCor>)
    requires InRange(entries)
    ensures 0.0 <= SurvivorProduct(entries) <= 1.0
  {
    if entries != [] {
      assert InRange(entries[1..]) by {
        forall i | 0 <= i < |entries[1..]| ensures entries[1..][i] == entries[i + 1] { }
      }
      SurvivorProductBound(entries[1..]);
      var factor := match entries[0].pValue case Some(p) => 1.0 - p case None => 1.0;
      var tail := SurvivorProduct(entries[1..]);
      assert SurvivorProduct(entries) == factor * tail;
      ProductInUnit(factor, tail);
    }
  }

  /** The product of two numbers in [0, 1] lies in [0, 1]. */
  lemma ProductInUnit(a: real, b: real)
    requires 0.0 <= a <= 1.0 && 0.0 <= b <= 1.0
    ensures 0.0 <= a * b <= 1.0
  {
    if a != 0.0 && b != 0.0 {
      assert 0.0 < a * b;
      assert a * b <= b;
    }
  }

  /** The aggregate is a proper estimate: the correlation lies in [0, 1],
      the adjusted p-value lies in [0, 1], and every surviving entry passed
      the Bonferroni threshold while every other entry is nulled. */
  lemma NetCorrelationBounds(records: seq<Option<Pearson>>, pThreshold: real)
    requires |records| > 0
    ensures var net := NetCorrelation(records, pThreshold);
            0.0 <= net.corEstimate <= 1.0 && 0.0 <= net.adjustedPValue <= 1.0
            && |net.segmentCor| == |records|
            && (forall i :: 0 <= i < |records| && net.segmentCor[i].pValue.Some? ==>
                  records[i].Some? && records[i].value.p <= pThreshold / |records| as real)
            && (forall i :: 0 <= i < |records| && net.segmentCor[i].pValue.None? ==> net.segmentCor[i].cor == 0.0)
  {
    var net := NetCorrelation(records, pThreshold);
    var k := |records| as real;
    SumAbsBound(net.segmentCor);
    SurvivorProductBound(net.segmentCor);
    MeanBound(SumAbs(net.segmentCor), k);
  }

  lemma MeanBound(sum: real, k: real)
    requires 0.0 < k && 0.0 <= sum <= k
    ensures 0.0 <= sum / k <= 1.0
  {
    assert sum / k * k == sum;
  }

  /** NetCor: the nulling loop runs in place over the two lists, then the
      estimate and the adjusted p-value are computed from what is left. */
  method NetCor(records: seq<Option<Pearson>>, pThreshold: real) returns (netcor: NetCorResult)
    requires |records| > 0
    ensures netcor == NetCorrelation(records, pThreshold)
    ensures 0.0 <= netcor.corEstimate <= 1.0 && 0.0 <= netcor.adjustedPValue <= 1.0
  {
    var k := |records|;
    var adjustedThreshold := pThreshold / k as real;
    // A record with an undefined coefficient enters with coefficient 0 and
    // no p-value; the loop nulls it like any other failing entry.
    var cors := new real[k](i requires 0 <= i < k => Raw(records[i]).cor);
    var pValues := new Option<real>[k](i requires 0 <= i < k => Raw(records[i]).pValue);
    for i := 0 to k
      invariant forall j :: 0 <= j < i ==> SegmentCor(cors[j], pValues[j]) == Nullify(records[j], adjustedThreshold)
      invariant forall j :: i <= j < k ==> SegmentCor(cors[j], pValues[j]) == Raw(records[j])
    {
      NullifyRaw(records[i], adjustedThreshold);
      if pValues[i].None? || pValues[i].value > adjustedThreshold {
        pValues[i] := None;
        cors[i] := 0.0;
      }
    }
    var segmentCor := seq(k, i requires 0 <= i < k reads cors, pValues => SegmentCor(cors[i], pValues[i]));
    ghost var expected := NetCorrelation(records, pThreshold);
    assert segmentCor == expected.segmentCor;
    netcor := NetCorResult(SumAbs(segmentCor) / k as real, 1.0 - SurvivorProduct(segmentCor), segmentCor);
    NetCorrelationBounds(records, pThreshold);
  }

  // ---------------------------------------------------------------------
  // NlcorGreedySearch (lines 98-209)
  // ---------------------------------------------------------------------

  /** The outcome of one greedy search at granularity `refine` (hundredths):
      the aggregate and the runs. */
  function GreedySearch(stats: Oracle, l: nat, refine: nat): (NetCorResult, seq<seq<int>>)
    requires l > MIN_SEGMENT_SIZE
  {
    ValidRefineWindow(l, refine);
    var runs := OptimalSegments(stats, Windows(l, WindowLength(l, ValidRefine(l, refine))));
    (NetCorrelation(RecordsOf(stats, runs), P_THRESHOLD), runs)
  }

  /** Every granularity yields runs that tile 1..l and an estimate and an
      adjusted p-value in [0, 1]. */
  lemma GreedySearchSound(stats: Oracle, l: nat)
    requires l > MIN_SEGMENT_SIZE
    ensures forall refine: nat :: Tiles(GreedySearch(stats, l, refine).1, 1, l)
    ensures forall refine: nat ::
              0.0 <= GreedySearch(stats, l, refine).0.corEstimate <= 1.0
              && 0.0 <= GreedySearch(stats, l, refine).0.adjustedPValue <= 1.0
  {
    forall refine: nat
      ensures Tiles(GreedySearch(stats, l, refine).1, 1, l)
      ensures 0.0 <= GreedySearch(stats, l, refine).0.corEstimate <= 1.0
      ensures 0.0 <= GreedySearch(stats, l, refine).0.adjustedPValue <= 1.0
    {
      ValidRefineWindow(l, refine);
      var w := WindowLength(l, ValidRefine(l, refine));
      WindowsPartition(l, w);
      TilesNonEmpty(Windows(l, w), 1, l);
      OptimalSegmentsPartition(stats, Windows(l, w), l);
      var runs := OptimalSegments(stats, Windows(l, w));
      NetCorrelationBounds(RecordsOf(stats, runs), P_THRESHOLD);
    }
  }

  /** NlcorGreedySearch on data already sorted by x and indexed from 1. */
  method NlcorGreedySearch(stats: Oracle, l: nat, refine: nat) returns (netCor: NetCorResult, optimalSegments: seq<seq<int>>)
    requires l > MIN_SEGMENT_SIZE
    ensures (netCor, optimalSegments) == GreedySearch(stats, l, refine)
    ensures Tiles(optimalSegments, 1, l)
    ensures |netCor.segmentCor| == |optimalSegments|
    ensures 0.0 <= netCor.corEstimate <= 1.0 && 0.0 <= netCor.adjustedPValue <= 1.0
  {
    var s := ValidateRefine(l, refine);
    ValidRefineWindow(l, refine);
    var segments := Segment(l, WindowLength(l, s));
    var segmentsCor;
    optimalSegments, segmentsCor := MergeWindows(stats, segments);
    assert segmentsCor == RecordsOf(stats, optimalSegments);
    netCor := NetCor(segmentsCor, P_THRESHOLD);
    OptimalSegmentsPartition(stats, segments, l);
  }

  // ---------------------------------------------------------------------
  // nlcor: the search over granularities (lines 41-94)
  // ---------------------------------------------------------------------

  datatype Estimate = Estimate(cor: real, pValue: real)

  /** The best candidate so far; `best` is None when the whole-sequence
      coefficient is undefined (NaN), which no comparison can beat. */
  datatype Choice = Choice(best: Option<Estimate>, segments: seq<seq<int>>)

  /** `round(v, 2)` keeps a probability a probability. */
  ghost predicate RoundsProbabilities(round2: real -> real)
  {
    forall v :: 0.0 <= v <= 1.0 ==> 0.0 <= round2(v) <= 1.0
  }

  /** The starting candidate (lines 50-54): |r| of the whole sequence, its
      p-value rounded once, and the whole sequence as the only segment. An
      undefined coefficient leaves no estimate. */
  function Baseline(stats: Oracle, l: nat, round2: real -> real): (c: Choice)
    ensures c.best.Some? <==> stats(Interval(1, l)).Some?
    ensures c.best.Some? ==>
              c.best.value.cor == Abs(stats(Interval(1, l)).value.cor) && 0.0 <= c.best.value.cor <= 1.0
              && c.best.value.pValue == round2(stats(Interval(1, l)).value.p)
    ensures RoundsProbabilities(round2) && c.best.Some? ==> 0.0 <= c.best.value.pValue <= 1.0
    ensures l > 0 ==> Tiles(c.segments, 1, l)
  {
    var best := match stats(Interval(1, l))
                case None => None
                case Some(b) => Some(Estimate(Abs(b.cor), round2(b.p)));
    assert [Interval(1, l)][1..] == [];
    Choice(best, [Interval(1, l)])
  }

  /** The replacement test of line 62: rounded correlation strictly greater
      and rounded p-value no worse. The best is compared rounded, so a
      baseline p-value is rounded twice; nothing beats an undefined best,
      and a candidate never beats its own estimate. */
  function Improves(round2: real -> real, candidate: NetCorResult, best: Option<Estimate>): (better: bool)
    ensures best.None? ==> !better
    ensures best == Some(Estimate(candidate.corEstimate, candidate.adjustedPValue)) ==> !better
    ensures better ==>
              round2(candidate.corEstimate) > round2(best.value.cor)
              && round2(candidate.adjustedPValue) <= round2(best.value.pValue)
    ensures (best.Some?
             && round2(candidate.corEstimate) > round2(best.value.cor)
             && round2(candidate.adjustedPValue) <= round2(best.value.pValue)) ==> better
  {
    best.Some?
    && round2(candidate.corEstimate) > round2(best.value.cor)
    && round2(candidate.adjustedPValue) <= round2(best.value.pValue)
  }

  /** The outcome of one granularity of the ladder against the best so far
      (lines 62-70): the candidate replaces the best, estimate and partition
      together, only when it improves; the rounded estimate never drops and
      the rounded p-value never rises. */
  function Pick(round2: real -> real, current: Choice, candidate: (NetCorResult, seq<seq<int>>)): (c: Choice)
    ensures Improves(round2, candidate.0, current.best) ==>
              c == Choice(Some(Estimate(candidate.0.corEstimate, candidate.0.adjustedPValue)), candidate.1)
    ensures !Improves(round2, candidate.0, current.best) ==> c == current
    ensures c.best.Some? <==> current.best.Some?
    ensures current.best.Some? ==>
              round2(c.best.value.cor) >= round2(current.best.value.cor)
              && round2(c.best.value.pValue) <= round2(current.best.value.pValue)
  {
    if Improves(round2, candidate.0, current.best)
    then Choice(Some(Estimate(candidate.0.corEstimate, candidate.0.adjustedPValue)), candidate.1)
    else current
  }

  /** Offering the same granularity twice changes nothing. */
  lemma PickIdempotent(round2: real -> real, current: Choice, candidate: (NetCorResult, seq<seq<int>>))
    ensures Pick(round2, Pick(round2, current, candidate), candidate) == Pick(round2, current, candidate)
  {
    var c := Pick(round2, current, candidate);
    if c != current {
      assert c.best == Some(Estimate(candidate.0.corEstimate, candidate.0.adjustedPValue));
    }
  }

  /** The ladder as a left-to-right reduction over its candidates. */
  function Select(round2: real -> real, current: Choice, candidates: seq<(NetCorResult, seq<seq<int>>)>): Choice
    decreases |candidates|
  {
    if candidates == [] then current
    else Select(round2, Pick(round2, current, candidates[0]), candidates[1..])
  }

  /** `np.arange(start, stop, 0.01)` in hundredths: start, start + 1, ...,
      up to but excluding stop. */
  function Arange(start: nat, stop: nat): (r: seq<nat>)
    ensures |r| == if start < stop then stop - start else 0
    ensures forall i :: 0 <= i < |r| ==> r[i] == start + i
    decreases stop - start
  {
    if start >= stop then [] else [start] + Arange(start + 1, stop)
  }

  /** The granularities of the automatic ladder (line 56). */
  function Refinements(): (r: seq<nat>)
    ensures |r| == 15 && r[0] == 1 && r[14] == 15
  {
    Arange(LADDER_START, LADDER_STOP)
  }

  /** The greedy search at each granularity of the ladder, in ladder order.
      Every candidate's runs tile 1..l and its estimate and adjusted p-value
      lie in [0, 1]. */
  function Candidates(stats: Oracle, l: nat): (cs: seq<(NetCorResult, seq<seq<int>>)>)
    requires l > MIN_SEGMENT_SIZE
    ensures |cs| == |Refinements()|
    ensures forall i :: 0 <= i < |cs| ==>
              Tiles(cs[i].1, 1, l)
              && 0.0 <= cs[i].0.corEstimate <= 1.0 && 0.0 <= cs[i].0.adjustedPValue <= 1.0
  {
    GreedySearchSound(stats, l);
    var refinements := Refinements();
    seq(|refinements|, i requires 0 <= i < |refinements| => GreedySearch(stats, l, refinements[i]))
  }

  /** The ladder is monotone: the result is defined exactly when the start
      is, its rounded correlation is never lower and its rounded p-value
      never higher than the start's, and it is the start or one of the
      candidates, so its estimate and p-value lie in [0, 1] and its
      partition tiles 1..l when those of the start and the candidates do. */
  lemma {:induction false} SelectMonotone(round2: real -> real, current: Choice, candidates: seq<(NetCorResult, seq<seq<int>>)>, l: nat)
    requires Tiles(current.segments, 1, l)
    requires current.best.Some? ==> 0.0 <= current.best.value.cor <= 1.0 && 0.0 <= current.best.value.pValue <= 1.0
    requires forall i :: 0 <= i < |candidates| ==>
               Tiles(candidates[i].1, 1, l)
               && 0.0 <= candidates[i].0.corEstimate <= 1.0 && 0.0 <= candidates[i].0.adjustedPValue <= 1.0
    ensures var result := Select(round2, current, candidates);
            (result.best.Some? <==> current.best.Some?)
            && (result.best.Some? ==> 0.0 <= result.best.value.cor <= 1.0 && 0.0 <= result.best.value.pValue <= 1.0)
            && (current.best.Some? ==>
                  round2(result.best.value.cor) >= round2(current.best.value.cor)
                  && round2(result.best.value.pValue) <= round2(current.best.value.pValue))
            && Tiles(result.segments, 1, l)
    decreases |candidates|
  {
    if candidates != [] {
      assert forall i :: 0 <= i < |candidates[1..]| ==> candidates[1..][i] == candidates[i + 1];
      SelectMonotone(round2, Pick(round2, current, candidates[0]), candidates[1..], l);
    }
  }

  /** Ties keep the earlier candidate: when no candidate improves on the
      current best, the current best (and its partition) is kept. */
  lemma {:induction false} SelectKeepsUnbeaten(round2: real -> real, current: Choice, candidates: seq<(NetCorResult, seq<seq<int>>)>)
    requires forall i :: 0 <= i < |candidates| ==> !Improves(round2, candidates[i].0, current.best)
    ensures Select(round2, current, candidates) == current
    decreases |candidates|
  {
    if candidates != [] {
      assert forall i :: 0 <= i < |candidates[1..]| ==> candidates[1..][i] == candidates[i + 1];
      SelectKeepsUnbeaten(round2, current, candidates[1..]);
    }
  }

  /** The rounded part of SelectMonotone, for any candidates: the best
      stays defined exactly when it was, its rounded estimate never drops
      and its rounded p-value never rises. */
  lemma {:induction false} SelectNeverWorse(round2: real -> real, current: Choice, candidates: seq<(NetCorResult, seq<seq<int>>)>)
    ensures var result := Select(round2, current, candidates);
            (result.best.Some? <==> current.best.Some?)
            && (current.best.Some? ==>
                  round2(result.best.value.cor) >= round2(current.best.value.cor)
                  && round2(result.best.value.pValue) <= round2(current.best.value.pValue))
    decreases |candidates|
  {
    if candidates != [] {
      SelectNeverWorse(round2, Pick(round2, current, candidates[0]), candidates[1..]);
    }
  }

  /** The converse of SelectKeepsUnbeaten: when some candidate passes the
      test of line 62 against the starting best, the ladder ends strictly
      above the start in rounded estimate. */
  lemma {:induction false} SelectTakesImprovement(round2: real -> real, current: Choice, candidates: seq<(NetCorResult, seq<seq<int>>)>)
    requires exists i :: 0 <= i < |candidates| && Improves(round2, candidates[i].0, current.best)
    ensures var result := Select(round2, current, candidates);
            current.best.Some? && result.best.Some?
            && round2(result.best.value.cor) > round2(current.best.value.cor)
    decreases |candidates|
  {
    var i :| 0 <= i < |candidates| && Improves(round2, candidates[i].0, current.best);
    var picked := Pick(round2, current, candidates[0]);
    if Improves(round2, candidates[0].0, current.best) {
      SelectNeverWorse(round2, picked, candidates[1..]);
    } else {
      assert candidates[1..][i - 1] == candidates[i];
      SelectTakesImprovement(round2, picked, candidates[1..]);
    }
  }

  /** The candidate at ladder position `i` is the greedy search at the
      `i`-th granularity. */
  lemma CandidateAt(stats: Oracle, l: nat, i: nat)
    requires l > MIN_SEGMENT_SIZE && i < |Refinements()|
    ensures Candidates(stats, l)[i] == GreedySearch(stats, l, Refinements()[i])
  {
  }

  /** One step of the reduction, from candidate `k` on. */
  lemma SelectStep(round2: real -> real, current: Choice, candidates: seq<(NetCorResult, seq<seq<int>>)>, k: nat)
    requires k < |candidates|
    ensures Select(round2, current, candidates[k..]) == Select(round2, Pick(round2, current, candidates[k]), candidates[k + 1..])
  {
    assert candidates[k..][0] == candidates[k] && candidates[k..][1..] == candidates[k + 1..];
  }

  /** Position `i` of the ladder: its greedy search is the next candidate. */
  lemma LadderStep(stats: Oracle, l: nat, round2: real -> real, current: Choice, i: nat)
    requires l > MIN_SEGMENT_SIZE && i < |Refinements()|
    ensures Select(round2, current, Candidates(stats, l)[i..])
            == Select(round2, Pick(round2, current, GreedySearch(stats, l, Refinements()[i])), Candidates(stats, l)[i + 1..])
  {
    CandidateAt(stats, l, i);
    SelectStep(round2, current, Candidates(stats, l), i);
  }

  /** The ladder loop of nlcor (lines 56-70) over the granularities
      0.01 .. 0.15: run the greedy search at each and keep a candidate only
      when it improves on the best. */
  method Ladder(stats: Oracle, l: nat, round2: real -> real, start: Choice) returns (result: Choice)
    requires l > MIN_SEGMENT_SIZE
    ensures result == Select(round2, start, Candidates(stats, l))
  {
    ghost var candidates := Candidates(stats, l);
    assert candidates[0..] == candidates;
    var refinements := Refinements();
    result := start;
    for i := 0 to |refinements|
      invariant Select(round2, result, candidates[i..]) == Select(round2, start, candidates)
    {
      var refine := refinements[i];
      var greedyOutput, optimalSegments := NlcorGreedySearch(stats, l, refine);
      LadderStep(stats, l, round2, result, i);
      ghost var picked := Pick(round2, result, (greedyOutput, optimalSegments));
      if Improves(round2, greedyOutput, result.best) {
        // The candidate passes the test: take its estimate and partition.
        result := Choice(Some(Estimate(greedyOutput.corEstimate, greedyOutput.adjustedPValue)), optimalSegments);
      }
      assert result == picked;
    }
    assert candidates[|refinements|..] == [];
  }

  /** nlcor on data sorted by x: with no granularity given, run the ladder
      0.01 .. 0.15 from the baseline; with one given, run the greedy search
      once and take only its partition. Plotting is not modelled. */
  method Nlcor(stats: Oracle, l: nat, refine: Option<nat>, round2: real -> real) returns (result: Choice)
    requires l > MIN_SEGMENT_SIZE
    requires RoundsProbabilities(round2)
    ensures refine.None? ==> result == Select(round2, Baseline(stats, l, round2), Candidates(stats, l))
    ensures refine.Some? ==> result == Choice(Baseline(stats, l, round2).best, GreedySearch(stats, l, refine.value).1)
    ensures Tiles(result.segments, 1, l)
    ensures result.best.Some? <==> stats(Interval(1, l)).Some?
    ensures result.best.Some? ==> 0.0 <= result.best.value.cor <= 1.0 && 0.0 <= result.best.value.pValue <= 1.0
    ensures refine.None? && result.best.Some? ==>
              round2(result.best.value.cor) >= round2(Abs(stats(Interval(1, l)).value.cor))
              && round2(result.best.value.pValue) <= round2(round2(stats(Interval(1, l)).value.p))
    ensures refine.None?
            && (exists i :: 0 <= i < |Candidates(stats, l)| && Improves(round2, Candidates(stats, l)[i].0, Baseline(stats, l, round2).best)) ==>
              result.best.Some? && round2(result.best.value.cor) > round2(Abs(stats(Interval(1, l)).value.cor))
  {
    var baseline := Baseline(stats, l, round2);
    if refine.None? {
      result := Ladder(stats, l, round2, baseline);
      SelectMonotone(round2, baseline, Candidates(stats, l), l);
      if exists i :: 0 <= i < |Candidates(stats, l)| && Improves(round2, Candidates(stats, l)[i].0, baseline.best) {
        SelectTakesImprovement(round2, baseline, Candidates(stats, l));
      }
    } else {
      var greedyOutput, optimalSegments := NlcorGreedySearch(stats, l, refine.value);
      result := Choice(baseline.best, optimalSegments);
    }
  }
}
