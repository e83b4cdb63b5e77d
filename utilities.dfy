/** Model of nlcor's helpers (python/nlcor/utilities.py): the granularity
    check, the window partitioner, the NaN-safe segment statistic and the
    per-run statistic accumulator. */
module Utilities {
  import opened Intervals

  /** Every window must hold at least this many points. */
  const MIN_SEGMENT_SIZE: nat := 3

  datatype Option<+T> = None | Some(value: T)

  /** A Pearson coefficient and a p-value, with the ranges scipy guarantees. */
  type Cor = c: real | -1.0 <= c <= 1.0 witness 0.0
  type Prob = p: real | 0.0 <= p <= 1.0 witness 0.0

  datatype Pearson = Pearson(cor: Cor, p: Prob)

  /** `stats.pearsonr` on the (x, y) values at the given sorted positions.
      `None` stands for an undefined (NaN) coefficient, as happens when x or
      y is constant on the segment. The numerics are not modelled: the
      estimator is parametrised by this function. */
  type Oracle = seq<int> -> Option<Pearson>

  // ---------------------------------------------------------------------
  // ValidateRefine
  // ---------------------------------------------------------------------

  /** `floor(refine * l)` for a granularity of `refine` hundredths. */
  function WindowLength(l: nat, refine: nat): nat
  {
    refine * l / 100
  }

  /** The loop of ValidateRefine: raise the granularity one hundredth at a
      time until a window holds more than MIN_SEGMENT_SIZE points. */
  function RaiseRefine(l: nat, refine: nat): (r: nat)
    requires l > 0
    ensures refine <= r && WindowLength(l, r) > MIN_SEGMENT_SIZE
    decreases 400 - refine
  {
    if WindowLength(l, refine) > MIN_SEGMENT_SIZE then refine
    else
      SmallWindow(l, refine);
      RaiseRefine(l, refine + 1)
  }

  /** A window of at most MIN_SEGMENT_SIZE points means a granularity below 4. */
  lemma SmallWindow(l: nat, refine: nat)
    requires l > 0 && WindowLength(l, refine) <= MIN_SEGMENT_SIZE
    ensures refine < 400
  {
    assert refine * l < 400;
    assert refine <= refine * l;
  }

  /** The granularity ValidateRefine returns. */
  function ValidRefine(l: nat, refine: nat): nat
    requires l > 0
  {
    if WindowLength(l, refine) < MIN_SEGMENT_SIZE then RaiseRefine(l, refine) else refine
  }

  /** RaiseRefine stops at the first granularity whose window holds more
      than MIN_SEGMENT_SIZE points. */
  lemma {:induction false} RaiseRefineLeast(l: nat, refine: nat)
    requires l > 0
    ensures refine <= RaiseRefine(l, refine)
    ensures WindowLength(l, RaiseRefine(l, refine)) > MIN_SEGMENT_SIZE
    ensures forall k :: refine <= k < RaiseRefine(l, refine) ==> WindowLength(l, k) <= MIN_SEGMENT_SIZE
    decreases 400 - refine
  {
    if WindowLength(l, refine) <= MIN_SEGMENT_SIZE {
      SmallWindow(l, refine);
      RaiseRefineLeast(l, refine + 1);
    }
  }

  /** A coarser granularity never gives a shorter window. */
  lemma WindowLengthMono(l: nat, a: nat, b: nat)
    requires a <= b
    ensures WindowLength(l, a) <= WindowLength(l, b)
  {
    var d := b - a;
    assert b * l == a * l + d * l;
    assert 0 <= d * l;
  }

  /** With more than MIN_SEGMENT_SIZE points the validated window holds at
      least MIN_SEGMENT_SIZE points; a granularity of at most 1 stays at most
      1, and its window then fits in the data. */
  lemma ValidRefineWindow(l: nat, refine: nat)
    requires l > MIN_SEGMENT_SIZE
    ensures MIN_SEGMENT_SIZE <= WindowLength(l, ValidRefine(l, refine))
    ensures refine <= 100 ==> ValidRefine(l, refine) <= 100 && WindowLength(l, ValidRefine(l, refine)) <= l
  {
    var r := ValidRefine(l, refine);
    assert WindowLength(l, 100) == l;
    if WindowLength(l, refine) < MIN_SEGMENT_SIZE {
      RaiseRefineLeast(l, refine);
      if refine > 100 {
        WindowLengthMono(l, 100, refine);
      }
      assert r <= 100;
    }
    if refine <= 100 {
      WindowLengthMono(l, r, 100);
    }
  }

  /** ValidateRefine (utilities.py): granularities are whole hundredths, so
      `refine + 0.01` is `refine + 1`. A granularity whose window already
      holds MIN_SEGMENT_SIZE points is returned unchanged; otherwise the
      result is the least larger granularity whose window holds MORE than
      MIN_SEGMENT_SIZE points (the loop test is `<=`, the entry test `<`). */
  method ValidateRefine(l: nat, refine: nat) returns (r: nat)
    requires l > 0
    ensures r == ValidRefine(l, refine)
    ensures WindowLength(l, refine) >= MIN_SEGMENT_SIZE ==> r == refine
    ensures WindowLength(l, refine) < MIN_SEGMENT_SIZE ==>
              refine < r && WindowLength(l, r) > MIN_SEGMENT_SIZE
              && forall k :: refine <= k < r ==> WindowLength(l, k) <= MIN_SEGMENT_SIZE
  {
    r := refine;
    if WindowLength(l, r) < MIN_SEGMENT_SIZE {
      RaiseRefineLeast(l, refine);
      while WindowLength(l, r) <= MIN_SEGMENT_SIZE
        invariant refine <= r <= 400
        invariant RaiseRefine(l, r) == RaiseRefine(l, refine)
        decreases 400 - r
      {
        SmallWindow(l, r);
        r := r + 1;
      }
    }
  }

  // ---------------------------------------------------------------------
  // Segment
  // ---------------------------------------------------------------------

  /** The first `n` windows of length `w`: window i (0-based) holds the
      positions i*w+1 .. (i+1)*w. */
  function FullWindows(n: nat, w: nat): seq<seq<int>>
  {
    seq(n, i => Interval(i * w + 1, w))
  }

  /** The window lengths Segment can partition `l` points with: at least one
      full window, or a remainder long enough to stand alone (a window longer
      than the data then yields the single window `1..l`). */
  predicate Segmentable(l: nat, w: nat)
  {
    1 <= w && (w <= l || l > MIN_SEGMENT_SIZE)
  }

  /** The partition Segment produces, read as its comment intends: a short
      remainder (at most MIN_SEGMENT_SIZE points) is merged into the last
      full window, a longer one becomes a final window of its own. */
  function Windows(l: nat, w: nat): seq<seq<int>>
    requires Segmentable(l, w)
  {
    DivMod(l, w);
    var n, rem := l / w, l % w;
    if rem == 0 then FullWindows(n, w)
    else if rem <= MIN_SEGMENT_SIZE then FullWindows(n - 1, w) + [Interval((n - 1) * w + 1, w + rem)]
    else FullWindows(n, w) + [Interval(n * w + 1, rem)]
  }

  /** Euclidean division of the length by the window length. */
  lemma DivMod(l: nat, w: nat)
    requires 1 <= w
    ensures l == (l / w) * w + l % w && 0 <= l % w < w
    ensures w <= l ==> l / w >= 1
    ensures l < w ==> l / w == 0 && l % w == l
    ensures (l / w - 1) * w + w == (l / w) * w
  {
    if l < w {
      assert l / w == 0;
    }
  }

  lemma {:induction false} FullWindowsTile(n: nat, w: nat)
    requires w > 0
    ensures Tiles(FullWindows(n, w), 1, n * w)
  {
    if n > 0 {
      FullWindowsTile(n - 1, w);
      assert FullWindows(n, w) == FullWindows(n - 1, w) + [Interval((n - 1) * w + 1, w)];
      TilesAppend(FullWindows(n - 1, w), 1, (n - 1) * w, w);
    }
  }

  /** The windows tile `1..l`: they are contiguous, ordered, disjoint and
      cover every position exactly once. */
  lemma WindowsPartition(l: nat, w: nat)
    requires Segmentable(l, w)
    ensures Tiles(Windows(l, w), 1, l)
  {
    var n, rem := l / w, l % w;
    DivMod(l, w);
    if rem == 0 {
      FullWindowsTile(n, w);
    } else if rem <= MIN_SEGMENT_SIZE {
      var m := (n - 1) * w;
      assert m + (w + rem) == l;
      FullWindowsTile(n - 1, w);
      TilesAppend(FullWindows(n - 1, w), 1, m, w + rem);
      assert Windows(l, w) == FullWindows(n - 1, w) + [Interval(1 + m, w + rem)];
    } else {
      var m := n * w;
      FullWindowsTile(n, w);
      TilesAppend(FullWindows(n, w), 1, m, rem);
      assert Windows(l, w) == FullWindows(n, w) + [Interval(1 + m, rem)];
    }
  }

  /** One more full window: window `n` starts right after window `n - 1`. */
  lemma FullWindowsSnoc(n: nat, w: nat)
    ensures FullWindows(n + 1, w) == FullWindows(n, w) + [Interval(n * w + 1, w)]
    ensures n * w + w == (n + 1) * w
  {
    assert FullWindows(n + 1, w)[..n] == FullWindows(n, w);
  }

  /** The shape of the windows: full windows `i*w+1 .. (i+1)*w` up to the
      last one; `l / w` windows when the remainder is absorbed (none, or at
      most MIN_SEGMENT_SIZE points merged into the last window), one more
      for a longer remainder; and no window shorter than MIN_SEGMENT_SIZE
      when `w` is not. */
  lemma WindowsShape(l: nat, w: nat)
    requires Segmentable(l, w)
    ensures var segments := Windows(l, w);
            (forall i :: 0 <= i < |segments| - 1 ==> segments[i] == Interval(i * w + 1, w))
            && (l % w == 0 ==>
                  |segments| == l / w
                  && segments[|segments| - 1] == Interval((l / w - 1) * w + 1, w))
            && (0 < l % w <= MIN_SEGMENT_SIZE ==>
                  |segments| == l / w
                  && segments[|segments| - 1] == Interval((l / w - 1) * w + 1, w + l % w))
            && (l % w > MIN_SEGMENT_SIZE ==>
                  |segments| == l / w + 1
                  && segments[|segments| - 1] == Interval((l / w) * w + 1, l % w))
            && (MIN_SEGMENT_SIZE <= w ==> forall i :: 0 <= i < |segments| ==> |segments[i]| >= MIN_SEGMENT_SIZE)
  {
    DivMod(l, w);
  }

  /** Segment (utilities.py) with the window length passed directly. The
      first `l / w` windows are laid down by a loop; then a remainder of at
      most MIN_SEGMENT_SIZE points is merged into the last window, a longer
      one is appended as a final window. The result is `Windows`, whose
      shape WindowsShape states and which tiles `1..l` (WindowsPartition). */
  method Segment(l: nat, windowLen: nat) returns (segments: seq<seq<int>>)
    requires Segmentable(l, windowLen)
    ensures segments == Windows(l, windowLen)
    ensures Tiles(segments, 1, l)
  {
    var numSegments := l / windowLen;
    DivMod(l, windowLen);
    segments := [];
    var upp := windowLen;
    var low := 1;
    for i := 1 to numSegments + 1
      invariant low == (i - 1) * windowLen + 1 && upp == low + windowLen - 1
      invariant segments == FullWindows(i - 1, windowLen)
    {
      FullWindowsSnoc(i - 1, windowLen);
      segments := segments + [Interval(low, upp - low + 1)];
      low := upp + 1;
      upp := upp + windowLen;
    }
    if l % windowLen != 0 {
      var seg := Interval(low, l - low + 1);
      if |seg| <= MIN_SEGMENT_SIZE {
        // A short remainder extends the last full window in place (see README).
        FullWindowsSnoc(numSegments - 1, windowLen);
        IntervalSplit((numSegments - 1) * windowLen + 1, windowLen, |seg|);
        segments := segments[..numSegments - 1] + [segments[numSegments - 1] + seg];
      } else {
        segments := segments + [seg];
      }
    }
    WindowsPartition(l, windowLen);
  }

  /** Line 33 of utilities.py as written: the merged remainder is inserted
      as an EXTRA element after the full windows, so the last full window is
      kept as well. The inserted element is itself wrapped in a list; it is
      read here as the positions it names. */
  function SegmentAsWritten(l: nat, w: nat): seq<seq<int>>
    requires 1 <= w <= l
  {
    var n, rem := l / w, l % w;
    var full := FullWindows(n, w);
    if rem == 0 then full
    else if rem <= MIN_SEGMENT_SIZE then full + [full[n - 1] + Interval(n * w + 1, rem)]
    else full + [Interval(n * w + 1, rem)]
  }

  /** With 11 points and windows of 4, the as-written partition names
      positions 5..8 twice: 15 positions in all instead of 11, so it is not
      a partition of 1..11. The intended reading is. */
  lemma SegmentAsWrittenOverlaps()
    ensures |Concat(SegmentAsWritten(11, 4))| == 15
    ensures !Tiles(SegmentAsWritten(11, 4), 1, 11)
    ensures Tiles(Windows(11, 4), 1, 11)
  {
    var s := SegmentAsWritten(11, 4);
    assert s == [Interval(1, 4), Interval(5, 4), Interval(5, 4) + Interval(9, 3)];
    assert Concat(s) == Interval(1, 4) + (Interval(5, 4) + (Interval(5, 4) + Interval(9, 3) + []));
    if Tiles(s, 1, 11) {
      TilesConcat(s, 1, 11);
    }
    WindowsPartition(11, 4);
  }

  // ---------------------------------------------------------------------
  // SegmentCorrelation
  // ---------------------------------------------------------------------

  /** SegmentCorrelation (utilities.py): the oracle's statistic, except that
      an undefined coefficient reads as "no correlation, no evidence". */
  function SegmentCorrelation(stats: Oracle, seg: seq<int>): (r: Pearson)
    ensures stats(seg) == None ==> r == Pearson(0.0, 1.0)
    ensures stats(seg) != None ==> r == stats(seg).value
  {
    match stats(seg)
    case None => Pearson(0.0, 1.0)
    case Some(s) => s
  }

  // ---------------------------------------------------------------------
  // UpdateSegmentsCor
  // ---------------------------------------------------------------------

  /** The `segmentsCor` record the greedy search threads through its loop:
      one raw `pearsonr` result per finalized run, in order. */
  class SegmentsCor {
    var entries: seq<Option<Pearson>>

    constructor ()
      ensures entries == []
    {
      entries := [];
    }

    /** UpdateSegmentsCor, read as the accumulator the aggregator needs:
        exactly one more entry, earlier entries untouched. The statistic is
        the raw oracle result (no NaN mapping, as in the source). */
    method UpdateSegmentsCor(stats: Oracle, seg: seq<int>)
      modifies this
      ensures entries == old(entries) + [stats(seg)]
      ensures |entries| == |old(entries)| + 1 && entries[..|old(entries)|] == old(entries)
    {
      entries := entries + [stats(seg)];
    }
  }

  /** UpdateSegmentsCor as written: a running sum of coefficients and of
      p-values, held in one slot (`None` before the first call). */
  function UpdateSegmentsCorAsWritten(acc: Option<(real, real)>, segcor: Pearson): (real, real)
  {
    match acc
    case None => (segcor.cor, segcor.p)
    case Some(sum) => (sum.0 + segcor.cor, sum.1 + segcor.p)
  }

  /** Two finalized runs of opposite, significant correlation (0.5 and -0.5,
      each with p = 0.01) leave one entry (0, 0.02) behind: the two runs
      cancel, where the list reading keeps both. */
  lemma RunningSumCancels()
    ensures UpdateSegmentsCorAsWritten(Some(UpdateSegmentsCorAsWritten(None, Pearson(0.5, 0.01))), Pearson(-0.5, 0.01)) == (0.0, 0.02)
  {
  }
}
