/** Index ranges over the 1-based positions of the data sorted by x.
    A segment is a list of positions; the estimator only ever builds
    segments that are runs of consecutive positions, and a partition of
    `1..l` is a list of such runs laid end to end. */
module Intervals {

  /** The `len` consecutive positions starting at `start`: Python's
      `list(range(start, start + len))`. */
  function Interval(start: int, len: nat): (s: seq<int>)
  {
    seq(len, k => start + k)
  }

  /** Flattening of a list of segments, in order. */
  function Concat(parts: seq<seq<int>>): seq<int>
  {
    if parts == [] then [] else parts[0] + Concat(parts[1..])
  }

  /** `parts` lays non-empty runs of consecutive positions end to end,
      starting at `start` and covering `len` positions in all. */
  predicate Tiles(parts: seq<seq<int>>, start: int, len: nat)
    decreases |parts|
  {
    if parts == [] then len == 0
    else
      0 < |parts[0]| <= len
      && parts[0] == Interval(start, |parts[0]|)
      && Tiles(parts[1..], start + |parts[0]|, len - |parts[0]|)
  }

  lemma IntervalSplit(start: int, a: nat, b: nat)
    ensures Interval(start, a + b) == Interval(start, a) + Interval(start + a, b)
  {
    assert Interval(start, a + b) == Interval(start, a) + Interval(start + a, b);
  }

  lemma {:induction false} ConcatAppend(parts: seq<seq<int>>, last: seq<int>)
    ensures Concat(parts + [last]) == Concat(parts) + last
  {
    if parts == [] {
      assert [last][1..] == [];
    } else {
      assert (parts + [last])[1..] == parts[1..] + [last];
      ConcatAppend(parts[1..], last);
    }
  }

  /** Flattening the first `k + 1` parts is the first part followed by the
      next `k` parts. */
  lemma ConcatPrefix(parts: seq<seq<int>>, k: nat)
    requires k < |parts|
    ensures Concat(parts[..k + 1]) == parts[0] + Concat(parts[1..][..k])
  {
    assert parts[..k + 1][0] == parts[0] && parts[..k + 1][1..] == parts[1..][..k];
  }

  /** A tiling covers exactly the positions `start .. start + len - 1`, in order. */
  lemma {:induction false} TilesConcat(parts: seq<seq<int>>, start: int, len: nat)
    requires Tiles(parts, start, len)
    ensures Concat(parts) == Interval(start, len)
    decreases |parts|
  {
    if parts != [] {
      var k := |parts[0]|;
      TilesConcat(parts[1..], start + k, len - k);
      IntervalSplit(start, k, len - k);
    }
  }

  /** Conversely, non-empty segments whose concatenation is a range of
      consecutive positions tile that range. */
  lemma {:induction false} ConcatTiles(parts: seq<seq<int>>, start: int, len: nat)
    requires Concat(parts) == Interval(start, len)
    requires forall i :: 0 <= i < |parts| ==> |parts[i]| > 0
    ensures Tiles(parts, start, len)
    decreases |parts|
  {
    if parts != [] {
      var k := |parts[0]|;
      assert |Concat(parts)| == k + |Concat(parts[1..])|;
      IntervalSplit(start, k, len - k);
      var whole := Interval(start, len);
      assert parts[0] == whole[..k];
      assert Concat(parts[1..]) == whole[k..];
      ConcatTiles(parts[1..], start + k, len - k);
    }
  }

  /** Every position of a tiling lies in the tiled range. */
  lemma {:induction false} TilesWithin(parts: seq<seq<int>>, start: int, len: nat, i: nat, a: nat)
    requires Tiles(parts, start, len)
    requires i < |parts| && a < |parts[i]|
    ensures start <= parts[i][a] < start + len
    decreases |parts|
  {
    if i > 0 {
      TilesWithin(parts[1..], start + |parts[0]|, len - |parts[0]|, i - 1, a);
    }
  }

  /** The segments of a tiling are ordered and disjoint: every position of
      an earlier segment is smaller than every position of a later one. */
  lemma {:induction false} TilesOrdered(parts: seq<seq<int>>, start: int, len: nat, i: nat, j: nat, a: nat, b: nat)
    requires Tiles(parts, start, len)
    requires i < j < |parts| && a < |parts[i]| && b < |parts[j]|
    ensures parts[i][a] < parts[j][b]
    decreases |parts|
  {
    var k := |parts[0]|;
    if i == 0 {
      TilesWithin(parts[1..], start + k, len - k, j - 1, b);
    } else {
      TilesOrdered(parts[1..], start + k, len - k, i - 1, j - 1, a, b);
    }
  }

  /** Each segment of a tiling starts right after the previous one ends. */
  lemma {:induction false} TilesAdjacent(parts: seq<seq<int>>, start: int, len: nat, i: nat)
    requires Tiles(parts, start, len)
    requires i + 1 < |parts|
    ensures 0 < |parts[i]| && 0 < |parts[i + 1]|
    ensures parts[i + 1][0] == parts[i][|parts[i]| - 1] + 1
    decreases |parts|
  {
    if i > 0 {
      TilesAdjacent(parts[1..], start + |parts[0]|, len - |parts[0]|, i - 1);
    }
  }

  /** Appending a run that starts where a tiling ends extends the tiling. */
  lemma {:induction false} TilesAppend(parts: seq<seq<int>>, start: int, len: nat, extra: nat)
    requires Tiles(parts, start, len)
    requires extra > 0
    ensures Tiles(parts + [Interval(start + len, extra)], start, len + extra)
    decreases |parts|
  {
    var last := Interval(start + len, extra);
    if parts == [] {
      assert ([] + [last])[1..] == [];
    } else {
      assert (parts + [last])[1..] == parts[1..] + [last];
      TilesAppend(parts[1..], start + |parts[0]|, len - |parts[0]|, extra);
    }
  }
}
