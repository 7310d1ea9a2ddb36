/** Masked intensity histograms and the "first bin whose running sum passes
    a percentage of the mass" search, shared by the auto-exposure
    controller (autoexpose.cpp) and the percentile colour thresholds
    (src/multichannelviewer.cpp). */
module Histograms {

  datatype Option<T> = None | Some(value: T)

  /** Bins of the 12-bit intensity histograms (`int Histogram[4096]`). */
  const BINS: int := 4096

  function Zeros(n: nat): (z: seq<int>)
    ensures |z| == n && forall i | 0 <= i < n :: z[i] == 0
  {
    seq(n, _ => 0)
  }

  /** The histogram over `bins` bins of the values whose `keep` flag is set:
      it is built pixel by pixel, bumping bin `values[i]` whenever `keep[i]`. */
  function Histogram(values: seq<int>, keep: seq<bool>, bins: nat): (hist: seq<int>)
    requires |values| == |keep|
    requires forall i | 0 <= i < |values| && keep[i] :: 0 <= values[i] < bins
    ensures |hist| == bins
    ensures forall v | 0 <= v < bins :: hist[v] >= 0
    decreases |values|
  {
    if |values| == 0 then Zeros(bins)
    else
      var n := |values| - 1;
      var h := Histogram(values[..n], keep[..n], bins);
      if keep[n] then h[values[n] := h[values[n]] + 1] else h
  }

  /** The number of set flags (the source's `pixel_count`). */
  function Kept(keep: seq<bool>): (n: nat)
    ensures n <= |keep|
    decreases |keep|
  {
    if |keep| == 0 then 0
    else Kept(keep[..|keep| - 1]) + (if keep[|keep| - 1] then 1 else 0)
  }

  /** The number of set flags is the number of positions holding one. */
  lemma {:induction false} KeptCountsPositions(keep: seq<bool>)
    ensures Kept(keep) == |set i | 0 <= i < |keep| && keep[i]|
    decreases |keep|
  {
    var all := set i | 0 <= i < |keep| && keep[i];
    if |keep| == 0 {
      assert all == {};
    } else {
      var n := |keep| - 1;
      var init := keep[..n];
      KeptCountsPositions(init);
      var before := set i | 0 <= i < |init| && init[i];
      if keep[n] {
        assert all == before + {n};
      } else {
        assert all == before;
      }
    }
  }

  /** The sum of `hist[lo..hi)`. */
  function RangeSum(hist: seq<int>, lo: int, hi: int): int
    requires 0 <= lo && hi <= |hist|
    decreases hi - lo
  {
    if hi <= lo then 0 else RangeSum(hist, lo, hi - 1) + hist[hi - 1]
  }

  lemma {:induction false} RangeSumZeros(n: nat, lo: nat, hi: int)
    requires hi <= n
    ensures RangeSum(Zeros(n), lo, hi) == 0
    decreases hi - lo
  {
    if lo < hi {
      RangeSumZeros(n, lo, hi - 1);
    }
  }

  /** Bumping one bin by `d` changes every range sum that covers it by `d`. */
  lemma {:induction false} RangeSumUpdate(hist: seq<int>, lo: int, hi: int, v: int, d: int)
    requires 0 <= lo && hi <= |hist| && 0 <= v < |hist|
    ensures RangeSum(hist[v := hist[v] + d], lo, hi)
            == RangeSum(hist, lo, hi) + (if lo <= v < hi then d else 0)
    decreases hi - lo
  {
    if lo < hi {
      RangeSumUpdate(hist, lo, hi - 1, v, d);
    }
  }

  /** With no negative bin, a range sum only grows as the range grows. */
  lemma {:induction false} RangeSumMonotone(hist: seq<int>, lo: int, hi: int, hi': int)
    requires 0 <= lo && hi <= hi' <= |hist|
    requires forall v | 0 <= v < |hist| :: hist[v] >= 0
    ensures RangeSum(hist, lo, hi) <= RangeSum(hist, lo, hi')
    decreases hi' - hi
  {
    if hi < hi' {
      RangeSumMonotone(hist, lo, hi, hi' - 1);
    }
  }

  /** The bins of a masked histogram add up to the number of kept pixels:
      both histograms of a joint pass sum to `pixel_count`. */
  lemma {:induction false} HistogramTotal(values: seq<int>, keep: seq<bool>, bins: nat)
    requires |values| == |keep|
    requires forall i | 0 <= i < |values| && keep[i] :: 0 <= values[i] < bins
    ensures RangeSum(Histogram(values, keep, bins), 0, bins) == Kept(keep)
    decreases |values|
  {
    if |values| == 0 {
      RangeSumZeros(bins, 0, bins);
    } else {
      var n := |values| - 1;
      assert keep[..n] == keep[..|keep| - 1];
      HistogramTotal(values[..n], keep[..n], bins);
      if keep[n] {
        RangeSumUpdate(Histogram(values[..n], keep[..n], bins), 0, bins, values[n], 1);
      }
    }
  }

  /** A range sum splits at any point in between. */
  lemma {:induction false} RangeSumSplit(hist: seq<int>, lo: int, mid: int, hi: int)
    requires 0 <= lo <= mid <= hi <= |hist|
    ensures RangeSum(hist, lo, hi) == RangeSum(hist, lo, mid) + RangeSum(hist, mid, hi)
    decreases hi - mid
  {
    if mid < hi {
      RangeSumSplit(hist, lo, mid, hi - 1);
    }
  }

  /** Empty bins add nothing. */
  lemma {:induction false} RangeSumEmptyBins(hist: seq<int>, lo: int, hi: int)
    requires 0 <= lo && hi <= |hist|
    requires forall v | lo <= v < hi :: hist[v] == 0
    ensures RangeSum(hist, lo, hi) == 0
    decreases hi - lo
  {
    if lo < hi {
      RangeSumEmptyBins(hist, lo, hi - 1);
    }
  }

  /** When no flag is set, no pixel is kept. */
  lemma {:induction false} KeptNone(keep: seq<bool>)
    requires Kept(keep) == 0
    ensures forall i | 0 <= i < |keep| :: !keep[i]
    decreases |keep|
  {
    if |keep| > 0 {
      KeptNone(keep[..|keep| - 1]);
      assert forall i | 0 <= i < |keep| - 1 :: keep[..|keep| - 1][i] == keep[i];
    }
  }

  /** The histogram of the first n values: the state of a pixel loop after
      n pixels. */
  function HistogramUpTo(values: seq<int>, keep: seq<bool>, bins: nat, n: nat): (hist: seq<int>)
    requires |values| == |keep| && n <= |values|
    requires forall i | 0 <= i < |values| && keep[i] :: 0 <= values[i] < bins
    ensures |hist| == bins
    decreases n
  {
    if n == 0 then Zeros(bins)
    else
      var h := HistogramUpTo(values, keep, bins, n - 1);
      if keep[n - 1] then h[values[n - 1] := h[values[n - 1]] + 1] else h
  }

  lemma {:induction false} HistogramUpToPrefix(values: seq<int>, keep: seq<bool>, bins: nat, n: nat)
    requires |values| == |keep| && n <= |values|
    requires forall i | 0 <= i < |values| && keep[i] :: 0 <= values[i] < bins
    ensures HistogramUpTo(values, keep, bins, n) == Histogram(values[..n], keep[..n], bins)
    decreases n
  {
    if n > 0 {
      HistogramUpToPrefix(values, keep, bins, n - 1);
      assert values[..n][..n - 1] == values[..n - 1];
      assert keep[..n][..n - 1] == keep[..n - 1];
    }
  }

  /** After the last value the loop holds the whole masked histogram. */
  lemma HistogramUpToAll(values: seq<int>, keep: seq<bool>, bins: nat)
    requires |values| == |keep|
    requires forall i | 0 <= i < |values| && keep[i] :: 0 <= values[i] < bins
    ensures HistogramUpTo(values, keep, bins, |values|) == Histogram(values, keep, bins)
  {
    HistogramUpToPrefix(values, keep, bins, |values|);
    assert values[..|values|] == values;
    assert keep[..|values|] == keep;
  }

  /** Likewise the count of kept flags. */
  lemma KeptPush(keep: seq<bool>, i: int)
    requires 0 <= i < |keep|
    ensures Kept(keep[..i + 1]) == Kept(keep[..i]) + if keep[i] then 1 else 0
  {
    assert keep[..i + 1][..i] == keep[..i];
  }

  /** A bin that no kept value falls in stays empty: when every kept value
      lies in [lo, hi), every bin outside it is 0. */
  lemma {:induction false} HistogramOutside(values: seq<int>, keep: seq<bool>, bins: nat, lo: int, hi: int)
    requires |values| == |keep|
    requires forall i | 0 <= i < |values| && keep[i] :: 0 <= values[i] < bins
    requires forall i | 0 <= i < |values| && keep[i] :: lo <= values[i] < hi
    ensures forall v | 0 <= v < bins && !(lo <= v < hi) :: Histogram(values, keep, bins)[v] == 0
    decreases |values|
  {
    if |values| > 0 {
      var n := |values| - 1;
      assert forall i | 0 <= i < n :: values[..n][i] == values[i] && keep[..n][i] == keep[i];
      HistogramOutside(values[..n], keep[..n], bins, lo, hi);
    }
  }

  /** The running sum of `hist[lo..k]` is more than `pct` percent of `total`
      (the source's `sum / pixel_count > pct / 100`, in exact arithmetic). */
  predicate Exceeds(hist: seq<int>, lo: int, k: int, total: int, pct: int)
    requires 0 <= lo && k < |hist|
  {
    100 * RangeSum(hist, lo, k + 1) > pct * total
  }

  /** The scan `for k in [cursor, hi): sum += hist[k]; if (passes) break;`
      started at `cursor` with the sum of `hist[lo..cursor)` already taken. */
  function SearchFrom(hist: seq<int>, lo: int, cursor: int, hi: int, total: int, pct: int): (r: Option<int>)
    requires 0 <= lo <= cursor && hi <= |hist|
    ensures r.Some? ==> cursor <= r.value < hi && Exceeds(hist, lo, r.value, total, pct)
    ensures forall j | cursor <= j < hi && (r.None? || j < r.value) :: !Exceeds(hist, lo, j, total, pct)
    decreases hi - cursor
  {
    if cursor >= hi then None
    else if Exceeds(hist, lo, cursor, total, pct) then Some(cursor)
    else SearchFrom(hist, lo, cursor + 1, hi, total, pct)
  }

  /** The first k in [lo, hi) whose running sum from `lo` passes `pct`
      percent of `total`, if there is one. */
  function FirstCrossing(hist: seq<int>, lo: int, hi: int, total: int, pct: int): (r: Option<int>)
    requires 0 <= lo && hi <= |hist|
    ensures r.Some? ==> lo <= r.value < hi && Exceeds(hist, lo, r.value, total, pct)
    ensures forall j | lo <= j < hi && (r.None? || j < r.value) :: !Exceeds(hist, lo, j, total, pct)
  {
    SearchFrom(hist, lo, lo, hi, total, pct)
  }

  /** The two properties above single the first crossing out. */
  lemma FirstCrossingUnique(hist: seq<int>, lo: int, hi: int, total: int, pct: int, r: Option<int>)
    requires 0 <= lo && hi <= |hist|
    requires r.Some? ==> lo <= r.value < hi && Exceeds(hist, lo, r.value, total, pct)
    requires forall j | lo <= j < hi && (r.None? || j < r.value) :: !Exceeds(hist, lo, j, total, pct)
    ensures r == FirstCrossing(hist, lo, hi, total, pct)
  {
  }

  /** Scanning one more bin: the first crossing in [lo, hi+1) is the one in
      [lo, hi) if any, else `hi` itself when it passes. */
  lemma FirstCrossingExtend(hist: seq<int>, lo: int, hi: int, total: int, pct: int)
    requires 0 <= lo <= hi < |hist|
    ensures FirstCrossing(hist, lo, hi + 1, total, pct)
            == (if FirstCrossing(hist, lo, hi, total, pct).Some? then FirstCrossing(hist, lo, hi, total, pct)
                else if Exceeds(hist, lo, hi, total, pct) then Some(hi)
                else None)
  {
    var f := FirstCrossing(hist, lo, hi, total, pct);
    var r := if f.Some? then f else if Exceeds(hist, lo, hi, total, pct) then Some(hi) else None;
    FirstCrossingUnique(hist, lo, hi + 1, total, pct, r);
  }

  /** A larger percentage is never passed earlier: if `pct'` is passed at
      some bin, a smaller `pct` is passed at that bin or before. */
  lemma FirstCrossingOrdered(hist: seq<int>, lo: int, hi: int, total: int, pct: int, pct': int)
    requires 0 <= lo && hi <= |hist|
    requires 0 <= total && pct <= pct'
    requires FirstCrossing(hist, lo, hi, total, pct').Some?
    ensures FirstCrossing(hist, lo, hi, total, pct).Some?
    ensures FirstCrossing(hist, lo, hi, total, pct).value <= FirstCrossing(hist, lo, hi, total, pct').value
  {
    var b := FirstCrossing(hist, lo, hi, total, pct').value;
    assert pct * total <= pct' * total by {
      assert (pct' - pct) * total >= 0;
    }
    assert Exceeds(hist, lo, b, total, pct);
  }

  /** When the scanned bins hold all of a positive total and `pct` is below
      100, some bin is passed: the last one at the latest. */
  lemma FirstCrossingFound(hist: seq<int>, lo: int, hi: int, total: int, pct: int)
    requires 0 <= lo < hi <= |hist|
    requires RangeSum(hist, lo, hi) == total > 0 && pct < 100
    ensures FirstCrossing(hist, lo, hi, total, pct).Some?
  {
    assert Exceeds(hist, lo, hi - 1, total, pct);
  }
}
