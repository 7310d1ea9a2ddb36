/** The percentile false-colour mapping of the infrared frame
    (`renderFrame_NIR_Cam` in src/multichannelviewer.cpp): samples above the
    calibrated threshold are binned, five thresholds are placed where the
    running count passes 17, 34, 51, 68 and 85 percent of them, and every
    sample is painted one of seven flat colours by the band it falls in.
    The double-precision ratio tests are modelled as exact integer
    comparisons (`100 * sum > 17 * pixel_count`). */
module NirFalseColour {
  import opened Frames
  import opened Histograms

  /** Entries of `int Histogram_NIR[65535]`: a sample of 65535 does not fit. */
  const NIR_BINS: int := 65535

  /** The j-th threshold after `thresh1` (j = 0 .. 4, i.e. thresh2 .. thresh6)
      is placed at 17 (j + 1) percent of the counted samples. */
  function Percent(j: nat): (p: int)
    requires j < 5
    ensures 17 <= p <= 85 && p % 17 == 0
  {
    17 * (j + 1)
  }

  // ---------------------------------------------------------------------
  // The histogram of samples above the calibrated threshold

  /** Which samples are counted: those strictly above `tc`. */
  function AboveThreshold(raw: seq<u16>, tc: int): (keep: seq<bool>)
    ensures |keep| == |raw| && forall i | 0 <= i < |raw| :: keep[i] <==> raw[i] > tc
  {
    seq(|raw|, i requires 0 <= i < |raw| => raw[i] > tc)
  }

  /** Every counted sample has a bin. */
  predicate CountedFit(raw: seq<u16>, tc: int)
  {
    forall i | 0 <= i < |raw| && raw[i] > tc :: raw[i] < NIR_BINS
  }

  function NirHistogram(raw: seq<u16>, tc: int): (hist: seq<int>)
    requires CountedFit(raw, tc)
    ensures |hist| == NIR_BINS
  {
    Histogram(raw, AboveThreshold(raw, tc), NIR_BINS)
  }

  /** `pixel_count`: the counted samples, including those above 4095 that
      the threshold scan never reaches. */
  function NirCount(raw: seq<u16>, tc: int): nat
  {
    Kept(AboveThreshold(raw, tc))
  }

  /** `pixel_count` is the number of samples above `thresh_calibrated`. */
  lemma NirCountAbove(raw: seq<u16>, tc: int)
    ensures NirCount(raw, tc) == |set i | 0 <= i < |raw| && raw[i] > tc|
  {
    var keep := AboveThreshold(raw, tc);
    KeptCountsPositions(keep);
    assert (set i | 0 <= i < |keep| && keep[i]) == set i | 0 <= i < |raw| && raw[i] > tc;
  }

  // ---------------------------------------------------------------------
  // Threshold placement

  /** The first bin of [tc + 1, hi) where the running sum from tc + 1 passes
      the j-th percentage of `pc`. */
  function Crossing(hist: seq<int>, tc: int, pc: int, j: nat, hi: int): Option<int>
    requires |hist| == NIR_BINS && -1 <= tc && hi <= NIR_BINS && j < 5
  {
    FirstCrossing(hist, tc + 1, hi, pc, Percent(j))
  }

  /** The j-th threshold after scanning the bins of [tc + 1, hi): found at
      the j-th crossing, and then pushed one past the previous threshold
      when that one is not below it, so that the thresholds increase. */
  function Threshold(hist: seq<int>, tc: int, pc: int, j: nat, hi: int): (t: Option<int>)
    requires |hist| == NIR_BINS && -1 <= tc && hi <= NIR_BINS && j < 5 && 0 <= pc
    ensures t.Some? <==> Crossing(hist, tc, pc, j, hi).Some?
    ensures t.Some? ==> Crossing(hist, tc, pc, j, hi).value <= t.value
    decreases j
  {
    var c := Crossing(hist, tc, pc, j, hi);
    if c.None? then None
    else if j == 0 then c
    else
      FirstCrossingOrdered(hist, tc + 1, hi, pc, Percent(j - 1), Percent(j));
      var p := Threshold(hist, tc, pc, j - 1, hi);
      Some(if p.value >= c.value then p.value + 1 else c.value)
  }

  /** A threshold is only found once the one before it is, and then lies
      strictly above it; the first lies strictly above `tc`. */
  lemma ThresholdsIncrease(hist: seq<int>, tc: int, pc: int, j: nat, hi: int)
    requires |hist| == NIR_BINS && -1 <= tc && hi <= NIR_BINS && j < 5 && 0 <= pc
    requires Threshold(hist, tc, pc, j, hi).Some?
    ensures j == 0 ==> tc < Threshold(hist, tc, pc, j, hi).value
    ensures j > 0 ==> Threshold(hist, tc, pc, j - 1, hi).Some? &&
                      Threshold(hist, tc, pc, j - 1, hi).value < Threshold(hist, tc, pc, j, hi).value
  {
    if j > 0 {
      FirstCrossingOrdered(hist, tc + 1, hi, pc, Percent(j - 1), Percent(j));
    }
  }

  /** The tie-break moves a threshold at most j bins past its crossing. */
  lemma {:induction false} ThresholdNearCrossing(hist: seq<int>, tc: int, pc: int, j: nat, hi: int)
    requires |hist| == NIR_BINS && -1 <= tc && hi <= NIR_BINS && j < 5 && 0 <= pc
    requires Threshold(hist, tc, pc, j, hi).Some?
    ensures Threshold(hist, tc, pc, j, hi).value <= Crossing(hist, tc, pc, j, hi).value + j
    decreases j
  {
    if j > 0 {
      FirstCrossingOrdered(hist, tc + 1, hi, pc, Percent(j - 1), Percent(j));
      ThresholdNearCrossing(hist, tc, pc, j - 1, hi);
    }
  }

  /** Scanning bin k (tc + 1 <= k < 4096) after [tc + 1, k): a found
      threshold stays as it is. */
  lemma {:induction false} ThresholdKept(hist: seq<int>, tc: int, pc: int, j: nat, k: int)
    requires |hist| == NIR_BINS && -1 <= tc && tc + 1 <= k < BINS && j < 5 && 0 <= pc
    requires Threshold(hist, tc, pc, j, k).Some?
    ensures Threshold(hist, tc, pc, j, k + 1) == Threshold(hist, tc, pc, j, k)
    decreases j
  {
    FirstCrossingExtend(hist, tc + 1, k, pc, Percent(j));
    if j > 0 {
      ThresholdsIncrease(hist, tc, pc, j, k);
      ThresholdKept(hist, tc, pc, j - 1, k);
    }
  }

  /** Scanning bin k after [tc + 1, k): an unfound threshold is found at k
      exactly when the running sum through k passes its percentage, and it
      is then k or one past the previous threshold as updated at k. */
  lemma ThresholdFound(hist: seq<int>, tc: int, pc: int, j: nat, k: int)
    requires |hist| == NIR_BINS && -1 <= tc && tc + 1 <= k < BINS && j < 5 && 0 <= pc
    requires Threshold(hist, tc, pc, j, k).None?
    ensures Threshold(hist, tc, pc, j, k + 1).Some? <==> Exceeds(hist, tc + 1, k, pc, Percent(j))
    ensures Exceeds(hist, tc + 1, k, pc, Percent(j)) && j == 0 ==>
              Threshold(hist, tc, pc, j, k + 1) == Some(k)
    ensures Exceeds(hist, tc + 1, k, pc, Percent(j)) && j > 0 ==>
              Threshold(hist, tc, pc, j - 1, k + 1).Some? &&
              Threshold(hist, tc, pc, j, k + 1) ==
                Some(if Threshold(hist, tc, pc, j - 1, k + 1).value >= k
                     then Threshold(hist, tc, pc, j - 1, k + 1).value + 1 else k)
  {
    FirstCrossingExtend(hist, tc + 1, k, pc, Percent(j));
    if j > 0 && Exceeds(hist, tc + 1, k, pc, Percent(j)) {
      FirstCrossingOrdered(hist, tc + 1, k + 1, pc, Percent(j - 1), Percent(j));
    }
  }

  /** One bin of the integration loop for threshold j: `sum` is the running
      sum through bin k, `t` the threshold before bin k and `prev` the
      previous threshold after bin k. The threshold after bin k is `t` if
      it was found, else the first-found value when the sum passes the
      percentage, else still unfound; the previous threshold is then found. */
  lemma Advance(hist: seq<int>, tc: int, pc: int, j: nat, k: int, sum: int, t: Option<int>, prev: Option<int>)
    requires |hist| == NIR_BINS && -1 <= tc && tc + 1 <= k < BINS && j < 5 && 0 <= pc
    requires sum == RangeSum(hist, tc + 1, k + 1)
    requires t == Threshold(hist, tc, pc, j, k)
    requires j > 0 ==> prev == Threshold(hist, tc, pc, j - 1, k + 1)
    ensures t.None? && 100 * sum > Percent(j) * pc && j > 0 ==> prev.Some?
    ensures Threshold(hist, tc, pc, j, k + 1) ==
              if t.None? && 100 * sum > Percent(j) * pc then
                Some(if j == 0 then k else if prev.value >= k then prev.value + 1 else k)
              else t
  {
    if t.Some? {
      ThresholdKept(hist, tc, pc, j, k);
    } else {
      ThresholdFound(hist, tc, pc, j, k);
    }
  }

  /** When every counted sample is below 4096 and there is at least one,
      all five thresholds are found. */
  lemma AllFoundWhen12Bit(hist: seq<int>, tc: int, pc: int, j: nat)
    requires |hist| == NIR_BINS && -1 <= tc < BINS - 1 && j < 5
    requires RangeSum(hist, tc + 1, BINS) == pc > 0
    ensures Threshold(hist, tc, pc, j, BINS).Some?
  {
    FirstCrossingFound(hist, tc + 1, BINS, pc, Percent(j));
  }

  // ---------------------------------------------------------------------
  // Band map

  /** The six thresholds of one frame: `thresh1` is the calibrated threshold,
      the others the placed percentiles. */
  datatype Thresholds = Thresholds(t1: int, t2: int, t3: int, t4: int, t5: int, t6: int)

  predicate Increasing(ts: Thresholds)
  {
    ts.t1 < ts.t2 < ts.t3 < ts.t4 < ts.t5 < ts.t6
  }

  /** The band of a sample: 0 at or below thresh1, j when in
      (thresh_j, thresh_{j+1}], 6 above thresh6. */
  function Band(counts: int, ts: Thresholds): (b: nat)
    ensures b <= 6
    ensures b == 0 <==> counts <= ts.t1
  {
    if counts <= ts.t1 then 0
    else if counts <= ts.t2 then 1
    else if counts <= ts.t3 then 2
    else if counts <= ts.t4 then 3
    else if counts <= ts.t5 then 4
    else if counts <= ts.t6 then 5
    else 6
  }

  /** How many thresholds lie strictly below a sample. */
  function ThresholdsBelow(counts: int, ts: Thresholds): (n: nat)
    ensures n <= 6
  {
    (if ts.t1 < counts then 1 else 0) + (if ts.t2 < counts then 1 else 0) +
    (if ts.t3 < counts then 1 else 0) + (if ts.t4 < counts then 1 else 0) +
    (if ts.t5 < counts then 1 else 0) + (if ts.t6 < counts then 1 else 0)
  }

  /** With increasing thresholds the band of a sample is the number of
      thresholds below it, so the band grows with the sample. */
  lemma BandCountsThresholdsBelow(counts: int, ts: Thresholds)
    requires Increasing(ts)
    ensures Band(counts, ts) == ThresholdsBelow(counts, ts)
  {
  }

  lemma BandMonotone(c: int, c': int, ts: Thresholds)
    requires Increasing(ts) && c <= c'
    ensures Band(c, ts) <= Band(c', ts)
  {
  }

  /** The flat colour of each band: black, blue, cyan, green, yellow, red,
      white. */
  function BandColour(b: nat): (p: Rgb)
    requires b <= 6
    ensures p == Black <==> b == 0
    ensures p == Rgb(255, 255, 255) <==> b == 6
  {
    [Black, Rgb(0, 0, 255), Rgb(0, 255, 255), Rgb(0, 255, 0),
     Rgb(255, 255, 0), Rgb(255, 0, 0), Rgb(255, 255, 255)][b]
  }

  function NirColour(counts: int, ts: Thresholds): (p: Rgb)
    ensures p == Black <==> counts <= ts.t1
    ensures p == Rgb(255, 255, 255) <==> counts > ts.t6 && counts > ts.t5 && counts > ts.t4 &&
                                         counts > ts.t3 && counts > ts.t2 && counts > ts.t1
  {
    BandColour(Band(counts, ts))
  }

  /** The colour image of a frame. */
  function ColourMap(raw: seq<u16>, ts: Thresholds): (rgb: seq<Rgb>)
    ensures |rgb| == |raw|
    ensures forall i | 0 <= i < |raw| :: rgb[i] == Black <==> raw[i] <= ts.t1
    ensures forall i | 0 <= i < |raw| :: rgb[i] == Rgb(255, 255, 255) <==>
      raw[i] > ts.t6 && raw[i] > ts.t5 && raw[i] > ts.t4 && raw[i] > ts.t3 && raw[i] > ts.t2 && raw[i] > ts.t1
  {
    seq(|raw|, i requires 0 <= i < |raw| => NirColour(raw[i], ts))
  }

  /** The thresholds a frame is coloured with. `thresh6` is declared with
      the initialiser 0, so when it alone is never found the frame is
      coloured with thresh6 = 0; when thresh5 (and so every later one) is
      never found, thresh2 .. thresh5 are not all defined and there are no
      thresholds. */
  function FrameThresholds(raw: seq<u16>, tc: int): (ts: Option<Thresholds>)
    requires CountedFit(raw, tc) && -1 <= tc
    ensures ts.Some? <==> Threshold(NirHistogram(raw, tc), tc, NirCount(raw, tc), 3, BINS).Some?
    ensures ts.Some? ==> ts.value.t1 == tc && ts.value.t1 < ts.value.t2 < ts.value.t3 < ts.value.t4 < ts.value.t5
    ensures ts.Some? ==>
      if Threshold(NirHistogram(raw, tc), tc, NirCount(raw, tc), 4, BINS).Some?
      then Increasing(ts.value) && ts.value.t6 == Threshold(NirHistogram(raw, tc), tc, NirCount(raw, tc), 4, BINS).value
      else ts.value.t6 == 0
  {
    var h := NirHistogram(raw, tc);
    var pc := NirCount(raw, tc);
    var t2, t3, t4 := Threshold(h, tc, pc, 0, BINS), Threshold(h, tc, pc, 1, BINS), Threshold(h, tc, pc, 2, BINS);
    var t5, t6 := Threshold(h, tc, pc, 3, BINS), Threshold(h, tc, pc, 4, BINS);
    if t5.Some? then
      ThresholdsIncrease(h, tc, pc, 3, BINS);
      ThresholdsIncrease(h, tc, pc, 2, BINS);
      ThresholdsIncrease(h, tc, pc, 1, BINS);
      ThresholdsIncrease(h, tc, pc, 0, BINS);
      if t6.Some? then
        ThresholdsIncrease(h, tc, pc, 4, BINS);
        Some(Thresholds(tc, t2.value, t3.value, t4.value, t5.value, t6.value))
      else
        Some(Thresholds(tc, t2.value, t3.value, t4.value, t5.value, 0))
    else None
  }

  /** When thresh6 is never found it stays 0: every sample above thresh5 is
      painted white, and no sample is painted red. */
  lemma UnfoundThresh6PaintsWhite(raw: seq<u16>, tc: int, counts: int)
    requires CountedFit(raw, tc) && -1 <= tc
    requires FrameThresholds(raw, tc).Some?
    requires Threshold(NirHistogram(raw, tc), tc, NirCount(raw, tc), 4, BINS).None?
    ensures NirColour(counts, FrameThresholds(raw, tc).value) == Rgb(255, 255, 255)
            <==> counts > FrameThresholds(raw, tc).value.t5
    ensures NirColour(counts, FrameThresholds(raw, tc).value) != Rgb(255, 0, 0)
  {
    var ts := FrameThresholds(raw, tc).value;
    assert ts.t6 == 0 < ts.t5;
    if counts > ts.t5 {
      assert Band(counts, ts) == 6;
    } else {
      assert Band(counts, ts) <= 4;
    }
  }

  /** A frame with no sample above `tc` gets no thresholds at all. */
  lemma EmptyFrameHasNoThresholds(raw: seq<u16>, tc: int)
    requires -1 <= tc && CountedFit(raw, tc)
    requires NirCount(raw, tc) == 0
    ensures forall j | 0 <= j < 5 :: Threshold(NirHistogram(raw, tc), tc, 0, j, BINS).None?
    ensures FrameThresholds(raw, tc).None?
  {
    var keep := AboveThreshold(raw, tc);
    var h := NirHistogram(raw, tc);
    KeptNone(keep);
    HistogramOutside(raw, keep, NIR_BINS, 0, 0);
    var lo := tc + 1;
    forall k | lo < k <= BINS
      ensures RangeSum(h, lo, k) == 0
    {
      RangeSumEmptyBins(h, lo, k);
    }
  }

  /** A frame with at least one sample above `tc`, all of them 12-bit, gets
      all five thresholds: only samples above 4095, which the scan never
      reaches, can leave a threshold unplaced. */
  lemma TwelveBitFrameHasThresholds(raw: seq<u16>, tc: int)
    requires -1 <= tc < BINS - 1
    requires forall i | 0 <= i < |raw| && raw[i] > tc :: raw[i] < BINS
    requires NirCount(raw, tc) > 0
    ensures FrameThresholds(raw, tc).Some? && Increasing(FrameThresholds(raw, tc).value)
  {
    var keep := AboveThreshold(raw, tc);
    var h := NirHistogram(raw, tc);
    var pc := NirCount(raw, tc);
    HistogramTotal(raw, keep, NIR_BINS);
    HistogramOutside(raw, keep, NIR_BINS, tc + 1, BINS);
    RangeSumSplit(h, 0, tc + 1, NIR_BINS);
    RangeSumSplit(h, tc + 1, BINS, NIR_BINS);
    RangeSumEmptyBins(h, 0, tc + 1);
    RangeSumEmptyBins(h, BINS, NIR_BINS);
    forall j | 0 <= j < 5
      ensures Threshold(h, tc, pc, j, BINS).Some?
    {
      AllFoundWhen12Bit(h, tc, pc, j);
    }
  }

  // ---------------------------------------------------------------------
  // Calibration against an empty scene

  /** Pixels summed by the calibration, (HEIGHT - 1) * (WIDTH - 1): rows
      1 .. HEIGHT-1 and columns 1 .. WIDTH-1; row 0 and column 0 are
      skipped. */
  const INTERIOR: int := 306081

  /** The sample in row i, column j of a row-major frame. */
  function At(img: seq<u16>, i: int, j: int): u16
    requires |img| == PIXELS && 0 <= i < HEIGHT && 0 <= j < WIDTH
  {
    img[i * 640 + j]  // 640 is WIDTH, written out so the index stays linear
  }

  /** The sum of row i over the columns [1, n). */
  function RowSum(img: seq<u16>, i: int, n: int): int
    requires |img| == PIXELS && 1 <= i < HEIGHT && 1 <= n <= WIDTH
    decreases n
  {
    if n == 1 then 0 else RowSum(img, i, n - 1) + At(img, i, n - 1)
  }

  /** The sums of rows 1 .. HEIGHT-1 over the columns [1, WIDTH), by row
      number; row 0 is not summed. */
  function RowTotals(img: seq<u16>): seq<int>
    requires |img| == PIXELS
  {
    seq(HEIGHT, i requires 0 <= i < HEIGHT => if i == 0 then 0 else RowSum(img, i, WIDTH))
  }

  /** s[1] + ... + s[m - 1]. */
  function SumFrom1(s: seq<int>, m: int): int
    requires 1 <= m <= |s|
    decreases m
  {
    if m == 1 then 0 else SumFrom1(s, m - 1) + s[m - 1]
  }

  /** The sum of rows [1, m) over the columns [1, WIDTH). */
  function InteriorSum(img: seq<u16>, m: int): int
    requires |img| == PIXELS && 1 <= m <= HEIGHT
  {
    SumFrom1(RowTotals(img), m)
  }

  /** `thresh_calibrated` after calibration: the truncated mean of the summed
      pixels, plus 2. */
  function CalibratedThreshold(img: seq<u16>): (t: int)
    requires |img| == PIXELS
    // 306081 is INTERIOR, written out so the bounds stay linear
    ensures (t - 2) * 306081 <= InteriorSum(img, HEIGHT) < (t - 1) * 306081
  {
    InteriorSum(img, HEIGHT) / INTERIOR + 2
  }

  /** n copies of x added up: x * n without a product of two unknowns. */
  function Scale(x: int, n: nat): int
  {
    if n == 0 then 0 else Scale(x, n - 1) + x
  }

  lemma {:induction false} ScaleIsProduct(x: int, n: nat)
    ensures Scale(x, n) == x * n
  {
    if n > 0 {
      ScaleIsProduct(x, n - 1);
      assert x * n == x * (n - 1) + x;
    }
  }

  /** Every summed sample of row i lies in [lo, hi]. */
  predicate RowWithin(img: seq<u16>, i: int, lo: int, hi: int)
    requires |img| == PIXELS && 1 <= i < HEIGHT
  {
    forall j | 1 <= j < WIDTH :: lo <= At(img, i, j) <= hi
  }

  lemma {:induction false} RowSumBounds(img: seq<u16>, i: int, n: int, lo: int, hi: int)
    requires |img| == PIXELS && 1 <= i < HEIGHT && 1 <= n <= WIDTH
    requires RowWithin(img, i, lo, hi)
    ensures Scale(lo, n - 1) <= RowSum(img, i, n) <= Scale(hi, n - 1)
    decreases n
  {
    if n > 1 {
      RowSumBounds(img, i, n - 1, lo, hi);
    }
  }

  /** Terms that lie in [rl, rh] add up to between m - 1 copies of each
      bound. */
  lemma {:induction false} SumFrom1Bounds(s: seq<int>, m: int, rl: int, rh: int)
    requires 1 <= m <= |s|
    requires forall i | 1 <= i < |s| :: rl <= s[i] <= rh
    ensures Scale(rl, m - 1) <= SumFrom1(s, m) <= Scale(rh, m - 1)
    decreases m
  {
    if m > 1 {
      SumFrom1Bounds(s, m - 1, rl, rh);
    }
  }

  /** Calibrating on a scene whose summed pixels all lie in [lo, hi] puts
      the threshold in [lo + 2, hi + 2]; on a uniform scene of level c it
      is exactly c + 2. */
  lemma CalibrationBounds(img: seq<u16>, lo: int, hi: int)
    requires |img| == PIXELS
    requires forall i, j | 1 <= i < HEIGHT && 1 <= j < WIDTH :: lo <= At(img, i, j) <= hi
    ensures lo + 2 <= CalibratedThreshold(img) <= hi + 2
  {
    var rows := RowTotals(img);
    forall i | 1 <= i < HEIGHT
      ensures Scale(lo, 639) <= rows[i] <= Scale(hi, 639)
    {
      assert RowWithin(img, i, lo, hi);
      RowSumBounds(img, i, WIDTH, lo, hi);
    }
    SumFrom1Bounds(rows, HEIGHT, Scale(lo, 639), Scale(hi, 639));
    ScaleIsProduct(lo, 639);
    ScaleIsProduct(hi, 639);
    ScaleIsProduct(lo * 639, 479);
    ScaleIsProduct(hi * 639, 479);
    var s := InteriorSum(img, HEIGHT);
    assert lo * 306081 <= s <= hi * 306081;
    var q := s / 306081;
    assert q * 306081 <= s < q * 306081 + 306081;
  }

  /** Row i has the same summed samples in both frames. */
  predicate RowsAgree(img: seq<u16>, img': seq<u16>, i: int)
    requires |img| == |img'| == PIXELS && 1 <= i < HEIGHT
  {
    forall j | 1 <= j < WIDTH :: At(img, i, j) == At(img', i, j)
  }

  lemma {:induction false} RowSumAgree(img: seq<u16>, img': seq<u16>, i: int, n: int)
    requires |img| == |img'| == PIXELS && 1 <= i < HEIGHT && 1 <= n <= WIDTH
    requires RowsAgree(img, img', i)
    ensures RowSum(img, i, n) == RowSum(img', i, n)
    decreases n
  {
    if n > 1 {
      RowSumAgree(img, img', i, n - 1);
    }
  }

  /** Row 0 and column 0 play no part in the calibration. */
  lemma CalibrationIgnoresFirstRowAndColumn(img: seq<u16>, img': seq<u16>)
    requires |img| == |img'| == PIXELS
    requires forall i, j | 1 <= i < HEIGHT && 1 <= j < WIDTH :: At(img, i, j) == At(img', i, j)
    ensures CalibratedThreshold(img) == CalibratedThreshold(img')
  {
    forall i | 1 <= i < HEIGHT
      ensures RowTotals(img)[i] == RowTotals(img')[i]
    {
      assert RowsAgree(img, img', i);
      RowSumAgree(img, img', i, WIDTH);
    }
    assert RowTotals(img) == RowTotals(img');
  }

  // ---------------------------------------------------------------------
  // The loops of one frame

  /** The counting pass: every sample above `tc` bumps its bin and is
      counted. */
  method CountAbove(raw: array<u16>, tc: int) returns (hist: array<int>, count: int)
    requires CountedFit(raw[..], tc)
    ensures fresh(hist)
    ensures hist[..] == NirHistogram(raw[..], tc)
    ensures count == NirCount(raw[..], tc)
  {
    hist := new int[NIR_BINS](_ => 0);
    count := 0;
    for i := 0 to raw.Length
      invariant hist[..] == Histogram(raw[..i], AboveThreshold(raw[..i], tc), NIR_BINS)
      invariant count == Kept(AboveThreshold(raw[..i], tc))
    {
      assert raw[..i + 1][..i] == raw[..i];
      assert AboveThreshold(raw[..i + 1], tc)[..i] == AboveThreshold(raw[..i], tc);
      if raw[i] > tc {
        hist[raw[i]] := hist[raw[i]] + 1;
        count := count + 1;
      }
    }
    assert raw[..raw.Length] == raw[..];
  }

  /** The integration loop over k = tc + 1 .. 4095 with its five found
      flags, here the `Some`/`None` of each threshold. A threshold is only
      tested against the one before it once that one is found, which the
      loop proves rather than assumes. */
  method PlaceThresholds(hist: array<int>, tc: int, pc: int)
    returns (t2: Option<int>, t3: Option<int>, t4: Option<int>, t5: Option<int>, t6: Option<int>)
    requires hist.Length == NIR_BINS && -1 <= tc && 0 <= pc
    ensures t2 == Threshold(hist[..], tc, pc, 0, BINS)
    ensures t3 == Threshold(hist[..], tc, pc, 1, BINS)
    ensures t4 == Threshold(hist[..], tc, pc, 2, BINS)
    ensures t5 == Threshold(hist[..], tc, pc, 3, BINS)
    ensures t6 == Threshold(hist[..], tc, pc, 4, BINS)
  {
    t2, t3, t4, t5, t6 := None, None, None, None, None;
    var sum := 0;
    var k := tc + 1;
    while k < BINS
      invariant tc + 1 <= k && (k <= BINS || k == tc + 1)
      invariant k <= BINS ==> sum == RangeSum(hist[..], tc + 1, k)
      invariant t2 == Threshold(hist[..], tc, pc, 0, Min(k, BINS))
      invariant t3 == Threshold(hist[..], tc, pc, 1, Min(k, BINS))
      invariant t4 == Threshold(hist[..], tc, pc, 2, Min(k, BINS))
      invariant t5 == Threshold(hist[..], tc, pc, 3, Min(k, BINS))
      invariant t6 == Threshold(hist[..], tc, pc, 4, Min(k, BINS))
      decreases BINS - k
    {
      sum := sum + hist[k];
      t2, t3, t4, t5, t6 := TestBin(hist[..], tc, pc, k, sum, t2, t3, t4, t5, t6);
      k := k + 1;
    }
  }

  /** The five tests of one bin k of the integration loop, in order, each
      later one seeing the earlier ones' updates; `sum` is the running sum
      through bin k. */
  method TestBin(ghost h: seq<int>, tc: int, pc: int, k: int, sum: int,
                 t2: Option<int>, t3: Option<int>, t4: Option<int>, t5: Option<int>, t6: Option<int>)
    returns (t2': Option<int>, t3': Option<int>, t4': Option<int>, t5': Option<int>, t6': Option<int>)
    requires |h| == NIR_BINS && -1 <= tc && tc + 1 <= k < BINS && 0 <= pc
    requires sum == RangeSum(h, tc + 1, k + 1)
    requires t2 == Threshold(h, tc, pc, 0, k) && t3 == Threshold(h, tc, pc, 1, k) &&
             t4 == Threshold(h, tc, pc, 2, k) && t5 == Threshold(h, tc, pc, 3, k) &&
             t6 == Threshold(h, tc, pc, 4, k)
    ensures t2' == Threshold(h, tc, pc, 0, k + 1) && t3' == Threshold(h, tc, pc, 1, k + 1) &&
            t4' == Threshold(h, tc, pc, 2, k + 1) && t5' == Threshold(h, tc, pc, 3, k + 1) &&
            t6' == Threshold(h, tc, pc, 4, k + 1)
  {
    t2' := TestThreshold(h, tc, pc, 0, k, sum, t2, None);
    t3' := TestThreshold(h, tc, pc, 1, k, sum, t3, t2');
    t4' := TestThreshold(h, tc, pc, 2, k, sum, t4, t3');
    t5' := TestThreshold(h, tc, pc, 3, k, sum, t5, t4');
    t6' := TestThreshold(h, tc, pc, 4, k, sum, t6, t5');
  }

  /** The test of threshold j at bin k: an unfound threshold whose
      percentage the running sum passes is set to k, or, after the first,
      to one past the previous threshold when that one is not below k. */
  method TestThreshold(ghost h: seq<int>, tc: int, pc: int, j: nat, k: int, sum: int,
                       t: Option<int>, prev: Option<int>) returns (t': Option<int>)
    requires |h| == NIR_BINS && -1 <= tc && tc + 1 <= k < BINS && j < 5 && 0 <= pc
    requires sum == RangeSum(h, tc + 1, k + 1)
    requires t == Threshold(h, tc, pc, j, k)
    requires j > 0 ==> prev == Threshold(h, tc, pc, j - 1, k + 1)
    ensures t' == Threshold(h, tc, pc, j, k + 1)
  {
    Advance(h, tc, pc, j, k, sum, t, prev);
    t' := t;
    if t.None? && 100 * sum > Percent(j) * pc {
      t' := Some(if j == 0 then k else if prev.value >= k then prev.value + 1 else k);
    }
  }

  /** The painting loop: one colour per sample. */
  method Paint(raw: array<u16>, ts: Thresholds) returns (rgb: array<Rgb>)
    ensures fresh(rgb)
    ensures rgb[..] == ColourMap(raw[..], ts)
  {
    rgb := new Rgb[raw.Length](_ => Black);
    for i := 0 to raw.Length
      invariant forall j | 0 <= j < i :: rgb[j] == NirColour(raw[j], ts)
    {
      rgb[i] := NirColour(raw[i], ts);
    }
  }

  /** One false-colour frame: count, place the thresholds, paint. The
      colour image exists exactly when thresh2 .. thresh5 are found. */
  method ColourFrame(raw: array<u16>, tc: int) returns (rgb: Option<array<Rgb>>)
    requires -1 <= tc && CountedFit(raw[..], tc)
    ensures rgb.Some? <==> FrameThresholds(raw[..], tc).Some?
    ensures rgb.Some? ==> fresh(rgb.value) &&
                          rgb.value[..] == ColourMap(raw[..], FrameThresholds(raw[..], tc).value)
  {
    var hist, count := CountAbove(raw, tc);
    var t2, t3, t4, t5, t6 := PlaceThresholds(hist, tc, count);
    if t5.Some? {
      // a found thresh5 implies thresh2 .. thresh4 were found before it
      ThresholdsIncrease(hist[..], tc, count, 3, BINS);
      ThresholdsIncrease(hist[..], tc, count, 2, BINS);
      ThresholdsIncrease(hist[..], tc, count, 1, BINS);
      // thresh6 keeps its initialiser 0 when it is never found
      var ts := Thresholds(tc, t2.value, t3.value, t4.value, t5.value, if t6.Some? then t6.value else 0);
      var painted := Paint(raw, ts);
      rgb := Some(painted);
    } else {
      rgb := None;
    }
  }
}
