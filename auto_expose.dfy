/** The percentile auto-exposure controller of autoexpose.cpp: the white
    light (WL) frame is reduced to a 12-bit luminance, pixels brighter than
    32 form a mask, a histogram of the masked WL luminances (and of the
    NIR samples under the same mask) is scanned for the bin holding 95% of
    the mass, and each camera's exposure is scaled by a multiplier that
    pushes that cutoff toward AUTOEXPOSURE_CUTOFF, within +-10% and within
    per-camera limits.  Doubles are modelled by exact reals; the camera
    handles are left out, and the value written to each camera is returned
    instead. */
module AutoExposure {
  import opened Frames
  import opened Histograms

  /** Pixels whose luminance is at most this are treated as the blocked
      corners of the endoscope image. */
  const MASK_LEVEL: int := 32
  /** The cutoff is the first bin whose running sum passes this percentage
      of the valid pixels. */
  const CUTOFF_PERCENT: int := 95
  const MIN_EXPOSURE: int := 100
  const MAX_EXPOSURE_WL: int := 120000
  const MAX_EXPOSURE_NIR: int := 550000

  // ---------------------------------------------------------------------
  // Specification

  /** `(0.21 r + 0.72 g + 0.07 b) * 16`, truncated: the WL luminance scaled
      to the 12-bit range. */
  function Luminance(p: Rgb): (l: u16)
    ensures l <= 4080 < BINS
    ensures 100 * l <= (21 * p.r + 72 * p.g + 7 * p.b) * 16 < 100 * (l + 1)
  {
    (21 * p.r + 72 * p.g + 7 * p.b) * 16 / 100
  }

  /** The luminance of every pixel of a WL frame. */
  function Lumas(wl: seq<Rgb>): (lum: seq<u16>)
    ensures |lum| == |wl| && forall i | 0 <= i < |wl| :: lum[i] == Luminance(wl[i])
    ensures forall i | 0 <= i < |wl| :: lum[i] < BINS
  {
    seq(|wl|, i requires 0 <= i < |wl| => Luminance(wl[i]))
  }

  /** The valid-pixel mask: luminance above MASK_LEVEL. */
  function Mask(lum: seq<u16>): (keep: seq<bool>)
    ensures |keep| == |lum| && forall i | 0 <= i < |lum| :: keep[i] <==> lum[i] > MASK_LEVEL
  {
    seq(|lum|, i requires 0 <= i < |lum| => lum[i] > MASK_LEVEL)
  }

  /** The histogram cutoff: the least bin whose running sum passes 95% of
      `count`, or 0 when no bin does. */
  function Cutoff(hist: seq<int>, count: int): (c: int)
    requires |hist| == BINS
    ensures 0 <= c < BINS
    ensures (Exceeds(hist, 0, c, count, CUTOFF_PERCENT) &&
             forall j | 0 <= j < c :: !Exceeds(hist, 0, j, count, CUTOFF_PERCENT))
         || (c == 0 && forall j | 0 <= j < BINS :: !Exceeds(hist, 0, j, count, CUTOFF_PERCENT))
  {
    match FirstCrossing(hist, 0, BINS, count, CUTOFF_PERCENT)
    case None => 0
    case Some(i) => i
  }

  /** `1 - (cutoff - AUTOEXPOSURE_CUTOFF) / AUTOEXPOSURE_CUTOFF` with
      AUTOEXPOSURE_CUTOFF = 3000, clamped to [0.9, 1.1]: always a whole
      number of 3000ths, 6000 - cutoff clamped to [2700, 3300]. */
  function MultiplierNum(cutoff: int): (n: int)
    ensures 2700 <= n <= 3300
    ensures cutoff > 3000 ==> n < 3000
    ensures cutoff < 3000 ==> n > 3000
    ensures cutoff == 3000 ==> n == 3000
  {
    var raw := 6000 - cutoff;
    if raw > 3300 then 3300 else if raw < 2700 then 2700 else raw
  }

  /** The multiplier itself. */
  function Multiplier(cutoff: int): (m: real)
    ensures 0.9 <= m <= 1.1
    ensures cutoff > 3000 ==> m < 1.0
    ensures cutoff < 3000 ==> m > 1.0
    ensures cutoff == 3000 ==> m == 1.0
  {
    MultiplierNum(cutoff) as real / 3000.0
  }

  /** The previous exposure times the multiplier, converted to an integer.
      Both factors are non-negative, so the conversion is the floor, and
      with the multiplier a whole number of 3000ths it is an integer
      division (ScaledIsTruncatedProduct). */
  function Scaled(prev: nat, cutoff: int): (s: int)
    ensures 0 <= s
    ensures 3000 * s <= prev * MultiplierNum(cutoff) < 3000 * s + 3000
  {
    prev * MultiplierNum(cutoff) / 3000
  }

  /** The new exposure: the previous one times the multiplier, truncated to an
      integer, then clamped to [MIN_EXPOSURE, cap]. */
  function NextExposure(prev: nat, cutoff: int, cap: int): (e: int)
    requires MIN_EXPOSURE <= cap
    ensures MIN_EXPOSURE <= e <= cap
  {
    var scaled := Scaled(prev, cutoff);
    if scaled < MIN_EXPOSURE then MIN_EXPOSURE else if scaled > cap then cap else scaled
  }

  /** The masked WL histogram of a frame and its valid-pixel count. */
  function WLHistogram(wl: seq<Rgb>): (hist: seq<int>)
    ensures |hist| == BINS
  {
    Histogram(Lumas(wl), Mask(Lumas(wl)), BINS)
  }

  function ValidPixels(wl: seq<Rgb>): nat
  {
    Kept(Mask(Lumas(wl)))
  }

  /** `pixel_count` is the number of pixels whose luminance exceeds 32. */
  lemma ValidPixelsAreBright(wl: seq<Rgb>)
    ensures ValidPixels(wl) == |set i | 0 <= i < |wl| && Luminance(wl[i]) > MASK_LEVEL|
  {
    var keep := Mask(Lumas(wl));
    KeptCountsPositions(keep);
    assert (set i | 0 <= i < |keep| && keep[i]) == set i | 0 <= i < |wl| && Luminance(wl[i]) > MASK_LEVEL;
  }

  /** The NIR samples under the WL mask are 12-bit, as the NIR histogram
      needs. */
  predicate NirInRange(wl: seq<Rgb>, nir: seq<u16>)
  {
    |nir| == |wl| && forall i | 0 <= i < |wl| && Luminance(wl[i]) > MASK_LEVEL :: nir[i] < BINS
  }

  /** The NIR histogram over the WL mask. */
  function NIRHistogram(wl: seq<Rgb>, nir: seq<u16>): (hist: seq<int>)
    requires NirInRange(wl, nir)
    ensures |hist| == BINS
  {
    Histogram(nir, Mask(Lumas(wl)), BINS)
  }

  // ---------------------------------------------------------------------
  // Properties

  /** Both histograms of a frame hold exactly the valid pixels. */
  lemma HistogramsCountValidPixels(wl: seq<Rgb>, nir: seq<u16>)
    requires NirInRange(wl, nir)
    ensures RangeSum(WLHistogram(wl), 0, BINS) == ValidPixels(wl)
    ensures RangeSum(NIRHistogram(wl, nir), 0, BINS) == ValidPixels(wl)
  {
    HistogramTotal(Lumas(wl), Mask(Lumas(wl)), BINS);
    HistogramTotal(nir, Mask(Lumas(wl)), BINS);
  }

  /** A frame with no valid pixel is not skipped: no bin passes 95% of
      nothing, so the cutoff is 0, the multiplier 1.1 and the WL exposure is
      raised (the NIR histogram is empty too, with the same outcome). */
  lemma EmptyFrameRaisesExposure(wl: seq<Rgb>, prev: nat, cap: int)
    requires ValidPixels(wl) == 0
    requires MIN_EXPOSURE <= prev < cap
    ensures Cutoff(WLHistogram(wl), ValidPixels(wl)) == 0 && Multiplier(0) == 1.1
    ensures NextExposure(prev, Cutoff(WLHistogram(wl), ValidPixels(wl)), cap) > prev
  {
    HistogramTotal(Lumas(wl), Mask(Lumas(wl)), BINS);
    CutoffOfEmpty(WLHistogram(wl));
    FullStepRaises(prev, cap);
  }

  /** No bin of a histogram holding nothing passes 95% of nothing, so its
      cutoff is 0. */
  lemma CutoffOfEmpty(hist: seq<int>)
    requires |hist| == BINS && forall v | 0 <= v < BINS :: hist[v] >= 0
    requires RangeSum(hist, 0, BINS) == 0
    ensures Cutoff(hist, 0) == 0
  {
    forall j | 0 <= j < BINS
      ensures !Exceeds(hist, 0, j, 0, CUTOFF_PERCENT)
    {
      RangeSumMonotone(hist, 0, j + 1, BINS);
    }
  }

  /** At cutoff 0 the multiplier is 1.1, which raises every exposure below
      the cap. */
  lemma FullStepRaises(prev: nat, cap: int)
    requires MIN_EXPOSURE <= prev < cap
    ensures NextExposure(prev, 0, cap) > prev
  {
    assert MultiplierNum(0) == 3300;
  }

  /** The multiplier as the three cases of the clamp. */
  lemma MultiplierCases(cutoff: int)
    ensures cutoff <= 2700 ==> Multiplier(cutoff) == 1.1
    ensures cutoff >= 3300 ==> Multiplier(cutoff) == 0.9
    ensures 2700 <= cutoff <= 3300 ==> Multiplier(cutoff) == 1.0 - (cutoff as real - 3000.0) / 3000.0
  {
  }

  lemma ProductBetween(p: nat, n: int, lo: int, hi: int)
    requires lo <= n <= hi
    ensures p * lo <= p * n <= p * hi
  {
    assert p * (n - lo) >= 0;
    assert p * (hi - n) >= 0;
  }

  /** The integer division is the truncated real product. */
  lemma ScaledIsTruncatedProduct(prev: nat, cutoff: int)
    ensures Scaled(prev, cutoff) == (prev as real * Multiplier(cutoff)).Floor
  {
    var n := MultiplierNum(cutoff);
    var q := prev * n / 3000;
    assert prev as real * (n as real / 3000.0) == (prev * n) as real / 3000.0;
    assert q as real <= (prev * n) as real / 3000.0 < q as real + 1.0;
  }

  /** The unclamped new exposure: no larger than the previous one when the
      cutoff is at or above AUTOEXPOSURE_CUTOFF, no smaller when at or below,
      and within a tenth of it, less one for the truncation. */
  lemma ScaledBounds(prev: nat, cutoff: int)
    ensures cutoff >= 3000 ==> Scaled(prev, cutoff) <= prev
    ensures cutoff <= 3000 ==> Scaled(prev, cutoff) >= prev
    ensures 10 * Scaled(prev, cutoff) <= 11 * prev
    ensures 10 * Scaled(prev, cutoff) > 9 * prev - 10
  {
    var n := MultiplierNum(cutoff);
    ProductBetween(prev, n, 2700, 3300);
    if cutoff >= 3000 {
      ProductBetween(prev, n, 2700, 3000);
    }
    if cutoff <= 3000 {
      ProductBetween(prev, n, 3000, 3300);
    }
  }

  /** A cutoff above AUTOEXPOSURE_CUTOFF never raises an in-range exposure,
      and one below it never lowers it. */
  lemma ExposureDirection(prev: nat, cutoff: int, cap: int)
    requires MIN_EXPOSURE <= prev <= cap
    ensures cutoff >= 3000 ==> NextExposure(prev, cutoff, cap) <= prev
    ensures cutoff <= 3000 ==> NextExposure(prev, cutoff, cap) >= prev
  {
    ScaledBounds(prev, cutoff);
  }

  /** From an in-range exposure one step moves by at most a tenth of the previous
      value, plus one for the truncation; so within the documented 30%. */
  lemma ExposureStep(prev: nat, cutoff: int, cap: int)
    requires MIN_EXPOSURE <= prev <= cap
    ensures (NextExposure(prev, cutoff, cap) - prev) as real <= prev as real / 10.0
    ensures (prev - NextExposure(prev, cutoff, cap)) as real <= prev as real / 10.0 + 1.0
    ensures 10 * (NextExposure(prev, cutoff, cap) - prev) <= 3 * prev
    ensures 10 * (prev - NextExposure(prev, cutoff, cap)) <= 3 * prev
  {
    ScaledBounds(prev, cutoff);
  }

  // ---------------------------------------------------------------------
  // The loops of one auto-exposure pass

  /** The RGB-to-luminance loop, filling a new 16-bit buffer. */
  method ToMono(wl: array<Rgb>) returns (lum: array<u16>)
    ensures fresh(lum)
    ensures lum[..] == Lumas(wl[..])
  {
    lum := new u16[wl.Length];
    for i := 0 to wl.Length
      invariant forall j | 0 <= j < i :: lum[j] == Luminance(wl[j])
    {
      lum[i] := Luminance(wl[i]);
    }
  }

  /** The joint masked pass: every pixel whose luminance is above
      MASK_LEVEL bumps its WL bin and its NIR bin and is counted. */
  method JointHistograms(lum: array<u16>, nir: array<u16>) returns (histWL: array<int>, histNIR: array<int>, count: int)
    requires nir.Length == lum.Length
    requires forall i | 0 <= i < lum.Length :: lum[i] < BINS
    requires forall i | 0 <= i < lum.Length && lum[i] > MASK_LEVEL :: nir[i] < BINS
    ensures fresh(histWL) && fresh(histNIR)
    ensures histWL[..] == Histogram(lum[..], Mask(lum[..]), BINS)
    ensures histNIR[..] == Histogram(nir[..], Mask(lum[..]), BINS)
    ensures count == Kept(Mask(lum[..]))
  {
    histWL := new int[BINS](_ => 0);
    histNIR := new int[BINS](_ => 0);
    count := 0;
    ghost var lv, nv := lum[..], nir[..];
    ghost var keep := Mask(lv);
    assert forall k | 0 <= k < |nv| && keep[k] :: 0 <= nv[k] < BINS;
    for i := 0 to lum.Length
      invariant histWL[..] == HistogramUpTo(lv, keep, BINS, i)
      invariant histNIR[..] == HistogramUpTo(nv, keep, BINS, i)
      invariant count == Kept(keep[..i])
    {
      KeptPush(keep, i);
      if lum[i] > MASK_LEVEL {
        BumpBoth(histWL, histNIR, lum[i] as int, nir[i] as int);
        count := count + 1;
      }
    }
    HistogramUpToAll(lv, keep, BINS);
    HistogramUpToAll(nv, keep, BINS);
    assert keep[..lum.Length] == keep;
  }

  /** One valid pixel's increments: its WL bin and its NIR bin. */
  method BumpBoth(histWL: array<int>, histNIR: array<int>, v: int, u: int)
    requires histWL != histNIR && 0 <= v < histWL.Length && 0 <= u < histNIR.Length
    modifies histWL, histNIR
    ensures histWL[..] == old(histWL[..])[v := old(histWL[v]) + 1]
    ensures histNIR[..] == old(histNIR[..])[u := old(histNIR[u]) + 1]
  {
    histWL[v] := histWL[v] + 1;
    histNIR[u] := histNIR[u] + 1;
  }

  /** The masked pass of the WL-only slot: one histogram and the count. */
  method MaskedHistogram(lum: array<u16>) returns (hist: array<int>, count: int)
    requires forall i | 0 <= i < lum.Length :: lum[i] < BINS
    ensures fresh(hist)
    ensures hist[..] == Histogram(lum[..], Mask(lum[..]), BINS)
    ensures count == Kept(Mask(lum[..]))
  {
    hist := new int[BINS](_ => 0);
    count := 0;
    ghost var lv := lum[..];
    ghost var keep := Mask(lv);
    for i := 0 to lum.Length
      invariant hist[..] == HistogramUpTo(lv, keep, BINS, i)
      invariant count == Kept(keep[..i])
    {
      KeptPush(keep, i);
      if lum[i] > MASK_LEVEL {
        hist[lum[i]] := hist[lum[i]] + 1;
        count := count + 1;
      }
    }
    HistogramUpToAll(lv, keep, BINS);
    assert keep[..lum.Length] == keep;
  }

  /** The integral loop: add bins from 0 and stop at the first bin whose
      running sum passes 95% of `count`; the cutoff stays 0 if none does. */
  method CutoffScan(hist: array<int>, count: int) returns (cutoff: int)
    requires hist.Length == BINS
    ensures cutoff == Cutoff(hist[..], count)
  {
    var integral := 0;
    cutoff := 0;
    for i := 0 to BINS
      invariant integral == RangeSum(hist[..], 0, i)
      invariant FirstCrossing(hist[..], 0, i, count, CUTOFF_PERCENT).None?
    {
      integral := integral + hist[i];
      FirstCrossingExtend(hist[..], 0, i, count, CUTOFF_PERCENT);
      if 100 * integral > CUTOFF_PERCENT * count {
        cutoff := i;
        FirstCrossingUnique(hist[..], 0, BINS, count, CUTOFF_PERCENT, Some(i));
        return;
      }
    }
  }

  // ---------------------------------------------------------------------
  // The controller

  class AutoExpose {
    /** Exposure times of the WL and NIR cameras. */
    var exposureWL: u32
    var exposureNIR: u32

    constructor ()
      ensures exposureWL == 80000 && exposureNIR == 300000
    {
      exposureWL := 80000;
      exposureNIR := 300000;
    }

    /** Stores the WL exposure as given, without clamping. */
    method ChangeExposureWL(newExposure: u32)
      modifies this
      ensures exposureWL == newExposure && exposureNIR == old(exposureNIR)
    {
      exposureWL := newExposure;
    }

    /** Stores the NIR exposure as given, without clamping. */
    method ChangeExposureNIR(newExposure: u32)
      modifies this
      ensures exposureNIR == newExposure && exposureWL == old(exposureWL)
    {
      exposureNIR := newExposure;
    }

    /** One pass over both cameras. Returns the exposures written to the WL
        and NIR cameras. */
    method TwoCams(wl: array<Rgb>, nir: array<u16>) returns (sentWL: u32, sentNIR: u32)
      requires wl.Length == PIXELS && NirInRange(wl[..], nir[..])
      modifies this
      ensures exposureWL == NextExposure(old(exposureWL), Cutoff(WLHistogram(wl[..]), ValidPixels(wl[..])), MAX_EXPOSURE_WL)
      ensures exposureNIR == NextExposure(old(exposureNIR), Cutoff(NIRHistogram(wl[..], nir[..]), ValidPixels(wl[..])), MAX_EXPOSURE_NIR)
      ensures MIN_EXPOSURE <= exposureWL <= MAX_EXPOSURE_WL && MIN_EXPOSURE <= exposureNIR <= MAX_EXPOSURE_NIR
      ensures sentWL == exposureWL && sentNIR == exposureNIR
    {
      var lum := ToMono(wl);
      var histWL, histNIR, count := JointHistograms(lum, nir);
      var cutoffWL := CutoffScan(histWL, count);
      var cutoffNIR := CutoffScan(histNIR, count);
      exposureWL := NextExposure(exposureWL, cutoffWL, MAX_EXPOSURE_WL);
      exposureNIR := NextExposure(exposureNIR, cutoffNIR, MAX_EXPOSURE_NIR);
      sentWL := exposureWL;
      sentNIR := exposureNIR;
    }

    /** One pass over the WL camera alone; the NIR exposure is untouched.
        Returns the exposure written to the WL camera. */
    method WLCam(wl: array<Rgb>) returns (sentWL: u32)
      requires wl.Length == PIXELS
      modifies this
      ensures exposureWL == NextExposure(old(exposureWL), Cutoff(WLHistogram(wl[..]), ValidPixels(wl[..])), MAX_EXPOSURE_WL)
      ensures MIN_EXPOSURE <= exposureWL <= MAX_EXPOSURE_WL
      ensures exposureNIR == old(exposureNIR)
      ensures sentWL == exposureWL
    {
      var lum := ToMono(wl);
      var hist, count := MaskedHistogram(lum);
      var cutoff := CutoffScan(hist, count);
      exposureWL := NextExposure(exposureWL, cutoff, MAX_EXPOSURE_WL);
      sentWL := exposureWL;
    }
  }
}
