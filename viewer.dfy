/** The state of the main window that the imaging rules read
    (src/multichannelviewer.cpp): the overlay opacity, the calibrated NIR
    threshold, the monochrome switch and the exposures used for recording,
    with the handlers that set them, the calibration, and the NIR and
    composite render steps. Widgets, painting, video and screenshots are not
    part of this model. */
module Viewer {
  import opened Frames
  import opened Histograms
  import opened NirFalseColour
  import opened Compositor
  import MedianFilter
  import AutoExposure

  /** The summing loop of the calibration, over rows 1 .. HEIGHT-1 and,
      in each, columns 1 .. WIDTH-1 of a row-major frame. */
  method SumInterior(raw: array<u16>) returns (sum: int)
    requires raw.Length == PIXELS
    ensures sum == InteriorSum(raw[..], HEIGHT)
  {
    sum := 0;
    for i := 1 to HEIGHT
      invariant sum == InteriorSum(raw[..], i)
    {
      var row := SumRow(raw, i);
      sum := sum + row;
    }
  }

  /** The inner loop: columns 1 .. WIDTH-1 of row i. */
  method SumRow(raw: array<u16>, i: int) returns (sum: int)
    requires raw.Length == PIXELS && 1 <= i < HEIGHT
    ensures sum == RowSum(raw[..], i, WIDTH)
  {
    sum := 0;
    for j := 1 to WIDTH
      invariant sum == RowSum(raw[..], i, j)
    {
      sum := sum + raw[i * 640 + j];  // 640 is WIDTH, written out so the index stays linear
    }
  }

  // ---------------------------------------------------------------------
  // The filtered NIR frame feeds the auto-exposure NIR histogram

  /** As written: a saturated Mono16 frame of 4095s, filtered on capture,
      holds 4096 under a bright WL pixel, so the NIR histogram of the
      exposure step would count it in a bin past its 4096. */
  lemma SaturatedNirOverflowsHistogram(raw: seq<u16>, nir: seq<u16>, wl: seq<Rgb>)
    requires |raw| == PIXELS && forall q | 0 <= q < |raw| :: raw[q] == 4095
    requires |nir| == PIXELS
    requires forall px, py | 0 <= px < WIDTH && 0 <= py < HEIGHT ::
      0 <= MedianFilter.Coord(px, py, WIDTH) < |nir| &&
      nir[MedianFilter.Coord(px, py, WIDTH)]
        == MedianFilter.FilteredPixel(MedianFilter.Pixels(raw, WIDTH), WIDTH, HEIGHT, 3, px, py)
    requires |wl| == PIXELS && forall i | 0 <= i < |wl| :: wl[i] == Rgb(255, 255, 255)
    ensures !AutoExposure.NirInRange(wl, nir)
  {
    MedianFilter.SaturatedFrameGives4096(raw);
    var q := MedianFilter.Coord(4, 3, WIDTH);
    assert nir[q] == BINS;
    assert AutoExposure.Luminance(wl[q]) > AutoExposure.MASK_LEVEL;
  }

  /** Corrected: with the median written at every window, every sample of
      the filtered frame is 12-bit, so the NIR histogram takes any WL
      frame. */
  lemma MedianNirFitsHistogram(raw: seq<u16>, nir: seq<u16>, wl: seq<Rgb>)
    requires |raw| == PIXELS
    requires |nir| == PIXELS
    requires forall px, py | 0 <= px < WIDTH && 0 <= py < HEIGHT ::
      0 <= MedianFilter.Coord(px, py, WIDTH) < |nir| &&
      nir[MedianFilter.Coord(px, py, WIDTH)]
        == MedianFilter.MedianPixel(MedianFilter.Pixels(raw, WIDTH), WIDTH, HEIGHT, 3, px, py)
    requires |wl| == PIXELS
    ensures AutoExposure.NirInRange(wl, nir)
  {
    forall i | 0 <= i < |nir|
      ensures nir[i] < BINS
    {
      var px, py := i % 640, i / 640;
      MedianFilter.RowStartIsProduct(py, WIDTH);
      assert MedianFilter.Coord(px, py, WIDTH) == i;
    }
  }

  /** `Qt::Unchecked` and `Qt::Checked`; the partially checked state is 1. */
  const UNCHECKED: int := 0
  const CHECKED: int := 2

  class MultiChannelViewer {
    /** `opacity_val`: the overlay opacity, a tenth of the slider position. */
    var opacity: real
    var threshCalibrated: int
    var monochrome: bool
    /** The exposures the recording repeat counts are computed from. */
    var exposureWL: u32
    var exposureNIR: u32

    constructor ()
      ensures opacity == 0.1 && threshCalibrated == 2 && !monochrome
      ensures exposureWL == 60000 && exposureNIR == 500000
    {
      opacity := 0.1;
      threshCalibrated := 2;
      monochrome := false;
      exposureWL := 60000;
      exposureNIR := 500000;
    }

    method OnOpacitySliderChanged(value: int)
      modifies this
      ensures opacity == value as real / 10.0
      ensures threshCalibrated == old(threshCalibrated) && monochrome == old(monochrome)
      ensures exposureWL == old(exposureWL) && exposureNIR == old(exposureNIR)
    {
      opacity := value as real / 10.0;
    }

    /** The NIR threshold spin box sets the threshold as given. */
    method OnNirThreshChanged(arg1: int)
      modifies this
      ensures threshCalibrated == arg1
      ensures opacity == old(opacity) && monochrome == old(monochrome)
      ensures exposureWL == old(exposureWL) && exposureNIR == old(exposureNIR)
    {
      threshCalibrated := arg1;
    }

    /** The monochrome check box: checked turns it on, unchecked off, any
        other state leaves it. */
    method OnMonochromeChanged(arg1: int)
      modifies this
      ensures monochrome == (if arg1 == CHECKED then true
                             else if arg1 == UNCHECKED then false
                             else old(monochrome))
      ensures opacity == old(opacity) && threshCalibrated == old(threshCalibrated)
      ensures exposureWL == old(exposureWL) && exposureNIR == old(exposureNIR)
    {
      if arg1 == CHECKED {
        monochrome := true;
      }
      if arg1 == UNCHECKED {
        monochrome := false;
      }
    }

    /** The calibration dialog: on OK, the threshold becomes the truncated
        mean of the last raw NIR frame without its first row and column,
        plus 2; on cancel nothing changes. */
    method CalibrateNirThresh(raw: array<u16>, ok: bool)
      requires raw.Length == PIXELS
      modifies this
      ensures threshCalibrated == if ok then CalibratedThreshold(raw[..]) else old(threshCalibrated)
      ensures opacity == old(opacity) && monochrome == old(monochrome)
      ensures exposureWL == old(exposureWL) && exposureNIR == old(exposureNIR)
    {
      if ok {
        var sum := SumInterior(raw);
        var average := sum / INTERIOR;
        threshCalibrated := average + 2;
      }
    }

    /** The NIR render step: the false-colour image of the frame under the
        current threshold, when thresh2 .. thresh5 are found (thresh6 is 0
        when it alone is not). */
    method RenderNir(raw: array<u16>) returns (rgb: Option<array<Rgb>>)
      requires -1 <= threshCalibrated && CountedFit(raw[..], threshCalibrated)
      ensures rgb.Some? <==> FrameThresholds(raw[..], threshCalibrated).Some?
      ensures rgb.Some? ==> fresh(rgb.value) &&
                            rgb.value[..] == ColourMap(raw[..], FrameThresholds(raw[..], threshCalibrated).value)
    {
      rgb := ColourFrame(raw, threshCalibrated);
    }

    /** The composite render step: the underlay is the WL image, or a grey
        copy of it in monochrome mode; the overlay is the NIR false-colour
        image with black transparent and everything else at the current
        opacity. Neither input image is changed. */
    method RenderComposite(wl: array<Rgb>, nir: array<Rgb>, gray: GrayFn)
      returns (underlay: array<Rgb>, overlay: array<Rgba>)
      ensures underlay[..] == if monochrome then Monochrome(wl[..], gray) else wl[..]
      ensures monochrome ==> fresh(underlay)
      ensures fresh(overlay) && overlay[..] == OverlayImage(nir[..], opacity)
    {
      if monochrome {
        underlay := new Rgb[wl.Length](i requires 0 <= i < wl.Length reads wl => wl[i]);
        ToMonochrome(underlay, gray);
      } else {
        underlay := wl;
      }
      overlay := TransparencyPass(nir, opacity);
    }

    /** The number of times each recorder writes a frame: WL and NIR at
        their own exposure, the composite at the shorter one. */
    method RecordingRepeats() returns (wl: int, nir: int, composite: int)
      ensures wl == RepeatCount(exposureWL) && nir == RepeatCount(exposureNIR)
      ensures composite == Min(wl, nir) && composite >= 1
    {
      wl := RepeatCount(exposureWL);
      nir := RepeatCount(exposureNIR);
      composite := RepeatCount(CompositeExposure(exposureWL, exposureNIR));
      CompositeRepeats(exposureWL, exposureNIR);
    }
  }
}
