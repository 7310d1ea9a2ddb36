/** The per-pixel rules of the composite (third) view, `renderFrame_Cam3`
    in src/multichannelviewer.cpp, and the recording repeat counts: the WL
    underlay optionally turned grey, the false-colour NIR overlay with black
    made fully transparent, and the number of times a recorded frame is
    written so that video time follows exposure time.

    Qt's `qGray` is not part of this model: it is a parameter. Both images
    are RGB888 with WIDTH-pixel lines, so their bytes are contiguous, three
    per pixel (Frames.FrameLinesUnpadded), and the byte-pointer loops of the
    source become loops over pixels. */
module Compositor {
  import opened Frames

  /** An `int`-valued grey level of three colour components (`qGray`). */
  type GrayFn = (int, int, int) -> int

  // ---------------------------------------------------------------------
  // Monochrome underlay

  /** One pixel turned grey: its grey level, stored into each of the three
      `unsigned char` components. */
  function GreyPixel(p: Rgb, gray: GrayFn): (q: Rgb)
    ensures q.r == q.g == q.b
    ensures (gray(p.r, p.g, p.b) - q.r) % 256 == 0
  {
    var v := ToByte(gray(p.r, p.g, p.b));
    Rgb(v, v, v)
  }

  function Monochrome(img: seq<Rgb>, gray: GrayFn): (mono: seq<Rgb>)
    ensures |mono| == |img|
    ensures forall i | 0 <= i < |img| :: mono[i].r == mono[i].g == mono[i].b
  {
    seq(|img|, i requires 0 <= i < |img| => GreyPixel(img[i], gray))
  }

  /** A grey pixel is its own grey level when `gray` maps (v, v, v) to v, as
      a weighted average of the components does; then turning an image grey
      twice is the same as once. */
  lemma MonochromeIdempotent(img: seq<Rgb>, gray: GrayFn)
    requires forall v: byte :: gray(v, v, v) == v
    ensures Monochrome(Monochrome(img, gray), gray) == Monochrome(img, gray)
  {
    var once := Monochrome(img, gray);
    forall i | 0 <= i < |img|
      ensures GreyPixel(once[i], gray) == once[i]
    {
      var v := once[i].r;
      assert gray(v, v, v) == v;
    }
  }

  /** The grey-conversion loop, in place on the copy of the WL image. */
  method ToMonochrome(data: array<Rgb>, gray: GrayFn)
    modifies data
    ensures data[..] == Monochrome(old(data[..]), gray)
  {
    for i := 0 to data.Length
      invariant forall j | 0 <= j < i :: data[j] == GreyPixel(old(data[j]), gray)
      invariant forall j | i <= j < data.Length :: data[j] == old(data[j])
    {
      data[i] := GreyPixel(data[i], gray);
    }
  }

  // ---------------------------------------------------------------------
  // Transparent overlay

  /** The conversion of a double to `int` in C++: truncation toward zero. */
  function Truncate(x: real): (n: int)
    ensures x >= 0.0 ==> n as real <= x < n as real + 1.0
    ensures x < 0.0 ==> n as real - 1.0 < x <= n as real
  {
    if x >= 0.0 then x.Floor else -((-x).Floor)
  }

  /** The alpha that `qRgba` stores for `255 * opacity`: the truncated value
      keeps its low eight bits. */
  function Alpha(opacity: real): (a: byte)
    ensures 0.0 <= opacity <= 1.0 ==> a as real <= 255.0 * opacity < a as real + 1.0
  {
    ToByte(Truncate(255.0 * opacity))
  }

  /** An NIR false-colour pixel on the overlay: black becomes fully
      transparent, any other colour keeps its components under the
      overlay's alpha. */
  function Overlay(p: Rgb, opacity: real): (q: Rgba)
    ensures q.r == p.r && q.g == p.g && q.b == p.b
    ensures q.a == 0 <==> p == Black || Alpha(opacity) == 0
    ensures q.a != 0 ==> q.a == Alpha(opacity)
  {
    if p.r == 0 && p.g == 0 && p.b == 0 then Rgba(0, 0, 0, 0)
    else Rgba(p.r, p.g, p.b, Alpha(opacity))
  }

  /** The overlay image: every pixel keeps its NIR colour, and is fully
      transparent exactly where that colour is black or the alpha is 0. */
  function OverlayImage(nir: seq<Rgb>, opacity: real): (out: seq<Rgba>)
    ensures |out| == |nir|
    ensures forall i | 0 <= i < |nir| ::
      out[i].r == nir[i].r && out[i].g == nir[i].g && out[i].b == nir[i].b
    ensures forall i | 0 <= i < |nir| ::
      (out[i].a == 0 <==> nir[i] == Black || Alpha(opacity) == 0) &&
      (out[i].a != 0 ==> out[i].a == Alpha(opacity))
  {
    seq(|nir|, i requires 0 <= i < |nir| => Overlay(nir[i], opacity))
  }

  /** The opacity slider sets `opacity_val = value / 10`. For positions 1 to
      10 the alpha is the truncated 25.5 times the position: 25 at the
      first, 255 at the last, never 0. */
  lemma SliderAlpha(position: int)
    requires 1 <= position <= 10
    ensures Alpha(position as real / 10.0) == 255 * position / 10
    ensures 25 <= Alpha(position as real / 10.0) <= 255
  {
    var x := 255.0 * (position as real / 10.0);
    assert x == (255 * position) as real / 10.0;
    var n := 255 * position / 10;
    assert n as real <= x < n as real + 1.0;
  }

  /** With the slider on positions 1 to 10, a pixel of the overlay is fully
      transparent exactly when its NIR colour is black; at position 0 the
      whole overlay is. */
  lemma TransparentIffBlack(p: Rgb, position: int)
    requires 0 <= position <= 10
    ensures position > 0 ==> (Overlay(p, position as real / 10.0).a == 0 <==> p == Black)
    ensures position == 0 ==> Overlay(p, position as real / 10.0).a == 0
  {
    if position > 0 {
      SliderAlpha(position);
    }
  }

  /** The transparency loop: a new ARGB image built pixel by pixel. */
  method TransparencyPass(nir: array<Rgb>, opacity: real) returns (overlay: array<Rgba>)
    ensures fresh(overlay)
    ensures overlay[..] == OverlayImage(nir[..], opacity)
  {
    overlay := new Rgba[nir.Length](_ => Rgba(0, 0, 0, 0));
    for i := 0 to nir.Length
      invariant forall j | 0 <= j < i :: overlay[j] == Overlay(nir[j], opacity)
    {
      if nir[i].r == 0 && nir[i].g == 0 && nir[i].b == 0 {
        overlay[i] := Rgba(0, 0, 0, 0);
      } else {
        overlay[i] := Rgba(nir[i].r, nir[i].g, nir[i].b, Alpha(opacity));
      }
    }
  }

  // ---------------------------------------------------------------------
  // Recording repeat counts

  /** How many times a recorded frame is written: `(exposure / 1e6) * 24 + 1`
      truncated, i.e. one more than the whole number of 24 fps video frames
      the exposure (in microseconds) lasts. */
  function RepeatCount(exposure: u32): (n: int)
    ensures n >= 1
    ensures 1000000 * (n - 1) <= 24 * exposure < 1000000 * n
  {
    24 * exposure / 1000000 + 1
  }

  lemma RepeatCountMonotone(e: u32, e': u32)
    requires e <= e'
    ensures RepeatCount(e) <= RepeatCount(e')
  {
    assert 24 * e / 1000000 <= 24 * e' / 1000000;
  }

  /** The composite view records at the shorter of the two exposures. */
  function CompositeExposure(exposureWL: u32, exposureNIR: u32): (e: u32)
    ensures e <= exposureWL && e <= exposureNIR
    ensures e == exposureWL || e == exposureNIR
  {
    if exposureWL < exposureNIR then exposureWL else exposureNIR
  }

  /** So the composite video repeats each frame as often as the faster
      camera's video does, never more than either. */
  lemma CompositeRepeats(exposureWL: u32, exposureNIR: u32)
    ensures RepeatCount(CompositeExposure(exposureWL, exposureNIR))
            == Min(RepeatCount(exposureWL), RepeatCount(exposureNIR))
  {
    if exposureWL < exposureNIR {
      RepeatCountMonotone(exposureWL, exposureNIR);
    } else {
      RepeatCountMonotone(exposureNIR, exposureWL);
    }
  }
}
