/** The even-split false-colour view of the 16-bit infrared frame and the
    minimum/maximum state that drives it (multichannelviewer.cpp, the
    earlier version of the main window): seven thresholds spaced
    (maxVal - minVal) / 6 apart, a colour ramp between them computed with
    C++ integer arithmetic and stored into `unsigned char` components, and
    the slider/spin-box handlers that keep maxVal at least 100 above
    minVal. */
module EvenSplit {
  import opened Frames

  // ---------------------------------------------------------------------
  // C++ integer division

  function Abs(x: int): nat
  {
    if x < 0 then -x else x
  }

  /** `a / b` on `int` in C++: the quotient truncated toward zero. */
  function CDiv(a: int, b: int): (q: int)
    requires b != 0
    ensures a >= 0 && b > 0 ==> q == a / b
    ensures a < 0 && b > 0 ==> q == -((-a) / b)
  {
    var m := Abs(a) / Abs(b);
    if (a < 0) != (b < 0) then -m else m
  }

  // ---------------------------------------------------------------------
  // Thresholds

  /** `space = (thresh7 - thresh1) / 6`. */
  function Space(minVal: int, maxVal: int): (s: int)
    ensures minVal <= maxVal ==> 0 <= 6 * s <= maxVal - minVal < 6 * s + 6
  {
    CDiv(maxVal - minVal, 6)
  }

  /** thresh1 .. thresh7: thresh1 is minVal, thresh7 is maxVal, and each of
      thresh2 .. thresh6 is the previous one plus `space`. */
  function Thresh(minVal: int, maxVal: int, i: int): (t: int)
    requires 1 <= i <= 7
    ensures i < 7 ==> t == minVal + (i - 1) * Space(minVal, maxVal)
    ensures i == 7 ==> t == maxVal
  {
    if i == 1 then minVal
    else if i == 7 then maxVal
    else Thresh(minVal, maxVal, i - 1) + Space(minVal, maxVal)
  }

  /** The last band is wider than the others by the remainder of the
      division by six. */
  lemma LastGap(minVal: int, maxVal: int)
    requires minVal <= maxVal
    ensures Thresh(minVal, maxVal, 7) - Thresh(minVal, maxVal, 6)
            == Space(minVal, maxVal) + (maxVal - minVal) % 6
  {
    var s := Space(minVal, maxVal);
    assert s == (maxVal - minVal) / 6;
    assert Thresh(minVal, maxVal, 6) == minVal + 5 * s;
  }

  /** With at least six counts between minVal and maxVal the thresholds
      strictly increase, each gap at least `space`. */
  lemma ThresholdsIncrease(minVal: int, maxVal: int, i: int)
    requires minVal + 6 <= maxVal && 1 <= i < 7
    ensures Thresh(minVal, maxVal, i) + Space(minVal, maxVal) <= Thresh(minVal, maxVal, i + 1)
    ensures Space(minVal, maxVal) >= 1
  {
    if i == 6 {
      LastGap(minVal, maxVal);
    }
  }

  // ---------------------------------------------------------------------
  // Colour bands

  /** The band of a raw value: 0 up to thresh1, then one band per threshold
      interval, and 7 above thresh7. */
  function EvenBand(counts: int, minVal: int, maxVal: int): (b: nat)
    ensures b <= 7
    ensures b == 0 <==> counts <= minVal
    ensures minVal <= maxVal ==> (b == 7 <==> counts > maxVal)
  {
    if counts <= Thresh(minVal, maxVal, 1) then 0
    else if counts <= Thresh(minVal, maxVal, 2) then 1
    else if counts <= Thresh(minVal, maxVal, 3) then 2
    else if counts <= Thresh(minVal, maxVal, 4) then 3
    else if counts <= Thresh(minVal, maxVal, 5) then 4
    else if counts <= Thresh(minVal, maxVal, 6) then 5
    else if counts <= Thresh(minVal, maxVal, 7) then 6
    else 7
  }

  /** The colour of a pixel is defined unless its band divides by a zero
      `space` (bands 3 to 6 divide by it). */
  predicate Defined(counts: int, minVal: int, maxVal: int)
  {
    var b := EvenBand(counts, minVal, maxVal);
    Space(minVal, maxVal) != 0 || b < 3 || b == 7
  }

  /** The colour of one raw value: black, blue, cyan, green fading out its
      blue, red rising on green, green fading out of red, green and blue
      rising on red, white. Each component is the `int` expression of the
      band stored into an `unsigned char`. */
  function EvenColour(counts: int, minVal: int, maxVal: int): (p: Rgb)
    requires Defined(counts, minVal, maxVal)
    ensures p == Black <==> counts <= minVal
    ensures minVal <= maxVal && counts > maxVal ==> p == Rgb(255, 255, 255)
  {
    var s := Space(minVal, maxVal);
    match EvenBand(counts, minVal, maxVal)
    case 0 => Black
    case 1 => Rgb(0, 0, 255)
    case 2 => Rgb(0, 255, 255)
    case 3 => Rgb(0, 255, ToByte(255 * (1 - CDiv(counts - Thresh(minVal, maxVal, 3), s))))
    case 4 => Rgb(ToByte(CDiv(255 * (counts - Thresh(minVal, maxVal, 4)), s)), 255, 0)
    case 5 => Rgb(255, ToByte(255 * (1 - CDiv(counts - Thresh(minVal, maxVal, 5), s))), 0)
    case 6 =>
      var v := ToByte(CDiv(255 * (counts - Thresh(minVal, maxVal, 6)), s));
      Rgb(255, v, v)
    case _ => Rgb(255, 255, 255)
  }

  /** d / s for d in 1 .. s is 1 at s and 0 below it. */
  lemma WholeBand(d: int, s: int)
    requires 0 < d <= s
    ensures d / s == if d == s then 1 else 0
  {
    if d < s {
      assert d / s == 0;
    }
  }

  /** In (thresh3, thresh4] blue stays 255 and drops to 0 only at thresh4;
      likewise green in (thresh5, thresh6]: the integer quotient is 0 until
      the band's last value. */
  lemma FadingBands(counts: int, minVal: int, maxVal: int)
    requires minVal + 6 <= maxVal
    ensures EvenBand(counts, minVal, maxVal) == 3 ==>
      EvenColour(counts, minVal, maxVal).b == (if counts == Thresh(minVal, maxVal, 4) then 0 else 255)
    ensures EvenBand(counts, minVal, maxVal) == 5 ==>
      EvenColour(counts, minVal, maxVal).g == (if counts == Thresh(minVal, maxVal, 6) then 0 else 255)
  {
    ThresholdsIncrease(minVal, maxVal, 3);
    ThresholdsIncrease(minVal, maxVal, 5);
    var s := Space(minVal, maxVal);
    var b := EvenBand(counts, minVal, maxVal);
    if b == 3 {
      var d := counts - Thresh(minVal, maxVal, 3);
      assert 0 < d <= s && Thresh(minVal, maxVal, 4) == Thresh(minVal, maxVal, 3) + s;
      WholeBand(d, s);
    } else if b == 5 {
      var d := counts - Thresh(minVal, maxVal, 5);
      assert 0 < d <= s && Thresh(minVal, maxVal, 6) == Thresh(minVal, maxVal, 5) + s;
      WholeBand(d, s);
    }
  }

  /** Integer division by a positive divisor is monotone. */
  lemma DivMonotone(x: int, x': int, s: int)
    requires s > 0 && x <= x'
    ensures x / s <= x' / s
  {
    var q, q' := x / s, x' / s;
    assert q * s <= x && x' < q' * s + s;
    var k := q - q' - 1;
    assert k >= 0 ==> k * s >= 0;
    assert q * s == (q' + 1) * s + k * s;
  }

  /** 255 d / s for d in 1 .. s lies in 0 .. 255. */
  lemma ScaledFraction(d: int, s: int)
    requires 0 < d <= s
    ensures 0 <= 255 * d / s <= 255
  {
    DivMonotone(255 * d, 255 * s, s);
    assert 255 * s / s == 255;
  }

  /** In (thresh4, thresh5] red is 255 (counts - thresh4) / space, which
      never leaves 0 .. 255, so nothing wraps; it rises with counts. */
  lemma RisingRed(counts: int, counts': int, minVal: int, maxVal: int)
    requires minVal + 6 <= maxVal
    requires EvenBand(counts, minVal, maxVal) == 4
    ensures var r := EvenColour(counts, minVal, maxVal).r;
            r == 255 * (counts - Thresh(minVal, maxVal, 4)) / Space(minVal, maxVal) && 0 <= r <= 255
    ensures EvenBand(counts', minVal, maxVal) == 4 && counts <= counts' ==>
            EvenColour(counts, minVal, maxVal).r <= EvenColour(counts', minVal, maxVal).r
  {
    ThresholdsIncrease(minVal, maxVal, 4);
    var s := Space(minVal, maxVal);
    var d := counts - Thresh(minVal, maxVal, 4);
    ScaledFraction(d, s);
    if EvenBand(counts', minVal, maxVal) == 4 && counts <= counts' {
      var d' := counts' - Thresh(minVal, maxVal, 4);
      ScaledFraction(d', s);
      DivMonotone(255 * d, 255 * d', s);
    }
  }

  /** In (thresh6, thresh7] green and blue equal 255 (counts - thresh6) /
      space while counts is at most thresh6 + space; past that the last
      band's extra width makes the quotient exceed 255. */
  lemma LastBandInRange(counts: int, minVal: int, maxVal: int)
    requires minVal + 6 <= maxVal
    requires EvenBand(counts, minVal, maxVal) == 6
    requires counts <= Thresh(minVal, maxVal, 6) + Space(minVal, maxVal)
    ensures var p := EvenColour(counts, minVal, maxVal);
            p.r == 255 && p.g == p.b == 255 * (counts - Thresh(minVal, maxVal, 6)) / Space(minVal, maxVal)
  {
    ThresholdsIncrease(minVal, maxVal, 6);
    ScaledFraction(counts - Thresh(minVal, maxVal, 6), Space(minVal, maxVal));
  }

  /** At the start-up values minVal 10 and maxVal 200, space is 31, thresh6
      is 165, and a raw value of 200 gives 255 * 35 / 31 = 287 for green
      and blue, stored as 31: the brightest in-range value shows pink
      instead of near-white. */
  lemma LastBandWrapsAtDefaults()
    ensures Space(10, 200) == 31 && Thresh(10, 200, 6) == 165
    ensures EvenBand(200, 10, 200) == 6
    ensures EvenColour(200, 10, 200) == Rgb(255, 31, 31)
  {
    assert Space(10, 200) == 31;
    assert Thresh(10, 200, 2) == 41 && Thresh(10, 200, 3) == 72 && Thresh(10, 200, 4) == 103;
    assert Thresh(10, 200, 5) == 134 && Thresh(10, 200, 6) == 165;
    assert CDiv(255 * 35, 31) == 287;
  }

  function EvenColourMap(raw: seq<u16>, minVal: int, maxVal: int): (rgb: seq<Rgb>)
    requires forall i | 0 <= i < |raw| :: Defined(raw[i], minVal, maxVal)
    ensures |rgb| == |raw|
    ensures forall i | 0 <= i < |raw| :: (rgb[i] == Black <==> raw[i] <= minVal)
  {
    seq(|raw|, i requires 0 <= i < |raw| => EvenColour(raw[i], minVal, maxVal))
  }

  /** A gap of at least 100 between minVal and maxVal gives a space of at
      least 16, so every raw value has a defined colour. */
  lemma GapDefinesAll(minVal: int, maxVal: int, counts: int)
    requires minVal + 100 <= maxVal
    ensures Space(minVal, maxVal) >= 16
    ensures Defined(counts, minVal, maxVal)
  {
  }

  // ---------------------------------------------------------------------
  // Handler arithmetic

  /** The minVal a handler stores: the new value when it is more than 100
      below maxVal, otherwise maxVal - 100, kept as an `unsigned short`. */
  function ClampMin(value: int, maxVal: u16): (m: u16)
    ensures 0 <= value < maxVal - 100 ==> m == value
    ensures 100 <= maxVal && value >= maxVal - 100 ==> m == maxVal - 100
    ensures 0 <= value && 100 <= maxVal ==> m + 100 <= maxVal
  {
    ToU16(if value < maxVal - 100 then value else maxVal - 100)
  }

  /** The maxVal a handler stores: the new value when it is more than 100
      above minVal, otherwise minVal + 100, kept as an `unsigned short`. */
  function ClampMax(value: int, minVal: u16): (m: u16)
    ensures minVal + 100 < value < 0x1_0000 ==> m == value
    ensures value <= minVal + 100 < 0x1_0000 ==> m == minVal + 100
    ensures value < 0x1_0000 && minVal + 100 < 0x1_0000 ==> minVal + 100 <= m
  {
    ToU16(if value > minVal + 100 then value else minVal + 100)
  }

  /** The two fields of the window the even-split view reads. */
  class MultiChannelViewer {
    var minVal: u16
    var maxVal: u16

    /** The gap the handlers maintain. */
    predicate Valid()
      reads this
    {
      minVal + 100 <= maxVal
    }

    constructor ()
      ensures minVal == 10 && maxVal == 200
      ensures Valid()
    {
      minVal := 10;
      maxVal := 200;
    }

    /** The minVal slider. From a valid state and a value the slider can
        give (0 .. 4095), the gap is kept. */
    method OnMinValChanged(value: int)
      modifies this
      ensures minVal == ClampMin(value, old(maxVal)) && maxVal == old(maxVal)
      ensures old(Valid()) && 0 <= value ==> Valid()
    {
      if value < maxVal - 100 {
        minVal := ToU16(value);
      } else {
        minVal := ToU16(maxVal - 100);
      }
    }

    /** The maxVal slider. From a valid state and a value the slider can
        give, the gap is kept. */
    method OnMaxValChanged(value: int)
      modifies this
      ensures maxVal == ClampMax(value, old(minVal)) && minVal == old(minVal)
      ensures old(Valid()) && value <= 4095 && old(maxVal) <= 4095 ==> Valid() && maxVal <= 4095
    {
      if value > minVal + 100 {
        maxVal := ToU16(value);
      } else {
        maxVal := ToU16(minVal + 100);
      }
    }

    /** The minVal spin box changes the state exactly as the slider does. */
    method OnMinValSpinboxChanged(arg1: int)
      modifies this
      ensures minVal == ClampMin(arg1, old(maxVal)) && maxVal == old(maxVal)
      ensures old(Valid()) && 0 <= arg1 ==> Valid()
    {
      OnMinValChanged(arg1);
    }

    /** The maxVal spin box changes the state exactly as the slider does. */
    method OnMaxValSpinboxChanged(arg1: int)
      modifies this
      ensures maxVal == ClampMax(arg1, old(minVal)) && minVal == old(minVal)
      ensures old(Valid()) && arg1 <= 4095 && old(maxVal) <= 4095 ==> Valid() && maxVal <= 4095
    {
      OnMaxValChanged(arg1);
    }

    /** The colour loop of `renderFrame_Cam2`: one RGB pixel per raw value,
        in order. */
    method RenderFrame(raw: array<u16>) returns (rgb: array<Rgb>)
      requires forall i | 0 <= i < raw.Length :: Defined(raw[i], minVal, maxVal)
      ensures fresh(rgb)
      ensures rgb[..] == EvenColourMap(raw[..], minVal, maxVal)
    {
      rgb := new Rgb[raw.Length](_ => Black);
      for i := 0 to raw.Length
        invariant forall j | 0 <= j < i :: rgb[j] == EvenColour(raw[j], minVal, maxVal)
      {
        rgb[i] := EvenColour(raw[i], minVal, maxVal);
      }
    }
  }
}
