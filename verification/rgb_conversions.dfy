/**
  Conversions out of RGB that need only min/max, division and modulo: HSL
  and HWB (CSS Color Module Level 4, sections 7 and 8), HSV, and the naive
  uncalibrated CMYK of CSS Color Module Level 4 ("Naively Converting Between
  Uncalibrated CMYK and sRGB-Based Colors"). Alpha is copied in every case.
 */
module RgbConversions {
  import opened Numeric
  import opened Colors

  /** The hue shared by HSL, HSV and HWB: 60° times the position between the
      maximum channel and its neighbours, plus 0°, 120° or 240° for a red,
      green or blue maximum (red wins ties, then green), brought into
      [0, 360). Achromatic colours have hue 0. Dividing every channel by 255
      first, as the formula is usually written, gives the same ratios. */
  function Hue(c: Rgba): (h: real)
    ensures IsHue(h)
    ensures Max3(c) == Min3(c) ==> h == 0.0
  {
    var d := Max3(c) - Min3(c);
    if d == 0.0 then 0.0
    else if c.r == Max3(c) then AdjustHue(60.0 * ((c.g - c.b) / d))
    else if c.g == Max3(c) then AdjustHue(60.0 * ((c.b - c.r) / d + 2.0))
    else AdjustHue(60.0 * ((c.r - c.g) / d + 4.0))
  }

  /** `RGBtoHSL`: lightness is the mid-range of the channels, saturation is
      the chroma over 1 - |2L - 1|, both in percent. */
  function RgbToHsl(c: Rgba): (r: Hsla)
    requires ValidRgb(c)
    ensures IsHue(r.h) && IsPercent(r.s) && IsPercent(r.l)
    ensures r.a == c.a
    ensures r.l == 100.0 * (Max3(c) + Min3(c)) / 510.0
    ensures Max3(c) == Min3(c) ==> r.h == 0.0 && r.s == 0.0 && r.l == 100.0 * c.r / 255.0
  {
    var hi := Max3(c) / 255.0;
    var lo := Min3(c) / 255.0;
    var d := hi - lo;
    var l := (hi + lo) / 2.0;
    var s := if d == 0.0 then 0.0 else SaturationHsl(hi, lo);
    Hsla(Hue(c), 100.0 * s, 100.0 * l, c.a)
  }

  /** The chroma of an HSL colour, in percent: S·(1 − |2L − 1|). */
  function HslChroma(c: Hsla): real {
    c.s * (100.0 - Abs(2.0 * c.l - 100.0)) / 100.0
  }

  /** Saturation in terms of the channels: the chroma S·(1 − |2L − 1|) of
      the HSL form is max − min (section 7 of CSS Color Module Level 4), in
      percent. With the lightness this fixes the saturation of every
      chromatic colour. */
  lemma RgbToHslChroma(c: Rgba)
    requires ValidRgb(c)
    ensures HslChroma(RgbToHsl(c)) == 100.0 * (Max3(c) - Min3(c)) / 255.0
  {
    var hi := Max3(c) / 255.0;
    var lo := Min3(c) / 255.0;
    var r := RgbToHsl(c);
    if Max3(c) != Min3(c) {
      assert 0.0 <= lo < hi <= 1.0;
      HslSaturationIs(c);
      assert r.l == 100.0 * ((hi + lo) / 2.0) by {
        assert r.l == 100.0 * (Max3(c) + Min3(c)) / 510.0;
      }
      ChromaOf(hi, lo, r);
      assert 100.0 * (hi - lo) == 100.0 * (Max3(c) - Min3(c)) / 255.0;
    }
  }

  lemma HslSaturationIs(c: Rgba)
    requires ValidRgb(c) && Max3(c) != Min3(c)
    ensures RgbToHsl(c).s == 100.0 * SaturationHsl(Max3(c) / 255.0, Min3(c) / 255.0)
  {
    assert Max3(c) / 255.0 - Min3(c) / 255.0 != 0.0;
  }

  /** S·(1 − |2L − 1|) = max − min, restated in percent. */
  lemma ChromaOf(hi: real, lo: real, r: Hsla)
    requires 0.0 <= lo < hi <= 1.0
    requires r.s == 100.0 * SaturationHsl(hi, lo) && r.l == 100.0 * ((hi + lo) / 2.0)
    ensures HslChroma(r) == 100.0 * (hi - lo)
  {
    var s := SaturationHsl(hi, lo);
    var u := hi + lo - 1.0;
    assert s * (1.0 - Abs(u)) == hi - lo;
    assert 2.0 * r.l - 100.0 == 100.0 * u;
    assert Abs(100.0 * u) == 100.0 * Abs(u);
    assert r.s * (100.0 - 100.0 * Abs(u)) == 10000.0 * (s * (1.0 - Abs(u)));
  }

  /** Chroma over 1 - |2L - 1|, for channels scaled to [0, 1]. */
  function SaturationHsl(hi: real, lo: real): (s: real)
    requires 0.0 <= lo < hi <= 1.0
    ensures 0.0 < s <= 1.0
    ensures s * (1.0 - Abs(hi + lo - 1.0)) == hi - lo
  {
    var den := 1.0 - Abs(hi + lo - 1.0);
    assert 0.0 < hi - lo <= den;
    DivMul(hi - lo, den);
    (hi - lo) / den
  }

  /** `RGBtoHSV`: value is the maximum channel, saturation the chroma over
      the maximum (0 for black), both in percent. */
  function RgbToHsv(c: Rgba): (r: Hsva)
    ensures IsHue(r.h)
    ensures r.a == c.a
    ensures r.v == 100.0 * Max3(c) / 255.0
    ensures Max3(c) == Min3(c) ==> r.s == 0.0
    ensures Max3(c) != 0.0 ==> r.s == 100.0 * ((Max3(c) - Min3(c)) / Max3(c))
  {
    var hi := Max3(c);
    var s := if hi == 0.0 then 0.0 else (hi - Min3(c)) / hi;
    Hsva(Hue(c), 100.0 * s, 100.0 * hi / 255.0, c.a)
  }

  /** For a colour in [0, 255]³, saturation and value are percentages. */
  lemma RgbToHsvRange(c: Rgba)
    requires ValidRgb(c)
    ensures IsPercent(RgbToHsv(c).s) && IsPercent(RgbToHsv(c).v)
  {
    if Max3(c) != 0.0 {
      DivUnit(Max3(c) - Min3(c), Max3(c));
    }
  }

  /** HWB as a reparameterisation of HSV: whiteness (1 - S)·V and blackness
      1 - V, in percent. */
  function HsvToHwb(c: Hsva): (r: Hwba)
    ensures r.h == c.h && r.a == c.a
    ensures r.b == 100.0 - c.v
    ensures c.s == 0.0 ==> r.w + r.b == 100.0
    ensures c.s == 100.0 ==> r.w == 0.0
  {
    Hwba(c.h, (100.0 - c.s) * c.v / 100.0, 100.0 - c.v, c.a)
  }

  /** `RGBtoHWB`: HSV reparameterised. */
  function RgbToHwb(c: Rgba): (r: Hwba)
    ensures IsHue(r.h) && r.a == c.a
  {
    HsvToHwb(RgbToHsv(c))
  }

  /** For a colour in [0, 255]³, whiteness and blackness are percentages that
      add up to at most 100. */
  lemma RgbToHwbRange(c: Rgba)
    requires ValidRgb(c)
    ensures IsPercent(RgbToHwb(c).w) && IsPercent(RgbToHwb(c).b)
    ensures RgbToHwb(c).w + RgbToHwb(c).b <= 100.0
  {
    RgbToHwbMinMax(c);
  }

  /** Whiteness is the minimum channel and blackness the complement of the
      maximum, each as a percentage of 255. */
  lemma RgbToHwbMinMax(c: Rgba)
    requires ValidRgb(c)
    ensures RgbToHwb(c).w == 100.0 * Min3(c) / 255.0
    ensures RgbToHwb(c).b == 100.0 - 100.0 * Max3(c) / 255.0
  {
    var hsv := RgbToHsv(c);
    var hi := Max3(c);
    if hi != 0.0 {
      var s := (hi - Min3(c)) / hi;
      DivMul(hi - Min3(c), hi);
      Whiteness(s, hi, Min3(c));
      HsvToHwbWhiteness(hsv, s, hi, Min3(c));
    }
  }

  lemma HsvToHwbWhiteness(hsv: Hsva, s: real, hi: real, lo: real)
    requires hsv.s == 100.0 * s && hsv.v == 100.0 * hi / 255.0
    requires (100.0 - 100.0 * s) * (100.0 * hi / 255.0) / 100.0 == 100.0 * lo / 255.0
    ensures HsvToHwb(hsv).w == 100.0 * lo / 255.0
  {
  }

  /** (1 - S)·V in percent is the minimum channel when S·max = max - min. */
  lemma Whiteness(s: real, hi: real, lo: real)
    requires s * hi == hi - lo
    ensures (100.0 - 100.0 * s) * (100.0 * hi / 255.0) / 100.0 == 100.0 * lo / 255.0
  {
    calc {
      (100.0 - 100.0 * s) * (100.0 * hi / 255.0) / 100.0;
      == (1.0 - s) * (100.0 * hi / 255.0);
      == (100.0 / 255.0) * ((1.0 - s) * hi);
      == (100.0 / 255.0) * (hi - s * hi);
      == 100.0 * lo / 255.0;
    }
  }

  /** HSL, HSV and HWB agree on the hue. */
  lemma SharedHue(c: Rgba)
    requires ValidRgb(c)
    ensures RgbToHsl(c).h == RgbToHsv(c).h == RgbToHwb(c).h == Hue(c)
  {
  }

  /** One ink of the naive conversion: (1 - x/255 - k) / (1 - k), or 0 when
      k = 1 (black), so there is no division by zero. */
  function Ink(x: real, k: real): real {
    if k == 1.0 then 0.0 else (1.0 - x / 255.0 - k) / (1.0 - k)
  }

  /** `RGBtoCMYK`: k = 1 - max/255 and each ink as above, in percent. */
  function RgbToCmyk(c: Rgba): (r: Cmyka)
    ensures r.a == c.a
    ensures r.k == 100.0 - 100.0 * Max3(c) / 255.0
    ensures Max3(c) == 0.0 ==> r.c == 0.0 && r.m == 0.0 && r.y == 0.0 && r.k == 100.0
  {
    var k := 1.0 - Max3(c) / 255.0;
    Cmyka(100.0 * Ink(c.r, k), 100.0 * Ink(c.g, k), 100.0 * Ink(c.b, k), 100.0 * k, c.a)
  }

  /** For a colour in [0, 255]³ every ink is a percentage. */
  lemma RgbToCmykRange(c: Rgba)
    requires ValidRgb(c)
    ensures ValidCmyk(RgbToCmyk(c))
  {
    InkFraction(c.r, Max3(c));
    InkFraction(c.g, Max3(c));
    InkFraction(c.b, Max3(c));
  }

  /** For a channel at most the maximum, its ink is the fraction
      (max - x) / max of the maximum, so lies in [0, 1]. */
  lemma InkFraction(x: real, hi: real)
    requires 0.0 <= x <= hi <= 255.0
    ensures 0.0 <= Ink(x, 1.0 - hi / 255.0) <= 1.0
    ensures hi != 0.0 ==> Ink(x, 1.0 - hi / 255.0) == (hi - x) / hi
  {
    var k := 1.0 - hi / 255.0;
    if hi != 0.0 {
      assert 1.0 - x / 255.0 - k == (hi - x) / 255.0;
      assert 1.0 - k == hi / 255.0;
      var q := ((hi - x) / 255.0) / (hi / 255.0);
      assert q * (hi / 255.0) == (hi - x) / 255.0;
      assert q * hi == hi - x;
      DivUnique(q, hi - x, hi);
      DivUnit(hi - x, hi);
    }
  }

  /** Black is h = s = l = 0 and white is h = s = 0, l = 100. */
  lemma HslBlackWhite()
    ensures RgbToHsl(Rgba(0.0, 0.0, 0.0, 1.0)) == Hsla(0.0, 0.0, 0.0, 1.0)
    ensures RgbToHsl(Rgba(255.0, 255.0, 255.0, 1.0)) == Hsla(0.0, 0.0, 100.0, 1.0)
  {
    HslAchromatic(0.0, 1.0);
    HslAchromatic(255.0, 1.0);
  }

  /** A grey (r = g = b) has hue 0, saturation 0 and lightness 100·r/255. */
  lemma HslAchromatic(x: real, a: real)
    requires IsByte(x)
    ensures RgbToHsl(Rgba(x, x, x, a)) == Hsla(0.0, 0.0, 100.0 * x / 255.0, a)
  {
    var c := Rgba(x, x, x, a);
    assert Max3(c) == x && Min3(c) == x;
  }

  /** The worked example (200, 150, 100, 0.7): HSV (30, 50, 100·200/255, 0.7). */
  lemma HsvExample()
    ensures RgbToHsv(Rgba(200.0, 150.0, 100.0, 0.7)) == Hsva(30.0, 50.0, 100.0 * 200.0 / 255.0, 0.7)
  {
    AdjustHueExact(30.0);
  }

  /** The worked example (200, 150, 100, 0.7): HWB (30, 100·100/255, 100·55/255, 0.7). */
  lemma HwbExample()
    ensures RgbToHwb(Rgba(200.0, 150.0, 100.0, 0.7)) == Hwba(30.0, 100.0 * 100.0 / 255.0, 100.0 * 55.0 / 255.0, 0.7)
  {
    HsvExample();
  }

  /** The worked example (200, 150, 100, 0.7): CMYK (0, 25, 50, 100·55/255, 0.7). */
  lemma CmykExample()
    ensures RgbToCmyk(Rgba(200.0, 150.0, 100.0, 0.7)) == Cmyka(0.0, 25.0, 50.0, 100.0 * 55.0 / 255.0, 0.7)
  {
  }

  lemma AdjustHueExact(x: real)
    requires IsHue(x)
    ensures AdjustHue(x) == x
  {
  }
}
