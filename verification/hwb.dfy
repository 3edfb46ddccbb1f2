/**
  `HWBtoRGB`, through its HSV-to-RGB helper: HWB is read back as HSV
  (V = 1 - B, S = 1 - W/V) and HSV is turned into RGB by the six-sector
  formula: chroma C = V·S, the intermediate X = C·(1 - |(H/60) mod 2 - 1|),
  the floor m = V - C, and (C, X, 0) permuted by the 60° sector of H.
 */
module Hwb {
  import opened Numeric
  import opened Colors
  import opened RgbConversions

  /** Floored `t mod 2`. */
  function Mod2(t: real): (r: real)
    ensures 0.0 <= r < 2.0
  {
    t - 2.0 * (t / 2.0).Floor as real
  }

  /** 1 - |(H/60) mod 2 - 1| for a hue in [0, 360), written sector by sector:
      it rises from 0 to 1 across an even sector and falls back across an odd
      one. `HueFactorModulo` shows it is the modulo formula. */
  function HueFactor(h: real): (f: real)
    requires IsHue(h)
    ensures 0.0 <= f <= 1.0
  {
    if h < 60.0 then h / 60.0
    else if h < 120.0 then 2.0 - h / 60.0
    else if h < 180.0 then h / 60.0 - 2.0
    else if h < 240.0 then 4.0 - h / 60.0
    else if h < 300.0 then h / 60.0 - 4.0
    else 6.0 - h / 60.0
  }

  /** The channel offsets above the floor, by the 60° sector of the hue. */
  function Sector(h: real, chroma: real, x: real): (real, real, real) {
    if h < 60.0 then (chroma, x, 0.0)
    else if h < 120.0 then (x, chroma, 0.0)
    else if h < 180.0 then (0.0, chroma, x)
    else if h < 240.0 then (0.0, x, chroma)
    else if h < 300.0 then (x, 0.0, chroma)
    else (chroma, 0.0, x)
  }

  /** Channels 255·(offset + floor) from the sector offsets and the floor. */
  function Assemble(p: (real, real, real), m: real, a: real): Rgba {
    Rgba(255.0 * (p.0 + m), 255.0 * (p.1 + m), 255.0 * (p.2 + m), a)
  }

  /** The fraction f of k, k·f. */
  function Portion(k: real, f: real): (r: real)
    ensures 0.0 <= k && 0.0 <= f <= 1.0 ==> 0.0 <= r <= k
    ensures k == 0.0 || f == 0.0 ==> r == 0.0
    ensures f == 1.0 ==> r == k
  {
    k * f
  }

  /** The hue brought into [0, 360). */
  function HsvHue(c: Hsva): (h: real)
    ensures IsHue(h)
  {
    AdjustHue(c.h)
  }

  /** V as a fraction. */
  function HsvValue(c: Hsva): real {
    c.v / 100.0
  }

  /** The chroma C = V·S, as a fraction. */
  function HsvChroma(c: Hsva): real {
    Portion(HsvValue(c), c.s / 100.0)
  }

  /** The intermediate X = C·(1 - |(H/60) mod 2 - 1|). */
  function HsvX(c: Hsva): real {
    Portion(HsvChroma(c), HueFactor(HsvHue(c)))
  }

  /** HSV to RGB: the sector offsets over the floor V - C, scaled to 255. */
  function HsvToRgb(c: Hsva): (r: Rgba)
    ensures r.a == c.a
    ensures c.v == 0.0 ==> r.r == 0.0 && r.g == 0.0 && r.b == 0.0
    ensures c.s == 0.0 ==> r.r == r.g == r.b == 255.0 * (c.v / 100.0)
  {
    Assemble(Sector(HsvHue(c), HsvChroma(c), HsvX(c)), HsvValue(c) - HsvChroma(c), c.a)
  }

  /** The sector-wise factor is the modulo formula 1 - |(H/60) mod 2 - 1|. */
  lemma HueFactorModulo(h: real)
    requires IsHue(h)
    ensures HueFactor(h) == 1.0 - Abs(Mod2(h / 60.0) - 1.0)
  {
    var t := h / 60.0;
    if h < 120.0 {
      assert (t / 2.0).Floor == 0;
    } else if h < 240.0 {
      assert (t / 2.0).Floor == 1;
    } else {
      assert (t / 2.0).Floor == 2;
    }
  }

  /** For s and v in [0, 100]: 0 <= X <= C <= V <= 1. */
  lemma HsvFractions(c: Hsva)
    requires IsPercent(c.s) && IsPercent(c.v)
    ensures 0.0 <= HsvChroma(c) <= HsvValue(c) <= 1.0
    ensures 0.0 <= HsvX(c) <= HsvChroma(c)
  {
  }

  /** The chroma is the product V·S. */
  lemma HsvChromaIs(c: Hsva)
    ensures HsvChroma(c) == c.v / 100.0 * (c.s / 100.0)
  {
  }

  /** The offsets are (C, X, 0) in some order: with 0 <= X <= C each lies in
      [0, C], one of them is C and one is 0. */
  lemma SectorRange(h: real, chroma: real, x: real)
    requires 0.0 <= x <= chroma
    ensures var p := Sector(h, chroma, x);
      0.0 <= p.0 <= chroma && 0.0 <= p.1 <= chroma && 0.0 <= p.2 <= chroma
      && (p.0 == chroma || p.1 == chroma || p.2 == chroma)
      && (p.0 == 0.0 || p.1 == 0.0 || p.2 == 0.0)
  {
  }

  /** Channels built from offsets that are (C, X, 0) in some order, over the
      floor V - C: they lie in [0, 255], the largest is 255·V and the
      smallest 255·(V - C). */
  lemma OffsetChannels(p: (real, real, real), chroma: real, v: real, a: real)
    requires 0.0 <= chroma <= v <= 1.0
    requires 0.0 <= p.0 <= chroma && 0.0 <= p.1 <= chroma && 0.0 <= p.2 <= chroma
    requires p.0 == chroma || p.1 == chroma || p.2 == chroma
    requires p.0 == 0.0 || p.1 == 0.0 || p.2 == 0.0
    ensures ValidRgb(Assemble(p, v - chroma, a))
    ensures Max3(Assemble(p, v - chroma, a)) == 255.0 * v
    ensures Min3(Assemble(p, v - chroma, a)) == 255.0 * (v - chroma)
  {
  }

  /** For s and v in [0, 100] the channels lie in [0, 255], the largest is
      255·V and the smallest 255·(V - V·S): HSV's value is the maximum
      channel and its saturation the chroma over it. */
  lemma HsvToRgbMaxMin(c: Hsva)
    requires IsPercent(c.s) && IsPercent(c.v)
    ensures ValidRgb(HsvToRgb(c))
    ensures Max3(HsvToRgb(c)) == 255.0 * (c.v / 100.0)
    ensures Min3(HsvToRgb(c)) == 255.0 * (c.v / 100.0 - c.v / 100.0 * (c.s / 100.0))
  {
    HsvFractions(c);
    HsvChromaIs(c);
    SectorRange(HsvHue(c), HsvChroma(c), HsvX(c));
    OffsetChannels(Sector(HsvHue(c), HsvChroma(c), HsvX(c)), HsvChroma(c), HsvValue(c), c.a);
  }

  /** HWB read as HSV: value 1 - B and saturation 1 - W/V, in percent (0 for
      black, where V = 0). */
  function HwbToHsv(c: Hwba): (r: Hsva)
    requires c.w + c.b <= 100.0
    ensures r.h == c.h && r.a == c.a
    ensures r.v == 100.0 - c.b
    ensures c.w == 0.0 ==> r.s == (if c.b == 100.0 then 0.0 else 100.0)
  {
    var v := 100.0 - c.b;
    var s := if v == 0.0 then 0.0 else 100.0 - 100.0 * (c.w / v);
    Hsva(c.h, s, v, c.a)
  }

  /** `HWBtoRGB`, for whiteness and blackness adding up to at most 100. */
  function HwbToRgb(c: Hwba): (r: Rgba)
    requires c.w + c.b <= 100.0
    ensures r.a == c.a
    ensures c.b == 100.0 ==> r.r == 0.0 && r.g == 0.0 && r.b == 0.0
  {
    HsvToRgb(HwbToHsv(c))
  }

  /** W and B in [0, 100] with W + B <= 100 give S and V in [0, 100], and
      the floor V - C is the whiteness. */
  lemma HwbToHsvRange(c: Hwba)
    requires IsPercent(c.w) && IsPercent(c.b) && c.w + c.b <= 100.0
    ensures IsPercent(HwbToHsv(c).s) && IsPercent(HwbToHsv(c).v)
    ensures HsvValue(HwbToHsv(c)) - HsvChroma(HwbToHsv(c)) == c.w / 100.0
  {
    var v := 100.0 - c.b;
    if v != 0.0 {
      DivUnit(c.w, v);
      Whiten(v, c.w);
    }
  }

  /** V - V·S = W when S = 1 - W/V, all as fractions. */
  lemma Whiten(v: real, w: real)
    requires v != 0.0
    ensures v / 100.0 - Portion(v / 100.0, (100.0 - 100.0 * (w / v)) / 100.0) == w / 100.0
  {
    var q := w / v;
    assert q * v == w;
    assert (v / 100.0) * ((100.0 - 100.0 * q) / 100.0) == (v - q * v) / 100.0;
  }

  /** For w and b in [0, 100] with w + b <= 100: the channels lie in
      [0, 255], the largest is 255·(1 - B) and the smallest 255·W. With no
      whiteness and no blackness the colour is fully saturated. */
  lemma HwbToRgbMaxMin(c: Hwba)
    requires IsPercent(c.w) && IsPercent(c.b) && c.w + c.b <= 100.0
    ensures ValidRgb(HwbToRgb(c))
    ensures Max3(HwbToRgb(c)) == 255.0 * (100.0 - c.b) / 100.0
    ensures Min3(HwbToRgb(c)) == 255.0 * c.w / 100.0
    ensures c.w == 0.0 && c.b == 0.0 ==> Max3(HwbToRgb(c)) == 255.0 && Min3(HwbToRgb(c)) == 0.0
  {
    var hsv := HwbToHsv(c);
    HwbToHsvRange(c);
    HsvFractions(hsv);
    SectorRange(HsvHue(hsv), HsvChroma(hsv), HsvX(hsv));
    OffsetChannels(Sector(HsvHue(hsv), HsvChroma(hsv), HsvX(hsv)), HsvChroma(hsv), HsvValue(hsv), hsv.a);
  }

  /** Reading RGB's HWB back as HSV gives exactly RGB's HSV. */
  lemma HwbToHsvInverse(c: Rgba)
    requires ValidRgb(c)
    ensures RgbToHwb(c).w + RgbToHwb(c).b <= 100.0
    ensures HwbToHsv(RgbToHwb(c)) == RgbToHsv(c)
  {
    RgbToHwbRange(c);
    RgbToHwbMinMax(c);
    var hi := Max3(c);
    var lo := Min3(c);
    if hi != 0.0 {
      WhitenessRatio(hi, lo);
      HwbSaturation(RgbToHwb(c), hi, lo);
    }
  }

  lemma WhitenessRatio(hi: real, lo: real)
    requires hi != 0.0
    ensures (100.0 * lo / 255.0) / (100.0 * hi / 255.0) == lo / hi
  {
    var q := lo / hi;
    assert q * hi == lo;
    assert q * (100.0 * hi / 255.0) == 100.0 * lo / 255.0;
    DivUnique(q, 100.0 * lo / 255.0, 100.0 * hi / 255.0);
  }

  lemma SaturationOfRatio(hi: real, lo: real)
    requires hi != 0.0
    ensures 100.0 - 100.0 * (lo / hi) == 100.0 * ((hi - lo) / hi)
  {
    var q := lo / hi;
    assert q * hi == lo;
    assert (1.0 - q) * hi == hi - lo;
    DivUnique(1.0 - q, hi - lo, hi);
  }

  lemma HwbSaturation(hwb: Hwba, hi: real, lo: real)
    requires 0.0 < hi && hwb.w + hwb.b <= 100.0
    requires hwb.w == 100.0 * lo / 255.0 && hwb.b == 100.0 - 100.0 * hi / 255.0
    requires (100.0 * lo / 255.0) / (100.0 * hi / 255.0) == lo / hi
    ensures HwbToHsv(hwb).s == 100.0 * ((hi - lo) / hi)
  {
    SaturationOfRatio(hi, lo);
  }

  /** RGB's HSV has value max/255 and chroma (max - min)/255. */
  lemma HsvDecode(hsv: Hsva, hi: real, lo: real)
    requires 0.0 <= lo < hi
    requires hsv.s == 100.0 * ((hi - lo) / hi) && hsv.v == 100.0 * hi / 255.0
    ensures HsvValue(hsv) == hi / 255.0
    ensures HsvChroma(hsv) == (hi - lo) / 255.0
  {
    var q := (hi - lo) / hi;
    assert q * hi == hi - lo;
    assert hsv.s / 100.0 == q;
    assert (hi / 255.0) * q == (q * hi) / 255.0;
  }

  /** Portion(d/255, f) = y/255 when f = y/d. */
  lemma ScaledFactor(d: real, f: real, y: real)
    requires d > 0.0 && f == y / d
    ensures Portion(d / 255.0, f) == y / 255.0
  {
    assert f * d == y;
  }

  /** The expected sector offsets: each channel's height above the minimum. */
  function Offsets(c: Rgba): (real, real, real) {
    ((c.r - Min3(c)) / 255.0, (c.g - Min3(c)) / 255.0, (c.b - Min3(c)) / 255.0)
  }

  /** Offsets over the minimum rebuild the colour. */
  lemma AssembleOffsets(c: Rgba)
    ensures Assemble(Offsets(c), Min3(c) / 255.0, c.a) == c
  {
  }

  /** Red maximum: the hue is 60° times (g - b)/d, taken modulo 360. */
  lemma SectorRedMax(c: Rgba, h: real)
    requires ValidRgb(c) && Max3(c) > Min3(c) && c.r == Max3(c)
    requires h == AdjustHue(60.0 * ((c.g - c.b) / (Max3(c) - Min3(c))))
    ensures Sector(h, (Max3(c) - Min3(c)) / 255.0, Portion((Max3(c) - Min3(c)) / 255.0, HueFactor(h))) == Offsets(c)
  {
    if c.g >= c.b {
      SectorRedRising(c, h);
    } else {
      SectorRedFalling(c, h);
    }
  }

  /** Red maximum, green above blue: hue in [0, 60]. */
  lemma SectorRedRising(c: Rgba, h: real)
    requires ValidRgb(c) && Max3(c) > Min3(c) && c.r == Max3(c) && c.g >= c.b
    requires h == AdjustHue(60.0 * ((c.g - c.b) / (Max3(c) - Min3(c))))
    ensures Sector(h, (Max3(c) - Min3(c)) / 255.0, Portion((Max3(c) - Min3(c)) / 255.0, HueFactor(h))) == Offsets(c)
  {
    var d := Max3(c) - Min3(c);
    var q := (c.g - c.b) / d;
    assert Min3(c) == c.b;
    DivUnit(c.g - c.b, d);
    assert h == 60.0 * q;
    if h < 60.0 {
      ScaledFactor(d, HueFactor(h), c.g - c.b);
    } else {
      assert q * d == c.g - c.b;
      ScaledFactor(d, HueFactor(h), c.r - c.b);
    }
  }

  /** Red maximum, blue above green: hue in (300, 360). */
  lemma SectorRedFalling(c: Rgba, h: real)
    requires ValidRgb(c) && Max3(c) > Min3(c) && c.r == Max3(c) && c.g < c.b
    requires h == AdjustHue(60.0 * ((c.g - c.b) / (Max3(c) - Min3(c))))
    ensures Sector(h, (Max3(c) - Min3(c)) / 255.0, Portion((Max3(c) - Min3(c)) / 255.0, HueFactor(h))) == Offsets(c)
  {
    var d := Max3(c) - Min3(c);
    var q := (c.g - c.b) / d;
    assert Min3(c) == c.g;
    var p := (c.b - c.g) / d;
    DivUnit(c.b - c.g, d);
    assert p * d == c.b - c.g;
    assert (-p) * d == c.g - c.b;
    DivUnique(-p, c.g - c.b, d);
    AdjustHueUnique(60.0 * q, 360.0 - 60.0 * p);
    assert h == 360.0 - 60.0 * p;
    assert HueFactor(h) == p;
    ScaledFactor(d, HueFactor(h), c.b - c.g);
  }

  /** Green maximum: the hue is 60° times (b - r)/d + 2. */
  lemma SectorGreenMax(c: Rgba, h: real)
    requires ValidRgb(c) && Max3(c) > Min3(c) && c.r != Max3(c) && c.g == Max3(c)
    requires h == AdjustHue(60.0 * ((c.b - c.r) / (Max3(c) - Min3(c)) + 2.0))
    ensures Sector(h, (Max3(c) - Min3(c)) / 255.0, Portion((Max3(c) - Min3(c)) / 255.0, HueFactor(h))) == Offsets(c)
  {
    if c.b >= c.r {
      SectorGreenRising(c, h);
    } else {
      SectorGreenFalling(c, h);
    }
  }

  /** Green maximum, blue at least red: hue in [120, 180]. */
  lemma SectorGreenRising(c: Rgba, h: real)
    requires ValidRgb(c) && Max3(c) > Min3(c) && c.r != Max3(c) && c.g == Max3(c) && c.b >= c.r
    requires h == AdjustHue(60.0 * ((c.b - c.r) / (Max3(c) - Min3(c)) + 2.0))
    ensures Sector(h, (Max3(c) - Min3(c)) / 255.0, Portion((Max3(c) - Min3(c)) / 255.0, HueFactor(h))) == Offsets(c)
  {
    var d := Max3(c) - Min3(c);
    var q := (c.b - c.r) / d;
    assert Min3(c) == c.r;
    DivUnit(c.b - c.r, d);
    assert h == 60.0 * (q + 2.0);
    if h < 180.0 {
      ScaledFactor(d, HueFactor(h), c.b - c.r);
    } else {
      assert q * d == c.b - c.r;
      ScaledFactor(d, HueFactor(h), c.g - c.r);
    }
  }

  /** Green maximum, red above blue: hue in (60, 120). */
  lemma SectorGreenFalling(c: Rgba, h: real)
    requires ValidRgb(c) && Max3(c) > Min3(c) && c.r != Max3(c) && c.g == Max3(c) && c.b < c.r
    requires h == AdjustHue(60.0 * ((c.b - c.r) / (Max3(c) - Min3(c)) + 2.0))
    ensures Sector(h, (Max3(c) - Min3(c)) / 255.0, Portion((Max3(c) - Min3(c)) / 255.0, HueFactor(h))) == Offsets(c)
  {
    var d := Max3(c) - Min3(c);
    var q := (c.b - c.r) / d;
    assert Min3(c) == c.b;
    DivUnit(c.r - c.b, d);
    assert (c.r - c.b) / d == -q;
    assert h == 60.0 * (q + 2.0);
    ScaledFactor(d, HueFactor(h), c.r - c.b);
  }

  /** Blue maximum: the hue is 60° times (r - g)/d + 4. */
  lemma SectorBlueMax(c: Rgba, h: real)
    requires ValidRgb(c) && Max3(c) > Min3(c) && c.r != Max3(c) && c.g != Max3(c)
    requires h == AdjustHue(60.0 * ((c.r - c.g) / (Max3(c) - Min3(c)) + 4.0))
    ensures Sector(h, (Max3(c) - Min3(c)) / 255.0, Portion((Max3(c) - Min3(c)) / 255.0, HueFactor(h))) == Offsets(c)
  {
    if c.r >= c.g {
      SectorBlueRising(c, h);
    } else {
      SectorBlueFalling(c, h);
    }
  }

  /** Blue maximum, red at least green: hue in [240, 300). */
  lemma SectorBlueRising(c: Rgba, h: real)
    requires ValidRgb(c) && Max3(c) > Min3(c) && c.r != Max3(c) && c.g != Max3(c) && c.r >= c.g
    requires h == AdjustHue(60.0 * ((c.r - c.g) / (Max3(c) - Min3(c)) + 4.0))
    ensures Sector(h, (Max3(c) - Min3(c)) / 255.0, Portion((Max3(c) - Min3(c)) / 255.0, HueFactor(h))) == Offsets(c)
  {
    var d := Max3(c) - Min3(c);
    var q := (c.r - c.g) / d;
    assert c.b == Max3(c);
    assert Min3(c) == c.g;
    DivUnit(c.r - c.g, d);
    assert c.r - c.g < d;
    assert h == 60.0 * (q + 4.0);
    ScaledFactor(d, HueFactor(h), c.r - c.g);
  }

  /** Blue maximum, green above red: hue in (180, 240). */
  lemma SectorBlueFalling(c: Rgba, h: real)
    requires ValidRgb(c) && Max3(c) > Min3(c) && c.r != Max3(c) && c.g != Max3(c) && c.r < c.g
    requires h == AdjustHue(60.0 * ((c.r - c.g) / (Max3(c) - Min3(c)) + 4.0))
    ensures Sector(h, (Max3(c) - Min3(c)) / 255.0, Portion((Max3(c) - Min3(c)) / 255.0, HueFactor(h))) == Offsets(c)
  {
    var d := Max3(c) - Min3(c);
    var q := (c.r - c.g) / d;
    assert c.b == Max3(c);
    assert Min3(c) == c.r;
    DivUnit(c.g - c.r, d);
    assert (c.g - c.r) / d == -q;
    assert h == 60.0 * (q + 4.0);
    ScaledFactor(d, HueFactor(h), c.g - c.r);
  }

  /** The hue RGB produces puts each channel's offset back in its place. */
  lemma SectorMatches(c: Rgba)
    requires ValidRgb(c) && Max3(c) > Min3(c)
    ensures Sector(Hue(c), (Max3(c) - Min3(c)) / 255.0, Portion((Max3(c) - Min3(c)) / 255.0, HueFactor(Hue(c)))) == Offsets(c)
  {
    if c.r == Max3(c) {
      SectorRedMax(c, Hue(c));
    } else if c.g == Max3(c) {
      SectorGreenMax(c, Hue(c));
    } else {
      SectorBlueMax(c, Hue(c));
    }
  }

  /** HSV is a lossless encoding of RGB: converting there and back gives the
      same colour exactly, alpha included. */
  lemma HsvRoundTrip(c: Rgba)
    requires ValidRgb(c)
    ensures HsvToRgb(RgbToHsv(c)) == c
  {
    var hsv := RgbToHsv(c);
    var hi := Max3(c);
    var lo := Min3(c);
    if hi == lo {
      assert c.r == c.g == c.b == hi;
    } else {
      HsvDecode(hsv, hi, lo);
      assert HsvHue(hsv) == Hue(c);
      SectorMatches(c);
      AssembleOffsets(c);
    }
  }

  /** HWB is a lossless encoding of RGB: converting there and back gives the
      same colour exactly, alpha included. */
  lemma HwbRoundTrip(c: Rgba)
    requires ValidRgb(c)
    ensures RgbToHwb(c).w + RgbToHwb(c).b <= 100.0
    ensures HwbToRgb(RgbToHwb(c)) == c
  {
    HwbToHsvInverse(c);
    HsvRoundTrip(c);
  }

  /** The worked example: (30, 100·100/255, 100·55/255) is (200, 150, 100). */
  lemma HwbExample()
    ensures HwbToRgb(Hwba(30.0, 100.0 * 100.0 / 255.0, 100.0 * 55.0 / 255.0, 0.7)) == Rgba(200.0, 150.0, 100.0, 0.7)
  {
    RgbConversions.HwbExample();
    HwbRoundTrip(Rgba(200.0, 150.0, 100.0, 0.7));
  }
}
