/**
  The rational accessibility helpers: brightness after the colour-contrast
  technique of W3C AERT ("Techniques For Accessibility Evaluation And
  Repair Tools", section "Color contrast"), light and dark, equality, and
  the tint / shade / tone classification against a pure hue (s = 100,
  l = 50 in HSL).
 */
module Accessibility {
  import opened Wrappers
  import opened Numeric
  import opened Colors
  import opened RgbConversions

  /** Perceived brightness in [0, 1]: (299 r + 587 g + 114 b) / 1000, over
      255. */
  function RawBrightness(c: Rgba): (v: real)
    ensures ValidRgb(c) ==> 0.0 <= v <= 1.0
  {
    (299.0 * c.r + 587.0 * c.g + 114.0 * c.b) / 1000.0 / 255.0
  }

  /** `brightness({ precision, percentage })`: the raw brightness, in
      percent when asked, rounded to `precision` places. The scaling to
      percent is taken to come before the rounding; the declaration does not
      fix the order. */
  function Brightness(c: Rgba, percentage: bool, precision: int): (v: real)
    ensures precision < 0 ==> v == (if percentage then 100.0 else 1.0) * RawBrightness(c)
  {
    var raw := RawBrightness(c);
    Round(if percentage then 100.0 * raw else raw, precision)
  }

  /** Brightness lies in [0, 1], or in [0, 100] in percent, at every
      precision. */
  lemma BrightnessRange(c: Rgba, percentage: bool, precision: int)
    requires ValidRgb(c)
    ensures !percentage ==> 0.0 <= Brightness(c, percentage, precision) <= 1.0
    ensures percentage ==> 0.0 <= Brightness(c, percentage, precision) <= 100.0
  {
    if percentage {
      RoundWithin(100.0 * RawBrightness(c), 0, 100, precision);
    } else {
      RoundWithin(RawBrightness(c), 0, 1, precision);
    }
  }

  /** The default options: four places, not in percent. */
  function DefaultBrightness(c: Rgba): real {
    Brightness(c, false, 4)
  }

  /** `isLight()`: default brightness at least 0.5. Because brightness is
      rounded to four places first, that is raw brightness at least
      0.49995. */
  function IsLight(c: Rgba): (r: bool)
    ensures r <==> RawBrightness(c) >= 0.49995
  {
    LightThreshold(c);
    DefaultBrightness(c) >= 0.5
  }

  /** `isDark()`: default brightness below 0.5, so raw brightness below
      0.49995. */
  function IsDark(c: Rgba): (r: bool)
    ensures r <==> RawBrightness(c) < 0.49995
  {
    LightThreshold(c);
    DefaultBrightness(c) < 0.5
  }

  /** Every colour is light or dark and never both. */
  lemma LightXorDark(c: Rgba)
    ensures IsLight(c) != IsDark(c)
  {
  }

  /** Rounded to four places, brightness reaches 0.5 exactly when the raw
      brightness is at least 0.49995. */
  lemma LightThreshold(c: Rgba)
    ensures DefaultBrightness(c) >= 0.5 <==> RawBrightness(c) >= 0.49995
  {
    var x := RawBrightness(c);
    var n := Units(x, 4);
    assert Pow10(4) == 10000;
    assert DefaultBrightness(c) * 10000.0 == n as real;
    assert DefaultBrightness(c) >= 0.5 <==> n >= 5000;
  }

  /** White is light and black is dark; brightness reaches both ends. */
  lemma BrightnessExtremes()
    ensures RawBrightness(Rgba(255.0, 255.0, 255.0, 1.0)) == 1.0
    ensures RawBrightness(Rgba(0.0, 0.0, 0.0, 1.0)) == 0.0
    ensures IsLight(Rgba(255.0, 255.0, 255.0, 1.0))
    ensures IsDark(Rgba(0.0, 0.0, 0.0, 1.0))
  {
    LightThreshold(Rgba(255.0, 255.0, 255.0, 1.0));
    LightThreshold(Rgba(0.0, 0.0, 0.0, 1.0));
  }

  /** Brightness grows with every channel. */
  lemma BrightnessMonotone(c: Rgba, d: Rgba, precision: int)
    requires c.r <= d.r && c.g <= d.g && c.b <= d.b
    ensures Brightness(c, false, precision) <= Brightness(d, false, precision)
    ensures Brightness(c, true, precision) <= Brightness(d, true, precision)
  {
    RoundMonotone(RawBrightness(c), RawBrightness(d), precision);
    RoundMonotone(100.0 * RawBrightness(c), 100.0 * RawBrightness(d), precision);
  }

  /** The comparison colour when none is given: opaque white, "#fff". */
  const White: Rgba := Rgba(255.0, 255.0, 255.0, 1.0)

  /** `equalTo(cmpColor)`: all four channels equal, alpha included. */
  function EqualTo(c: Rgba, cmp: Option<Rgba>): (r: bool)
    ensures r <==> SameRgb(c, cmp.GetOr(White)) && c.a == cmp.GetOr(White).a
  {
    var d := cmp.GetOr(White);
    c.r == d.r && c.g == d.g && c.b == d.b && c.a == d.a
  }

  /** Equality is reflexive and symmetric, and without an argument it asks
      whether the colour is opaque white. */
  lemma EqualToLaws(c: Rgba, d: Rgba)
    ensures EqualTo(c, Some(c))
    ensures EqualTo(c, Some(d)) == EqualTo(d, Some(c))
    ensures EqualTo(c, Some(d)) <==> c == d
    ensures EqualTo(c, None) <==> c == White
  {
  }

  // ---------------------------------------------------------------------
  // Tints, shades and tones

  /** `closestPureHue()`: the same hue and alpha at the saturation (100)
      and lightness (50) of a pure hue. */
  function ClosestPureHue(c: Hsla): (r: Hsla)
    ensures r.s == 100.0 && r.l == 50.0
    ensures r.h == c.h && r.a == c.a
  {
    Hsla(c.h, 100.0, 50.0, c.a)
  }

  /** `isTinted()`: lightness deviated upwards from the closest pure hue. */
  function IsTinted(c: Hsla): (r: bool)
    ensures r <==> c.l > ClosestPureHue(c).l
  {
    c.l > 50.0
  }

  /** `isShaded()`: lightness deviated downwards from the closest pure hue. */
  function IsShaded(c: Hsla): (r: bool)
    ensures r <==> c.l < ClosestPureHue(c).l
  {
    c.l < 50.0
  }

  /** `isToned()`: saturation deviated from the closest pure hue. */
  function IsToned(c: Hsla): (r: bool)
    ensures r <==> c.s != ClosestPureHue(c).s
  {
    c.s != 100.0
  }

  /** No colour is both tinted and shaded. */
  lemma TintShadeExclusive(c: Hsla)
    ensures !(IsTinted(c) && IsShaded(c))
    ensures !IsTinted(c) && !IsShaded(c) <==> c.l == 50.0
  {
  }

  datatype Reason = Tinted | Shaded | Toned | NotApplicable

  /** Purity and its reason: the first of tinted, shaded and toned that
      applies, or "N/A" for a pure hue. */
  datatype Purity = Purity(pure: bool, reason: Reason)

  function Classify(c: Hsla): (p: Purity)
    ensures p.pure <==> !IsTinted(c) && !IsShaded(c) && !IsToned(c)
    ensures p.pure <==> p.reason == NotApplicable
    ensures p.reason == Tinted ==> IsTinted(c)
    ensures p.reason == Shaded ==> IsShaded(c)
    ensures p.reason == Toned ==> IsToned(c)
  {
    if IsTinted(c) then Purity(false, Tinted)
    else if IsShaded(c) then Purity(false, Shaded)
    else if IsToned(c) then Purity(false, Toned)
    else Purity(true, NotApplicable)
  }

  /** `isPureHue({ reason })`: a plain boolean when `reason` is truthy and
      the object with the reason when it is falsy. */
  datatype PureHueAnswer = Plain(pure: bool) | Detailed(purity: Purity)

  function IsPureHue(c: Hsla, reason: bool): (r: PureHueAnswer)
    ensures reason ==> r.Plain? && (r.pure <==> c.s == 100.0 && c.l == 50.0)
    ensures !reason ==> r.Detailed? && (r.purity.pure <==> c.s == 100.0 && c.l == 50.0)
  {
    if reason then Plain(Classify(c).pure) else Detailed(Classify(c))
  }

  /** The closest pure hue is pure, the closest pure hue of a pure hue is
      itself, and taking it twice is taking it once. */
  lemma ClosestPureHueFixed(c: Hsla)
    ensures Classify(ClosestPureHue(c)).pure
    ensures Classify(c).pure ==> ClosestPureHue(c) == c
    ensures ClosestPureHue(ClosestPureHue(c)) == ClosestPureHue(c)
  {
  }

  /** In RGB terms a colour is a pure hue exactly when its largest channel is
      255 and its smallest is 0. */
  lemma PureHueRgb(c: Rgba)
    requires ValidRgb(c)
    ensures Classify(RgbToHsl(c)).pure <==> Max3(c) == 255.0 && Min3(c) == 0.0
  {
    var hi := Max3(c) / 255.0;
    var lo := Min3(c) / 255.0;
    var hsl := RgbToHsl(c);
    if Max3(c) == 255.0 && Min3(c) == 0.0 {
      assert hi == 1.0 && lo == 0.0;
      assert SaturationHsl(hi, lo) == 1.0;
    }
    if Classify(hsl).pure {
      assert hsl.l == 50.0 && hsl.s == 100.0;
      assert Max3(c) + Min3(c) == 255.0;
      assert hi + lo == 1.0;
      assert Max3(c) != Min3(c);
      assert SaturationHsl(hi, lo) == 1.0;
      assert hi - lo == 1.0;
    }
  }
  /** In RGB terms a colour is tinted when its largest and smallest channels
      sum to more than 255 and shaded when they sum to less. */
  lemma TintShadeRgb(c: Rgba)
    requires ValidRgb(c)
    ensures IsTinted(RgbToHsl(c)) <==> Max3(c) + Min3(c) > 255.0
    ensures IsShaded(RgbToHsl(c)) <==> Max3(c) + Min3(c) < 255.0
  {
  }

  /** In RGB terms a colour is toned exactly when it is grey or none of its
      channels sits at 0 or at 255: full saturation needs the largest
      channel at 255 or the smallest at 0. */
  lemma TonedRgb(c: Rgba)
    requires ValidRgb(c)
    ensures IsToned(RgbToHsl(c)) <==> Max3(c) == Min3(c) || (0.0 < Min3(c) && Max3(c) < 255.0)
  {
    var r := RgbToHsl(c);
    if Max3(c) != Min3(c) {
      RgbToHslChroma(c);
      FullSaturationRgb(r, Max3(c), Min3(c));
    }
  }

  /** An HSL colour with the chroma and lightness of channels hi > lo in
      [0, 255] has saturation 100 exactly when hi is 255 or lo is 0. */
  lemma FullSaturationRgb(r: Hsla, hi: real, lo: real)
    requires 0.0 <= lo < hi <= 255.0
    requires r.l == 100.0 * (hi + lo) / 510.0
    requires HslChroma(r) == 100.0 * (hi - lo) / 255.0
    ensures r.s == 100.0 <==> hi == 255.0 || lo == 0.0
  {
    var s := r.s;
    var l := r.l;
    var w := 100.0 - Abs(2.0 * l - 100.0);
    var k := 100.0 * (hi - lo) / 255.0;
    assert 2.0 * l - 100.0 == 100.0 * (hi + lo) / 255.0 - 100.0;
    assert 0.0 < w;
    assert s * w == 100.0 * k;
    FullSaturation(s, w, k);
  }

  /** With a positive width w, s·w = 100·k holds at s = 100 exactly when
      w = k. */
  lemma FullSaturation(s: real, w: real, k: real)
    requires 0.0 < w && s * w == 100.0 * k
    ensures s == 100.0 <==> w == k
  {
    if w == k {
      assert (s - 100.0) * w == 0.0;
    }
  }
}
