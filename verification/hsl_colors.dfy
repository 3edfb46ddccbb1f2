/**
  The HSLA colour record: construction from any input form, its invariant
  (h in [0, 360), s and l in [0, 100], a in [0, 1]), the channel setters and
  the derived mutators, and per-channel rounding for rendering. Every
  mutator returns a new record.
 */
module HslColors {
  import opened Wrappers
  import opened Numeric
  import opened Colors
  import opened Text
  import opened Input
  import opened RgbConversions

  // ---------------------------------------------------------------------
  // Construction

  /** A channel as given: a number is itself, while `undefined` and NaN
      fall back to the channel of opaque black. */
  function Value(n: Option<Num>, default: real): real {
    match n
    case Some(Finite(v)) => v
    case _ => default
  }

  /** The alpha as given, `undefined` for an absent or NaN entry. */
  function AlphaValue(n: Option<Num>): Option<real> {
    match n
    case Some(Finite(v)) => Some(v)
    case _ => None
  }

  /** The HSL record's constructor: hue brought into [0, 360), saturation
      and lightness clamped to [0, 100], alpha through `adjustAlpha`. */
  function MakeHsla(h: real, s: real, l: real, a: Option<real>): (c: Hsla)
    ensures ValidHsla(c)
    ensures IsHue(h) ==> c.h == h
    ensures IsIntegral((h - c.h) / 360.0)
    ensures IsPercent(s) ==> c.s == s
    ensures s < 0.0 ==> c.s == 0.0
    ensures 100.0 < s ==> c.s == 100.0
    ensures IsPercent(l) ==> c.l == l
    ensures l < 0.0 ==> c.l == 0.0
    ensures 100.0 < l ==> c.l == 100.0
    ensures a.None? ==> c.a == 1.0
    ensures a.Some? && IsAlpha(a.value) ==> c.a == a.value
    ensures a.Some? && a.value < 0.0 ==> c.a == 0.0
    ensures a.Some? && 1.0 < a.value ==> c.a == 1.0
  {
    Hsla(AdjustHue(h), Clamp(0.0, s, 100.0), Clamp(0.0, l, 100.0), AdjustAlpha(a))
  }

  /** The record from parsed fields; missing or `NaN` h, s and l are 0, a
      missing or `NaN` alpha is 1, and in-range numbers are kept. */
  function FromFields(f: Fields<Num>): (c: Hsla)
    ensures ValidHsla(c)
    ensures f.first.None? || f.first == Some(NaN) ==> c.h == 0.0
    ensures f.second.None? || f.second == Some(NaN) ==> c.s == 0.0
    ensures f.third.None? || f.third == Some(NaN) ==> c.l == 0.0
    ensures f.fourth.None? || f.fourth == Some(NaN) ==> c.a == 1.0
    ensures f.first.Some? && f.first.value.Finite? && IsHue(f.first.value.value) ==> c.h == f.first.value.value
    ensures f.second.Some? && f.second.value.Finite? && IsPercent(f.second.value.value) ==> c.s == f.second.value.value
    ensures f.third.Some? && f.third.value.Finite? && IsPercent(f.third.value.value) ==> c.l == f.third.value.value
    ensures f.fourth.Some? && f.fourth.value.Finite? && IsAlpha(f.fourth.value.value) ==> c.a == f.fourth.value.value
  {
    MakeHsla(Value(f.first, 0.0), Value(f.second, 0.0), Value(f.third, 0.0), AlphaValue(f.fourth))
  }

  /** The RGB record's constructor, needed for colour names: channels
      clamped to [0, 255], alpha through `adjustAlpha`. */
  function MakeRgba(f: Fields<Num>): (c: Rgba)
    ensures ValidRgba(c)
  {
    Rgba(Clamp(0.0, Value(f.first, 0.0), 255.0), Clamp(0.0, Value(f.second, 0.0), 255.0),
         Clamp(0.0, Value(f.third, 0.0), 255.0), AdjustAlpha(AlphaValue(f.fourth)))
  }

  /** `HSLAFrom` end to end. A colour name is looked up in `names` (the
      name-to-CSS-string table), read as RGB and converted; a name missing
      from the table has no record (`None` stands for the `TypeError` that
      reading `undefined` as an RGB input raises). */
  function HslaOf(names: map<string, string>, input: HslaInput): (r: Option<Hsla>)
    ensures r.Some? ==> ValidHsla(r.value)
    ensures r.None? <==> input.HslaString? && IsCssName(input.text) && input.text !in names
  {
    match HslaFrom(input)
    case Parsed(f) => Some(FromFields(f))
    case Named(n) =>
      if n in names then
        var hsl := RgbToHsl(MakeRgba(RgbaFrom(RgbaString(names[n]))));
        Some(MakeHsla(hsl.h, hsl.s, hsl.l, Some(hsl.a)))
      else None
  }

  /** A valid record is rebuilt unchanged: construction only bounds. */
  lemma MakeHslaKeeps(c: Hsla)
    requires ValidHsla(c)
    ensures MakeHsla(c.h, c.s, c.l, Some(c.a)) == c
  {
  }

  /** A colour name gives the HSL form of the colour its CSS string names. */
  lemma NamedIsRgbToHsl(names: map<string, string>, name: string)
    requires IsCssName(name) && name in names
    ensures HslaOf(names, HslaString(name)) == Some(RgbToHsl(MakeRgba(RgbaFrom(RgbaString(names[name])))))
  {
    var hsl := RgbToHsl(MakeRgba(RgbaFrom(RgbaString(names[name]))));
    MakeHslaKeeps(hsl);
  }

  /** Object, array and separate arguments: the full record is taken as is,
      and without alpha it is opaque. */
  lemma ConstructionForms(names: map<string, string>)
    ensures HslaOf(names, HslaObject(Fields(Some(128.0), Some(50.0), Some(60.0), Some(0.7)))) == Some(Hsla(128.0, 50.0, 60.0, 0.7))
    ensures HslaOf(names, HslaObject(Fields(Some(128.0), Some(50.0), Some(60.0), None))) == Some(Hsla(128.0, 50.0, 60.0, 1.0))
    ensures HslaOf(names, HslaArray([128.0, 50.0, 60.0, 0.7])) == Some(Hsla(128.0, 50.0, 60.0, 0.7))
    ensures HslaOf(names, HslaArray([128.0, 50.0, 60.0])) == Some(Hsla(128.0, 50.0, 60.0, 1.0))
    ensures HslaOf(names, HslaValues(128.0, Some(50.0), Some(60.0), Some(0.7))) == Some(Hsla(128.0, 50.0, 60.0, 0.7))
    ensures HslaOf(names, HslaValues(128.0, Some(50.0), Some(60.0), None)) == Some(Hsla(128.0, 50.0, 60.0, 1.0))
  {
  }

  /** Invalid or extra input: a missing lightness is 0, a fifth entry is
      ignored, alpha 5 or 128 becomes 1, and hue -232 becomes 128. */
  lemma ConstructionBounds(names: map<string, string>)
    ensures HslaOf(names, HslaArray([128.0, 50.0])) == Some(Hsla(128.0, 50.0, 0.0, 1.0))
    ensures HslaOf(names, HslaArray([128.0, 50.0, 60.0, 0.6, 0.6])) == Some(Hsla(128.0, 50.0, 60.0, 0.6))
    ensures HslaOf(names, HslaObject(Fields(Some(128.0), Some(50.0), Some(60.0), Some(5.0)))) == Some(Hsla(128.0, 50.0, 60.0, 1.0))
    ensures HslaOf(names, HslaArray([128.0, 50.0, 60.0, 128.0])) == Some(Hsla(128.0, 50.0, 60.0, 1.0))
    ensures HslaOf(names, HslaArray([-232.0, 50.0, 60.0, 128.0])) == Some(Hsla(128.0, 50.0, 60.0, 1.0))
  {
    AdjustHueExamples();
  }

  /** The same bounds from string input: "128, 50%" lacks the lightness,
      which is 0, and the functional notation, with or without the `a`,
      gives the record written inside it. */
  lemma StringConstruction(names: map<string, string>)
    ensures HslaOf(names, HslaString("128, 50%")) == Some(Hsla(128.0, 50.0, 0.0, 1.0))
    ensures HslaOf(names, HslaString("hsl(128, 50%, 60%, 0.7)")) == Some(Hsla(128.0, 50.0, 60.0, 0.7))
    ensures HslaOf(names, HslaString("hsla(128, 50%, 60%, 0.7)")) == Some(Hsla(128.0, 50.0, 60.0, 0.7))
  {
    HslaShortList();
    OfParsed(names, HslaString("128, 50%"), Fields(Some(Finite(128.0)), Some(Finite(50.0)), None, None));
    HslaFullList();
    var full := Fields(Some(Finite(128.0)), Some(Finite(50.0)), Some(Finite(60.0)), Some(Finite(0.7)));
    OfParsed(names, HslaString("hsl(128, 50%, 60%, 0.7)"), full);
    OfParsed(names, HslaString("hsla(128, 50%, 60%, 0.7)"), full);
  }

  /** Parsed fields become the record `FromFields` builds. */
  lemma OfParsed(names: map<string, string>, input: HslaInput, f: Fields<Num>)
    requires HslaFrom(input) == Parsed(f)
    ensures HslaOf(names, input) == Some(FromFields(f))
  {
  }

  // ---------------------------------------------------------------------
  // Channel setters

  datatype Channel = Hue | Saturation | Lightness | Alpha

  function Get(c: Hsla, ch: Channel): real {
    match ch
    case Hue => c.h
    case Saturation => c.s
    case Lightness => c.l
    case Alpha => c.a
  }

  /** `c` with one channel replaced, not yet bounded. */
  function With(c: Hsla, ch: Channel, v: real): Hsla {
    match ch
    case Hue => c.(h := v)
    case Saturation => c.(s := v)
    case Lightness => c.(l := v)
    case Alpha => c.(a := v)
  }

  /** How a channel is bounded: hue modulo 360, saturation and lightness
      clamped to [0, 100], alpha to [0, 1]. */
  function Bound(ch: Channel, v: real): real {
    match ch
    case Hue => AdjustHue(v)
    case Saturation => Clamp(0.0, v, 100.0)
    case Lightness => Clamp(0.0, v, 100.0)
    case Alpha => Clamp(0.0, v, 1.0)
  }

  /** `changeValueTo(channel, value)`: the channel set to the bounded value;
      on a valid record the other channels are unchanged. */
  function ChangeValueTo(c: Hsla, ch: Channel, v: real): (r: Hsla)
    ensures ValidHsla(r)
    ensures Get(r, ch) == Bound(ch, v)
    ensures ValidHsla(c) ==> forall other :: other != ch ==> Get(r, other) == Get(c, other)
  {
    var d := With(c, ch, v);
    MakeHsla(d.h, d.s, d.l, Some(d.a))
  }

  /** `changeValueBy(channel, delta)`: the channel moved by `delta` and then
      bounded; on a valid record the other channels are unchanged. */
  function ChangeValueBy(c: Hsla, ch: Channel, delta: real): (r: Hsla)
    ensures ValidHsla(r)
    ensures Get(r, ch) == Bound(ch, Get(c, ch) + delta)
    ensures ValidHsla(c) ==> forall other :: other != ch ==> Get(r, other) == Get(c, other)
  {
    ChangeValueTo(c, ch, Get(c, ch) + delta)
  }

  /** Setting a channel to the value it has changes nothing. */
  lemma ChangeValueToSame(c: Hsla, ch: Channel)
    requires ValidHsla(c)
    ensures ChangeValueTo(c, ch, Get(c, ch)) == c
  {
  }

  /** A whole turn of hue is no change; ±100 saturates saturation and
      lightness, ±1 saturates alpha. */
  lemma ChangeValueByBounds(c: Hsla)
    requires ValidHsla(c)
    ensures ChangeValueBy(c, Hue, 360.0) == c && ChangeValueBy(c, Hue, -360.0) == c
    ensures ChangeValueBy(c, Saturation, 100.0) == c.(s := 100.0)
    ensures ChangeValueBy(c, Saturation, -100.0) == c.(s := 0.0)
    ensures ChangeValueBy(c, Lightness, 100.0) == c.(l := 100.0)
    ensures ChangeValueBy(c, Lightness, -100.0) == c.(l := 0.0)
    ensures ChangeValueBy(c, Alpha, 1.0) == c.(a := 1.0)
    ensures ChangeValueBy(c, Alpha, -1.0) == c.(a := 0.0)
  {
    AdjustHuePeriodic(c.h, 1);
    AdjustHuePeriodic(c.h, -1);
  }

  /** The record every test starts from: `HSLAFrom(190, 60, 60, 0.6)`. */
  const Sample: Hsla := Hsla(190.0, 60.0, 60.0, 0.6)

  lemma SampleConstructed(names: map<string, string>)
    ensures HslaOf(names, HslaValues(190.0, Some(60.0), Some(60.0), Some(0.6))) == Some(Sample)
  {
  }

  /** The `changeValueTo` table: in-range values are taken as they are;
      hue ±360 gives 0, 101 and -1 clamp to 100 and 0, alpha 1.01 and -0.01
      to 1 and 0. */
  lemma ChangeValueToExamples()
    ensures ChangeValueTo(Sample, Hue, 120.0) == Hsla(120.0, 60.0, 60.0, 0.6)
    ensures ChangeValueTo(Sample, Saturation, 70.0) == Hsla(190.0, 70.0, 60.0, 0.6)
    ensures ChangeValueTo(Sample, Lightness, 70.0) == Hsla(190.0, 60.0, 70.0, 0.6)
    ensures ChangeValueTo(Sample, Alpha, 0.7) == Hsla(190.0, 60.0, 60.0, 0.7)
    ensures ChangeValueTo(Sample, Hue, 360.0) == Hsla(0.0, 60.0, 60.0, 0.6)
    ensures ChangeValueTo(Sample, Hue, -360.0) == Hsla(0.0, 60.0, 60.0, 0.6)
    ensures ChangeValueTo(Sample, Saturation, 101.0) == Hsla(190.0, 100.0, 60.0, 0.6)
    ensures ChangeValueTo(Sample, Saturation, -1.0) == Hsla(190.0, 0.0, 60.0, 0.6)
    ensures ChangeValueTo(Sample, Lightness, 101.0) == Hsla(190.0, 60.0, 100.0, 0.6)
    ensures ChangeValueTo(Sample, Lightness, -1.0) == Hsla(190.0, 60.0, 0.0, 0.6)
    ensures ChangeValueTo(Sample, Alpha, 1.01) == Hsla(190.0, 60.0, 60.0, 1.0)
    ensures ChangeValueTo(Sample, Alpha, -0.01) == Hsla(190.0, 60.0, 60.0, 0.0)
  {
    AdjustHueExamples();
  }

  /** The `changeValueBy` table without clamping. */
  lemma ChangeValueByExamples()
    ensures ChangeValueBy(Sample, Hue, 60.0) == Hsla(250.0, 60.0, 60.0, 0.6)
    ensures ChangeValueBy(Sample, Hue, -60.0) == Hsla(130.0, 60.0, 60.0, 0.6)
    ensures ChangeValueBy(Sample, Saturation, 10.0) == Hsla(190.0, 70.0, 60.0, 0.6)
    ensures ChangeValueBy(Sample, Saturation, -10.0) == Hsla(190.0, 50.0, 60.0, 0.6)
    ensures ChangeValueBy(Sample, Lightness, 10.0) == Hsla(190.0, 60.0, 70.0, 0.6)
    ensures ChangeValueBy(Sample, Lightness, -10.0) == Hsla(190.0, 60.0, 50.0, 0.6)
    ensures ChangeValueBy(Sample, Alpha, 0.1) == Hsla(190.0, 60.0, 60.0, 0.7)
    ensures ChangeValueBy(Sample, Alpha, -0.1) == Hsla(190.0, 60.0, 60.0, 0.5)
  {
  }

  // ---------------------------------------------------------------------
  // Named mutators

  /** `hueTo(value)`: the hue set to `value` taken modulo 360; on a valid
      record nothing else changes. */
  function HueTo(c: Hsla, v: real): (r: Hsla)
    ensures ValidHsla(r)
    ensures IsHue(v) ==> r.h == v
    ensures IsIntegral((v - r.h) / 360.0)
    ensures ValidHsla(c) ==> r.s == c.s && r.l == c.l && r.a == c.a
  {
    ChangeValueTo(c, Hue, v)
  }

  /** `hueBy(delta)`: the hue turned by `delta` degrees, modulo 360; on a
      valid record nothing else changes. */
  function HueBy(c: Hsla, delta: real): (r: Hsla)
    ensures ValidHsla(r)
    ensures IsHue(c.h + delta) ==> r.h == c.h + delta
    ensures IsIntegral((c.h + delta - r.h) / 360.0)
    ensures ValidHsla(c) ==> r.s == c.s && r.l == c.l && r.a == c.a
  {
    ChangeValueBy(c, Hue, delta)
  }

  /** `alphaTo(value)`: the alpha set to `value`, clamped to [0, 1]; on a
      valid record nothing else changes. */
  function AlphaTo(c: Hsla, v: real): (r: Hsla)
    ensures ValidHsla(r)
    ensures IsAlpha(v) ==> r.a == v
    ensures v < 0.0 ==> r.a == 0.0
    ensures 1.0 < v ==> r.a == 1.0
    ensures ValidHsla(c) ==> r.h == c.h && r.s == c.s && r.l == c.l
  {
    ChangeValueTo(c, Alpha, v)
  }

  /** `alphaBy(delta)`: the alpha moved by `delta`, clamped to [0, 1]; on a
      valid record nothing else changes. */
  function AlphaBy(c: Hsla, delta: real): (r: Hsla)
    ensures ValidHsla(r)
    ensures IsAlpha(c.a + delta) ==> r.a == c.a + delta
    ensures c.a + delta < 0.0 ==> r.a == 0.0
    ensures 1.0 < c.a + delta ==> r.a == 1.0
    ensures ValidHsla(c) ==> r.h == c.h && r.s == c.s && r.l == c.l
  {
    ChangeValueBy(c, Alpha, delta)
  }

  /** The fractional-delta rule: a delta in [0, 1] is a fraction of 100. */
  function Percentage(delta: real): (p: real)
    ensures 0.0 <= delta <= 1.0 ==> 0.0 <= p <= 100.0
    ensures delta < 0.0 || 1.0 < delta ==> p == delta
  {
    if 0.0 <= delta <= 1.0 then 100.0 * delta else delta
  }

  /** `saturateBy(delta)`: saturation raised by `delta` points, or by that
      fraction of 100 when `delta` is in [0, 1], and clamped; a non-negative
      delta never lowers it, and on a valid record nothing else changes. */
  function SaturateBy(c: Hsla, delta: real): (r: Hsla)
    ensures ValidHsla(r)
    ensures 0.0 <= delta <= 1.0 && IsPercent(c.s + 100.0 * delta) ==> r.s == c.s + 100.0 * delta
    ensures (delta < 0.0 || 1.0 < delta) && IsPercent(c.s + delta) ==> r.s == c.s + delta
    ensures ValidHsla(c) && 0.0 <= delta ==> c.s <= r.s
    ensures ValidHsla(c) ==> r.h == c.h && r.l == c.l && r.a == c.a
  {
    ChangeValueBy(c, Saturation, Percentage(delta))
  }

  /** `desaturateBy(delta)`: saturation lowered the same way; a
      non-negative delta never raises it. */
  function DesaturateBy(c: Hsla, delta: real): (r: Hsla)
    ensures ValidHsla(r)
    ensures 0.0 <= delta <= 1.0 && IsPercent(c.s - 100.0 * delta) ==> r.s == c.s - 100.0 * delta
    ensures (delta < 0.0 || 1.0 < delta) && IsPercent(c.s - delta) ==> r.s == c.s - delta
    ensures ValidHsla(c) && 0.0 <= delta ==> r.s <= c.s
    ensures ValidHsla(c) ==> r.h == c.h && r.l == c.l && r.a == c.a
  {
    ChangeValueBy(c, Saturation, -Percentage(delta))
  }

  /** `lighterBy(delta)`: lightness raised by `delta` points, or by that
      fraction of 100 when `delta` is in [0, 1], and clamped. */
  function LighterBy(c: Hsla, delta: real): (r: Hsla)
    ensures ValidHsla(r)
    ensures 0.0 <= delta <= 1.0 && IsPercent(c.l + 100.0 * delta) ==> r.l == c.l + 100.0 * delta
    ensures (delta < 0.0 || 1.0 < delta) && IsPercent(c.l + delta) ==> r.l == c.l + delta
    ensures ValidHsla(c) && 0.0 <= delta ==> c.l <= r.l
    ensures ValidHsla(c) ==> r.h == c.h && r.s == c.s && r.a == c.a
  {
    ChangeValueBy(c, Lightness, Percentage(delta))
  }

  /** `darkerBy(delta)`: lightness lowered the same way. */
  function DarkerBy(c: Hsla, delta: real): (r: Hsla)
    ensures ValidHsla(r)
    ensures 0.0 <= delta <= 1.0 && IsPercent(c.l - 100.0 * delta) ==> r.l == c.l - 100.0 * delta
    ensures (delta < 0.0 || 1.0 < delta) && IsPercent(c.l - delta) ==> r.l == c.l - delta
    ensures ValidHsla(c) && 0.0 <= delta ==> r.l <= c.l
    ensures ValidHsla(c) ==> r.h == c.h && r.s == c.s && r.a == c.a
  {
    ChangeValueBy(c, Lightness, -Percentage(delta))
  }

  /** `rotate(value)`: the hue turned by `value` degrees, modulo 360; on a
      valid record nothing else changes. */
  function Rotate(c: Hsla, v: real): (r: Hsla)
    ensures ValidHsla(r)
    ensures IsIntegral((c.h + v - r.h) / 360.0)
    ensures ValidHsla(c) ==> r.s == c.s && r.l == c.l && r.a == c.a
  {
    HueBy(c, v)
  }

  /** `grayscale()`: saturation 0, nothing else changed. */
  function Grayscale(c: Hsla): (r: Hsla)
    ensures r.s == 0.0 && r.h == c.h && r.l == c.l && r.a == c.a
  {
    c.(s := 0.0)
  }

  /** `invert({ includeAlpha })`: the opposite hue, the complementary
      lightness and, unless excluded, the complementary alpha; saturation is
      kept. */
  function Invert(c: Hsla, includeAlpha: bool): (r: Hsla)
    ensures ValidHsla(c) ==> ValidHsla(r)
    ensures r.s == c.s && r.l + c.l == 100.0
    ensures includeAlpha ==> r.a + c.a == 1.0
    ensures !includeAlpha ==> r.a == c.a
    ensures IsIntegral((c.h + 180.0 - r.h) / 360.0)
  {
    Hsla(AdjustHue(c.h + 180.0), c.s, 100.0 - c.l, if includeAlpha then 1.0 - c.a else c.a)
  }

  /** Inverting twice gives the record back. */
  lemma InvertInvolutive(c: Hsla, includeAlpha: bool)
    requires ValidHsla(c)
    ensures Invert(Invert(c, includeAlpha), includeAlpha) == c
  {
    AdjustHueAddLeft(c.h + 180.0, 180.0);
    assert c.h + 180.0 + 180.0 == c.h + 360.0 * 1 as real;
    AdjustHuePeriodic(c.h, 1);
  }

  /** Grayscale is desaturation by 100, whole or as the fraction 1. */
  lemma GrayscaleIsDesaturate(c: Hsla)
    requires ValidHsla(c)
    ensures Grayscale(c) == DesaturateBy(c, 100.0) == DesaturateBy(c, 1.0)
  {
  }

  /** A fraction in [0, 1] moves saturation and lightness by that fraction
      of 100; any other delta moves them by itself. */
  lemma FractionalDelta(c: Hsla, delta: real)
    ensures 0.0 <= delta <= 1.0 ==>
      SaturateBy(c, delta) == ChangeValueBy(c, Saturation, 100.0 * delta)
      && DesaturateBy(c, delta) == ChangeValueBy(c, Saturation, -100.0 * delta)
      && LighterBy(c, delta) == ChangeValueBy(c, Lightness, 100.0 * delta)
      && DarkerBy(c, delta) == ChangeValueBy(c, Lightness, -100.0 * delta)
    ensures delta < 0.0 || 1.0 < delta ==>
      SaturateBy(c, delta) == ChangeValueBy(c, Saturation, delta)
      && DesaturateBy(c, delta) == ChangeValueBy(c, Saturation, -delta)
      && LighterBy(c, delta) == ChangeValueBy(c, Lightness, delta)
      && DarkerBy(c, delta) == ChangeValueBy(c, Lightness, -delta)
  {
  }

  /** Hue steps compose: turning by x and then by y is turning by x + y. */
  lemma HueByCompose(c: Hsla, x: real, y: real)
    requires ValidHsla(c)
    ensures HueBy(HueBy(c, x), y) == HueBy(c, x + y)
  {
    AdjustHueAddLeft(c.h + x, y);
    assert c.h + x + y == c.h + (x + y);
  }

  /** Rotating by 0 is the identity, and rotation is `hueBy`. */
  lemma RotateZero(c: Hsla)
    requires ValidHsla(c)
    ensures Rotate(c, 0.0) == c
  {
  }

  /** The mutator examples on the sample record. */
  lemma MutatorExamples()
    ensures HueTo(Sample, 210.0) == Hsla(210.0, 60.0, 60.0, 0.6)
    ensures HueBy(Sample, 50.0) == Hsla(240.0, 60.0, 60.0, 0.6)
    ensures HueBy(HueBy(Sample, 50.0), -100.0) == Hsla(140.0, 60.0, 60.0, 0.6)
    ensures AlphaTo(Sample, 0.95) == Hsla(190.0, 60.0, 60.0, 0.95)
    ensures AlphaBy(Sample, 0.2) == Hsla(190.0, 60.0, 60.0, 0.8)
    ensures AlphaBy(AlphaBy(Sample, 0.2), -0.4) == Hsla(190.0, 60.0, 60.0, 0.4)
    ensures Invert(Sample, true) == Hsla(10.0, 60.0, 40.0, 0.4)
    ensures Invert(Sample, false) == Hsla(10.0, 60.0, 40.0, 0.6)
    ensures Grayscale(Sample) == Hsla(190.0, 0.0, 60.0, 0.6)
    ensures Rotate(Sample, 240.0) == Hsla(70.0, 60.0, 60.0, 0.6)
    ensures Rotate(Sample, -240.0) == Hsla(310.0, 60.0, 60.0, 0.6)
  {
    AdjustHueUnique(370.0, 10.0);
    AdjustHueUnique(430.0, 70.0);
    AdjustHueUnique(-50.0, 310.0);
  }

  /** The saturation and lightness examples, whole and fractional. */
  lemma SaturationLightnessExamples()
    ensures SaturateBy(Sample, 20.0) == Hsla(190.0, 80.0, 60.0, 0.6)
    ensures DesaturateBy(SaturateBy(Sample, 20.0), 10.0) == Hsla(190.0, 70.0, 60.0, 0.6)
    ensures SaturateBy(Sample, 0.2) == Hsla(190.0, 80.0, 60.0, 0.6)
    ensures DesaturateBy(SaturateBy(Sample, 0.2), 0.1) == Hsla(190.0, 70.0, 60.0, 0.6)
    ensures LighterBy(Sample, 20.0) == Hsla(190.0, 60.0, 80.0, 0.6)
    ensures DarkerBy(LighterBy(Sample, 20.0), 10.0) == Hsla(190.0, 60.0, 70.0, 0.6)
    ensures LighterBy(Sample, 0.2) == Hsla(190.0, 60.0, 80.0, 0.6)
    ensures DarkerBy(LighterBy(Sample, 0.2), 0.1) == Hsla(190.0, 60.0, 70.0, 0.6)
  {
  }

  // ---------------------------------------------------------------------
  // Rendering precision

  /** The precision of channel `i`: as given, or 0, 0, 0 and 1 by default. */
  function PrecisionAt(precision: seq<int>, i: nat): (p: int)
    requires i < 4
    ensures i >= |precision| ==> p == (if i == 3 then 1 else 0)
  {
    if i < |precision| then precision[i] else if i == 3 then 1 else 0
  }

  /** The channels as rendered: each rounded to its own precision, -1
      leaving it unrounded. */
  function Rounded(c: Hsla, precision: seq<int>): (r: Hsla)
    ensures PrecisionAt(precision, 0) < 0 ==> r.h == c.h
    ensures PrecisionAt(precision, 1) < 0 ==> r.s == c.s
    ensures PrecisionAt(precision, 2) < 0 ==> r.l == c.l
    ensures PrecisionAt(precision, 3) < 0 ==> r.a == c.a
  {
    Hsla(Round(c.h, PrecisionAt(precision, 0)), Round(c.s, PrecisionAt(precision, 1)),
         Round(c.l, PrecisionAt(precision, 2)), Round(c.a, PrecisionAt(precision, 3)))
  }

  /** Rendering a rendered record again changes nothing. */
  lemma RoundedIdempotent(c: Hsla, precision: seq<int>)
    ensures Rounded(Rounded(c, precision), precision) == Rounded(c, precision)
  {
    RoundIdempotent(c.h, PrecisionAt(precision, 0));
    RoundIdempotent(c.s, PrecisionAt(precision, 1));
    RoundIdempotent(c.l, PrecisionAt(precision, 2));
    RoundIdempotent(c.a, PrecisionAt(precision, 3));
  }

  /** Rounding keeps a valid record valid. */
  lemma RoundedValid(c: Hsla, precision: seq<int>)
    requires ValidHsla(c)
    ensures IsPercent(Rounded(c, precision).s) && IsPercent(Rounded(c, precision).l)
    ensures IsAlpha(Rounded(c, precision).a)
    ensures 0.0 <= Rounded(c, precision).h <= 360.0
  {
    RoundWithin(c.h, 0, 360, PrecisionAt(precision, 0));
    RoundWithin(c.s, 0, 100, PrecisionAt(precision, 1));
    RoundWithin(c.l, 0, 100, PrecisionAt(precision, 2));
    RoundWithin(c.a, 0, 1, PrecisionAt(precision, 3));
  }

  /** The precision examples on (190.032, 60.35, 60.2342, 0.654321). */
  lemma RoundedExamples()
    ensures Rounded(Hsla(190.032, 60.35, 60.2342, 0.654321), [0, 1, 2, 3]) == Hsla(190.0, 60.4, 60.23, 0.654)
    ensures Rounded(Hsla(190.032, 60.35, 60.2342, 0.654321), [0, 1, 2]) == Hsla(190.0, 60.4, 60.23, 0.7)
    ensures Rounded(Hsla(190.032, 60.35, 60.2342, 0.654321), [-1, -1, 2]) == Hsla(190.032, 60.35, 60.23, 0.7)
  {
    RoundExamples();
  }
}
