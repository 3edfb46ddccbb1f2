/**
  The numeric helpers every colour space relies on: clamping, decimal
  rounding, hue and alpha normalisation, and the channel-wise distance used
  for nearest-colour search. All of them are exact over `real`.
 */
module Numeric {
  import opened Wrappers

  function Min(x: real, y: real): real { if x <= y then x else y }

  function Max(x: real, y: real): real { if x >= y then x else y }

  function Abs(x: real): real { if x < 0.0 then -x else x }

  /** True when `x` is a whole number. */
  predicate IsIntegral(x: real) {
    x.Floor as real == x
  }

  /** `clamp(min, val, max)`: `val` restricted to `[min, max]`, computed as
      `Math.min(Math.max(min, val), max)`. */
  function Clamp(lo: real, v: real, hi: real): (r: real)
    ensures lo <= hi ==> lo <= r <= hi
    ensures lo <= v <= hi ==> r == v
    ensures lo <= hi && v < lo ==> r == lo
    ensures hi < v ==> r == hi
  {
    Min(Max(lo, v), hi)
  }

  /** Clamping a value that is already clamped changes nothing. */
  lemma ClampIdempotent(lo: real, v: real, hi: real)
    requires lo <= hi
    ensures Clamp(lo, Clamp(lo, v, hi), hi) == Clamp(lo, v, hi)
  {
  }

  /** Real division has a unique quotient. */
  lemma DivUnique(q: real, a: real, b: real)
    requires b != 0.0 && q * b == a
    ensures q == a / b
  {
    assert (q - a / b) * b == 0.0;
  }

  /** A part over a whole is a fraction in [0, 1]. */
  lemma DivMul(a: real, b: real)
    requires b != 0.0
    ensures (a / b) * b == a
  {
  }

  lemma DivUnit(a: real, b: real)
    requires 0.0 <= a <= b && b > 0.0
    ensures 0.0 <= a / b <= 1.0
  {
    var q := a / b;
    assert q * b == a;
  }

  /** Scaling by a fraction in [0, 1] keeps a non-negative value in [0, y]. */
  lemma MulUnit(x: real, y: real)
    requires 0.0 <= x <= 1.0 && 0.0 <= y
    ensures 0.0 <= x * y <= y
  {
  }

  /** 10^n. */
  function Pow10(n: nat): (r: nat)
    ensures r >= 1
  {
    if n == 0 then 1 else 10 * Pow10(n - 1)
  }

  /** `Math.round(x)`: the nearest whole number, halves going up. */
  function MathRound(x: real): (n: int)
    ensures n as real - 0.5 <= x < n as real + 0.5
  {
    (x + 0.5).Floor
  }

  /** Exactly one whole number is within half a unit (halves up) of `x`. */
  lemma MathRoundUnique(x: real, k: int)
    requires k as real - 0.5 <= x < k as real + 0.5
    ensures MathRound(x) == k
  {
  }

  /** `Math.round(value * 10^precision)`: the value counted in whole
      10^-precision units, to the nearest unit. */
  function Units(v: real, precision: nat): (n: int)
    ensures n as real - 0.5 <= v * Pow10(precision) as real < n as real + 0.5
  {
    MathRound(v * Pow10(precision) as real)
  }

  lemma Cancel(n: real, scale: real)
    requires scale >= 1.0
    ensures (n / scale) * scale == n
  {
  }

  /** `round(value, precision)`: a whole number of 10^-precision units, the
      nearest one to `value` (halves going up); a negative precision leaves
      the value unrounded. */
  function Round(v: real, precision: int): (r: real)
    ensures precision < 0 ==> r == v
    ensures precision >= 0 ==> r * Pow10(precision) as real == Units(v, precision) as real
  {
    if precision < 0 then v
    else
      Cancel(Units(v, precision) as real, Pow10(precision) as real);
      Units(v, precision) as real / Pow10(precision) as real
  }

  /** A value already on the 10^-precision grid is left as it is. */
  lemma RoundExact(v: real, precision: nat, k: int)
    requires v * Pow10(precision) as real == k as real
    ensures Round(v, precision) == v
  {
    MathRoundUnique(v * Pow10(precision) as real, k);
    assert Units(v, precision) == k;
    var scale := Pow10(precision) as real;
    assert Round(v, precision) * scale == v * scale;
  }

  /** Rounding twice is rounding once. */
  lemma RoundIdempotent(v: real, precision: int)
    ensures Round(Round(v, precision), precision) == Round(v, precision)
  {
    if precision >= 0 {
      RoundExact(Round(v, precision), precision, Units(v, precision));
    }
  }

  /** Rounding never reorders two values. */
  lemma RoundMonotone(v: real, w: real, precision: int)
    requires v <= w
    ensures Round(v, precision) <= Round(w, precision)
  {
    if precision >= 0 {
      var scale := Pow10(precision) as real;
      assert v * scale <= w * scale;
      assert Units(v, precision) <= Units(w, precision);
      var n := Units(v, precision) as real;
      var m := Units(w, precision) as real;
      assert n / scale <= m / scale;
    }
  }

  /** A value in [lo, hi] with whole-number bounds rounds into [lo, hi]. */
  lemma RoundWithin(v: real, lo: int, hi: int, precision: int)
    requires lo as real <= v <= hi as real
    ensures lo as real <= Round(v, precision) <= hi as real
  {
    if precision >= 0 {
      RoundExact(lo as real, precision, lo * Pow10(precision));
      RoundExact(hi as real, precision, hi * Pow10(precision));
      RoundMonotone(lo as real, v, precision);
      RoundMonotone(v, hi as real, precision);
    }
  }

  /** The rendering examples: 60.35 to one place is 60.4, 60.2342 to two is
      60.23, 0.654321 to three is 0.654 and to one is 0.7. */
  lemma RoundExamples()
    ensures Round(60.35, 1) == 60.4
    ensures Round(60.2342, 2) == 60.23
    ensures Round(0.654321, 3) == 0.654
    ensures Round(0.654321, 1) == 0.7
    ensures Round(190.032, 0) == 190.0
    ensures Round(190.032, -1) == 190.032
  {
    assert Pow10(1) == 10;
    assert Pow10(2) == 100;
    assert Pow10(3) == 1000;
    assert Units(60.35, 1) == 604 by { MathRoundUnique(603.5, 604); }
    assert Units(60.2342, 2) == 6023 by { MathRoundUnique(6023.42, 6023); }
    assert Units(0.654321, 3) == 654 by { MathRoundUnique(654.321, 654); }
    assert Units(0.654321, 1) == 7 by { MathRoundUnique(6.54321, 7); }
    assert Units(190.032, 0) == 190 by { MathRoundUnique(190.032, 190); }
  }

  /** `adjustHue(value)`: the hue brought into [0, 360) by true (floored)
      modulo 360; whole-number hues land in [0, 359]. */
  function AdjustHue(x: real): (r: real)
    ensures 0.0 <= r < 360.0
    ensures IsIntegral((x - r) / 360.0)
    ensures 0.0 <= x < 360.0 ==> r == x
    ensures IsIntegral(x) ==> IsIntegral(r) && r <= 359.0
  {
    var q := Turns(x);
    assert (x - (x - 360.0 * q as real)) / 360.0 == q as real;
    assert IsIntegral(x) ==> (x - 360.0 * q as real) == (x.Floor - 360 * q) as real;
    x - 360.0 * q as real
  }

  /** The number of whole turns below `x` degrees: floor(x / 360). */
  function Turns(x: real): (q: int)
    ensures q as real <= x / 360.0 < q as real + 1.0
  {
    (x / 360.0).Floor
  }

  /** The two range-and-congruence facts determine `adjustHue` completely. */
  lemma AdjustHueUnique(x: real, y: real)
    requires 0.0 <= y < 360.0
    requires IsIntegral((x - y) / 360.0)
    ensures AdjustHue(x) == y
  {
    var k := ((x - y) / 360.0).Floor;
    assert x / 360.0 == k as real + y / 360.0;
    assert (x / 360.0).Floor == k;
  }

  /** Hue is periodic: adding whole turns changes nothing. */
  lemma AdjustHuePeriodic(x: real, k: int)
    ensures AdjustHue(x + 360.0 * k as real) == AdjustHue(x)
  {
    var y := AdjustHue(x);
    var j := ((x - y) / 360.0).Floor;
    assert x - y == 360.0 * j as real;
    assert x + 360.0 * k as real - y == 360.0 * (j + k) as real;
    AdjustHueUnique(x + 360.0 * k as real, y);
  }

  /** Normalising twice is normalising once. */
  lemma AdjustHueIdempotent(x: real)
    ensures AdjustHue(AdjustHue(x)) == AdjustHue(x)
  {
  }

  /** Normalising an intermediate sum does not change the final hue:
      adjustHue(adjustHue(x) + d) = adjustHue(x + d). */
  lemma AdjustHueAddLeft(x: real, d: real)
    ensures AdjustHue(AdjustHue(x) + d) == AdjustHue(x + d)
  {
    var y := AdjustHue(x);
    var j := ((x - y) / 360.0).Floor;
    assert y + d == (x + d) + 360.0 * (-j) as real;
    AdjustHuePeriodic(x + d, -j);
  }

  /** The worked examples: -232 becomes 128, 360 and -360 become 0. */
  lemma AdjustHueExamples()
    ensures AdjustHue(-232.0) == 128.0
    ensures AdjustHue(360.0) == 0.0
    ensures AdjustHue(-360.0) == 0.0
    ensures AdjustHue(370.0) == 10.0
  {
    AdjustHueUnique(-232.0, 128.0);
    AdjustHueUnique(360.0, 0.0);
    AdjustHueUnique(-360.0, 0.0);
    AdjustHueUnique(370.0, 10.0);
  }

  /** `adjustAlpha(alpha)`: an absent alpha is fully opaque, a present one is
      clamped to [0, 1]. */
  function AdjustAlpha(alpha: Option<real>): (r: real)
    ensures 0.0 <= r <= 1.0
    ensures alpha.None? ==> r == 1.0
    ensures alpha.Some? && 0.0 <= alpha.value <= 1.0 ==> r == alpha.value
    ensures alpha.Some? && alpha.value < 0.0 ==> r == 0.0
    ensures alpha.Some? && 1.0 < alpha.value ==> r == 1.0
  {
    match alpha
    case None => 1.0
    case Some(a) => Clamp(0.0, a, 1.0)
  }

  /** `channelWiseDifference(rgb1, rgb2)`: the sum of absolute per-channel
      differences. It is a distance: never negative, and zero exactly when
      the two arrays agree. */
  function ChannelWiseDifference(x: seq<real>, y: seq<real>): (r: real)
    requires |x| == |y|
    ensures r >= 0.0
    ensures r == 0.0 <==> x == y
  {
    if |x| == 0 then 0.0
    else
      assert x == [x[0]] + x[1..] && y == [y[0]] + y[1..];
      Abs(x[0] - y[0]) + ChannelWiseDifference(x[1..], y[1..])
  }

  /** The distance does not depend on the order of its arguments. */
  lemma {:induction false} ChannelWiseDifferenceSymmetric(x: seq<real>, y: seq<real>)
    requires |x| == |y|
    ensures ChannelWiseDifference(x, y) == ChannelWiseDifference(y, x)
  {
    if |x| > 0 {
      ChannelWiseDifferenceSymmetric(x[1..], y[1..]);
    }
  }

  /** On three channels it is |dr| + |dg| + |db|. */
  lemma ChannelWiseDifferenceRgb(r1: real, g1: real, b1: real, r2: real, g2: real, b2: real)
    ensures ChannelWiseDifference([r1, g1, b1], [r2, g2, b2])
         == Abs(r1 - r2) + Abs(g1 - g2) + Abs(b1 - b2)
  {
    assert [r1, g1, b1][1..] == [g1, b1];
    assert [r2, g2, b2][1..] == [g2, b2];
    assert [g1, b1][1..] == [b1];
    assert [g2, b2][1..] == [b2];
    assert ChannelWiseDifference([b1], [b2]) == Abs(b1 - b2) + ChannelWiseDifference([], []);
    assert ChannelWiseDifference([g1, b1], [g2, b2]) == Abs(g1 - g2) + Abs(b1 - b2);
  }
}
