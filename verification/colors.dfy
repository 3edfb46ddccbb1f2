/**
  The colour-space records. RGB is the hub every conversion goes through;
  channels are exact reals, not yet rounded for display.
 */
module Colors {

  /** Red, green and blue in [0, 255], alpha in [0, 1]. */
  datatype Rgba = Rgba(r: real, g: real, b: real, a: real)

  /** Hue in degrees, saturation and lightness in percent. */
  datatype Hsla = Hsla(h: real, s: real, l: real, a: real)

  /** Hue in degrees, saturation and value in percent. */
  datatype Hsva = Hsva(h: real, s: real, v: real, a: real)

  /** Hue in degrees, whiteness and blackness in percent. */
  datatype Hwba = Hwba(h: real, w: real, b: real, a: real)

  /** Cyan, magenta, yellow and key (black) in percent. */
  datatype Cmyka = Cmyka(c: real, m: real, y: real, k: real, a: real)

  predicate IsByte(x: real) { 0.0 <= x <= 255.0 }

  predicate IsPercent(x: real) { 0.0 <= x <= 100.0 }

  predicate IsHue(x: real) { 0.0 <= x < 360.0 }

  predicate IsAlpha(x: real) { 0.0 <= x <= 1.0 }

  /** The colour channels (not alpha) are in [0, 255]. */
  predicate ValidRgb(c: Rgba) {
    IsByte(c.r) && IsByte(c.g) && IsByte(c.b)
  }

  /** The canonical colour's invariant: [0, 255]³ × [0, 1]. */
  predicate ValidRgba(c: Rgba) {
    ValidRgb(c) && IsAlpha(c.a)
  }

  /** The HSLA record's invariant: h in [0, 360), s and l in [0, 100], a in [0, 1]. */
  predicate ValidHsla(c: Hsla) {
    IsHue(c.h) && IsPercent(c.s) && IsPercent(c.l) && IsAlpha(c.a)
  }

  predicate ValidCmyk(c: Cmyka) {
    IsPercent(c.c) && IsPercent(c.m) && IsPercent(c.y) && IsPercent(c.k)
  }

  function Max3(c: Rgba): (M: real)
    ensures M >= c.r && M >= c.g && M >= c.b
    ensures M == c.r || M == c.g || M == c.b
  {
    if c.r >= c.g && c.r >= c.b then c.r else if c.g >= c.b then c.g else c.b
  }

  function Min3(c: Rgba): (m: real)
    ensures m <= c.r && m <= c.g && m <= c.b
    ensures m == c.r || m == c.g || m == c.b
  {
    if c.r <= c.g && c.r <= c.b then c.r else if c.g <= c.b then c.g else c.b
  }

  /** The same colour channels, ignoring alpha. */
  predicate SameRgb(c: Rgba, d: Rgba) {
    c.r == d.r && c.g == d.g && c.b == d.b
  }
}
