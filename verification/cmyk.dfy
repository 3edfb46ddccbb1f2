/**
  `CMYKtoRGB`: the naive uncalibrated inverse of `RGBtoCMYK`; each channel is
  255·(1 - ink)·(1 - k), inks given in percent. Alpha is copied.
 */
module Cmyk {
  import opened Numeric
  import opened Colors
  import opened RgbConversions

  /** One channel back from its ink and the key, both in percent. */
  function Channel(ink: real, k: real): real {
    255.0 * (1.0 - ink / 100.0) * (1.0 - k / 100.0)
  }

  function CmykToRgb(c: Cmyka): (r: Rgba)
    ensures r.a == c.a
    ensures c.k == 100.0 ==> r.r == 0.0 && r.g == 0.0 && r.b == 0.0
    ensures c.c == 0.0 && c.m == 0.0 && c.y == 0.0 && c.k == 0.0 ==> r == Rgba(255.0, 255.0, 255.0, c.a)
  {
    Rgba(Channel(c.c, c.k), Channel(c.m, c.k), Channel(c.y, c.k), c.a)
  }

  /** A channel from an ink and a key in [0, 100] is in [0, 255]. */
  lemma ChannelRange(ink: real, k: real)
    requires IsPercent(ink) && IsPercent(k)
    ensures IsByte(Channel(ink, k))
  {
    MulUnit(1.0 - ink / 100.0, 1.0 - k / 100.0);
    assert Channel(ink, k) == 255.0 * ((1.0 - ink / 100.0) * (1.0 - k / 100.0));
  }

  /** Inks and key in [0, 100] give channels in [0, 255]. */
  lemma CmykToRgbRange(c: Cmyka)
    requires ValidCmyk(c)
    ensures ValidRgb(CmykToRgb(c))
  {
    ChannelRange(c.c, c.k);
    ChannelRange(c.m, c.k);
    ChannelRange(c.y, c.k);
  }

  /** The ink of channel `x` under maximum `hi` turns back into `x`. */
  lemma ChannelRoundTrip(x: real, hi: real)
    requires 0.0 <= x <= hi <= 255.0
    ensures Channel(100.0 * Ink(x, 1.0 - hi / 255.0), 100.0 * (1.0 - hi / 255.0)) == x
  {
    InkFraction(x, hi);
    var k := 1.0 - hi / 255.0;
    if hi != 0.0 {
      var f := (hi - x) / hi;
      assert f * hi == hi - x;
      calc {
        Channel(100.0 * f, 100.0 * k);
        == 255.0 * (1.0 - f) * (1.0 - k);
        == 255.0 * (1.0 - f) * (hi / 255.0);
        == hi - f * hi;
        == x;
      }
    }
  }

  /** CMYK is a lossless encoding of RGB: converting there and back gives the
      same colour exactly, alpha included. */
  lemma CmykRoundTrip(c: Rgba)
    requires ValidRgb(c)
    ensures CmykToRgb(RgbToCmyk(c)) == c
  {
    ChannelRoundTrip(c.r, Max3(c));
    ChannelRoundTrip(c.g, Max3(c));
    ChannelRoundTrip(c.b, Max3(c));
  }

  /** The worked example: (0, 25, 50, 100·55/255) is (200, 150, 100). */
  lemma CmykExample()
    ensures CmykToRgb(Cmyka(0.0, 25.0, 50.0, 100.0 * 55.0 / 255.0, 0.7)) == Rgba(200.0, 150.0, 100.0, 0.7)
  {
    RgbConversions.CmykExample();
    CmykRoundTrip(Rgba(200.0, 150.0, 100.0, 0.7));
  }
}
