/** The pixel value type of the image library (`uiuc::HSLAPixel`). */
module Pixel {

  /** One pixel: hue in degrees, saturation, luminance and alpha as fractions.
      The four channels are independent fields, and the type clamps nothing:
      the documented ranges are a convention the transforms keep, not an
      invariant of the type. */
  datatype HSLAPixel = HSLAPixel(h: real, s: real, l: real, a: real)

  /** The ranges documented next to the four fields. */
  predicate InDocumentedRange(p: HSLAPixel) {
    && 0.0 <= p.h <= 360.0
    && 0.0 <= p.s <= 1.0
    && 0.0 <= p.l <= 1.0
    && 0.0 <= p.a <= 1.0
  }

  /** The default constructor: opaque black. */
  function DefaultPixel(): (p: HSLAPixel)
    ensures p.h == 0.0 && p.s == 0.0 && p.l == 0.0
    ensures p.a == 1.0
    ensures InDocumentedRange(p)
  {
    HSLAPixel(0.0, 0.0, 0.0, 1.0)
  }

  /** The explicit constructor stores each argument in its own field, for
      every argument value. */
  lemma ConstructorStoresVerbatim(hue: real, saturation: real, luminance: real, alpha: real)
    ensures var p := HSLAPixel(hue, saturation, luminance, alpha);
      p.h == hue && p.s == saturation && p.l == luminance && p.a == alpha
  {
  }

  /** Out-of-range arguments are kept as given, not clamped into range. */
  lemma OutOfRangeKept()
    ensures var p := HSLAPixel(400.0, -0.5, 1.5, 2.0);
      !InDocumentedRange(p) && p.h == 400.0 && p.s == -0.5 && p.l == 1.5 && p.a == 2.0
  {
  }

  /** Writing the hue through a pixel reference (`pixel.h = hue`). */
  function WithHue(p: HSLAPixel, hue: real): (q: HSLAPixel)
    ensures q.h == hue
    ensures q.s == p.s && q.l == p.l && q.a == p.a
  {
    p.(h := hue)
  }

  /** Writing the saturation through a pixel reference (`pixel.s = saturation`). */
  function WithSaturation(p: HSLAPixel, saturation: real): (q: HSLAPixel)
    ensures q.s == saturation
    ensures q.h == p.h && q.l == p.l && q.a == p.a
  {
    p.(s := saturation)
  }

  /** Writing the luminance through a pixel reference (`pixel.l = luminance`). */
  function WithLuminance(p: HSLAPixel, luminance: real): (q: HSLAPixel)
    ensures q.l == luminance
    ensures q.h == p.h && q.s == p.s && q.a == p.a
  {
    p.(l := luminance)
  }
}
