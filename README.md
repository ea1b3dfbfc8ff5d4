# ImageTransform in Dafny

A model of four raster transforms that work on images of HSLA pixels (hue,
saturation, luminance, alpha):

- `grayscale` sets every pixel's saturation to 0.
- `createSpotlight` dims each pixel's luminance by 0.5% per unit of Euclidean
  distance from a centre, capped at 80%. The centre may lie off the image.
- `illinify` snaps every hue to Illini orange (11) or Illini blue (216),
  whichever is strictly closer. Ties go to blue.
- `watermark` brightens the first image's luminance by 0.2, up to 1.0,
  wherever the second image's luminance is exactly 1.0. It only touches the
  region the two images share.

The model also covers the pixel value type `HSLAPixel`.

Layout:

- `hsla_pixel.dfy`, module `Pixel`: the pixel datatype, its default
  constructor, and the channel writes the transforms perform.
- `png.dfy`, module `Image`: the part of the image container the transforms
  use. Class `Png` holds an `array2` of pixels, where `pixels[x, y]` is what
  `getPixel(x, y)` refers to, and reports its width and height. `Cells()`
  gives the image's value as a `Grid`, a sequence of columns.
- `image_transform.dfy`, module `ImageTransform`: the four transforms as
  methods with the source's nested `for x` / `for y` loops. They write the
  pixel grid in place. Each method is proved against a function on `Grid`
  values (`Grayscaled`, `Spotlighted`, `Illinified`, `Watermarked`).
  The properties of the transforms are lemmas about those functions.

The C math library's `sqrt` is a parameter of `CreateSpotlight`. The lemmas
about the spotlight assume `IsSqrt(sqrt)`: the parameter returns the exact
non-negative square root. From that they derive the facts they need:
`sqrt(0) = 0`, `sqrt(25) = 5`, monotonicity, and `sqrt(q) >= 160` exactly
when `q >= 25600`.

`illinify` is specified by a midpoint rule: orange below 113.5, blue from
113.5 on. `IlliniHue` proves this rule equal to the source's
absolute-difference comparison. The method runs the source's comparison and
is proved to agree with the rule.

## Model

| member | source | states |
|---|---|---|
| `Pixel.DefaultPixel` | uiuc/HSLAPixel.h:22-23 | the default pixel is opaque black: hue, saturation and luminance 0, alpha 1, inside the documented ranges |
| `Pixel.ConstructorStoresVerbatim` | uiuc/HSLAPixel.h:25-27 | the explicit constructor stores hue, saturation, luminance and alpha each in its own field, for every argument value |
| `Pixel.OutOfRangeKept` | uiuc/HSLAPixel.h:17-20 | the type does not clamp: a pixel built from out-of-range values keeps them and is outside the documented ranges |
| `Pixel.WithHue` | uiuc/HSLAPixel.h:17-20 | writing the hue sets it and leaves saturation, luminance and alpha unchanged |
| `Pixel.WithSaturation` | uiuc/HSLAPixel.h:17-20 | writing the saturation sets it and leaves hue, luminance and alpha unchanged |
| `Pixel.WithLuminance` | uiuc/HSLAPixel.h:17-20 | writing the luminance sets it and leaves hue, saturation and alpha unchanged |
| `Image.Png.Cells` | ImageTransform.cpp:33-35 | the image's value has `width()` columns of `height()` pixels each, and cell (x, y) is the pixel `getPixel(x, y)` refers to |
| `ImageTransform.Grayscaled` | ImageTransform.cpp:30-45 | the result has the input's shape; every pixel has saturation 0 and keeps its hue, luminance and alpha |
| `ImageTransform.Grayscale` | ImageTransform.cpp:30-45 | after the nested pass the image in place holds `Grayscaled` of its old value, and that image is returned |
| `ImageTransform.GrayscaleIdempotent` | ImageTransform.cpp:33-40 | applying grayscale twice gives the same image as applying it once |
| `ImageTransform.GrayscaleKeepsRange` | ImageTransform.cpp:40 | an image inside the documented channel ranges stays inside them |
| `ImageTransform.Min` | ImageTransform.cpp:77 | `std::min` on `double`: the result is one of the two arguments and is not above either; the second is taken only when strictly smaller |
| `ImageTransform.MinNat` | ImageTransform.cpp:137-138 | `std::min` on the unsigned widths and heights, the same rule as `Min`: one of the two, not above either |
| `ImageTransform.Abs` | ImageTransform.cpp:108-109 | `std::abs` on a hue difference: non-negative, and equal to the difference or its negation |
| `ImageTransform.SquaredDistance` | ImageTransform.cpp:74 | `pow(x - centerX, 2) + pow(y - centerY, 2)` is non-negative, and 0 exactly at the centre |
| `ImageTransform.Distance` | ImageTransform.cpp:74 | with an exact `sqrt`, the distance is non-negative and its square is the squared distance |
| `ImageTransform.Decrease` | ImageTransform.cpp:77 | the decrease lies in [0, 0.8] for a non-negative distance, equals the 0.8 cap exactly when the distance is at least 160, and is 0.005 per unit of distance below that |
| `ImageTransform.DecreaseCapped` | ImageTransform.cpp:74-77 | at any coordinates, on the image or off it, the decrease equals the 0.8 cap if and only if the squared distance is at least 25600 |
| `ImageTransform.SpotlitPixel` | ImageTransform.cpp:77-80 | the spotlight changes only a pixel's luminance |
| `ImageTransform.SpotlitLuminanceBounds` | ImageTransform.cpp:77-80 | a non-negative luminance keeps between 20% and 100% of its value at any distance |
| `ImageTransform.Spotlighted` | ImageTransform.cpp:67-85 | the result has the input's shape and keeps every pixel's hue, saturation and alpha; the luminance at (x, y) is scaled by `1 - min(d * 0.005, 0.8)`, where d is the distance to the centre |
| `ImageTransform.CreateSpotlight` | ImageTransform.cpp:67-85 | after the nested pass the image in place holds `Spotlighted` of its old value for the given centre, which may lie off the image, and that image is returned |
| `ImageTransform.SqrtOfSquare` | ImageTransform.cpp:74 | an exact square root returns the non-negative base of a square, which gives `sqrt(0) = 0`, `sqrt(25) = 5` and `sqrt(25600) = 160` |
| `ImageTransform.SqrtMonotone` | ImageTransform.cpp:74 | an exact square root is monotone |
| `ImageTransform.SpotlightKeepsCentre` | ImageTransform.cpp:74-80 | a pixel at the centre, when it is in bounds, is left unchanged, because its distance is 0 |
| `ImageTransform.SpotlightFarField` | ImageTransform.cpp:77-80 | a pixel whose squared distance is at least 25600 (distance 160) keeps exactly 0.2 of its luminance, over reals |
| `ImageTransform.SpotlightMonotone` | ImageTransform.cpp:74-77 | a pixel at a greater distance is dimmed by at least as large a fraction |
| `ImageTransform.SpotlightWorkedExample` | ImageTransform.cpp:54-56 | a pixel 4 to the right of and 3 above the centre is at distance 5 and keeps 0.975 of its luminance |
| `ImageTransform.SpotlightKeepsRange` | ImageTransform.cpp:77-80 | an image inside the documented channel ranges stays inside them |
| `ImageTransform.IlliniHue` | ImageTransform.cpp:107-116 | the target hue is 11 or 216; it is 11 exactly when 11 is strictly closer than 216, and it is never farther from the hue than the other target |
| `ImageTransform.Illinified` | ImageTransform.cpp:97-121 | the result has the input's shape; each hue becomes its Illini hue; saturation, luminance and alpha are kept |
| `ImageTransform.Illinify` | ImageTransform.cpp:97-121 | the nested pass with the source's absolute-difference comparison leaves the image holding `Illinified` of its old value, and that image is returned |
| `ImageTransform.IllinifyHuesAreIllini` | ImageTransform.cpp:112-116 | after illinify every hue is exactly 11 or 216 |
| `ImageTransform.IllinifyTieGoesToBlue` | ImageTransform.cpp:112-116 | the hue 113.5 is equally far from both targets and becomes 216, because the test is a strict `<` |
| `ImageTransform.IllinifyDoesNotWrap` | ImageTransform.cpp:108-109 | distances are linear, with no wrap at 360: hue 359 becomes 216 although it is 12 degrees from 11 around the circle |
| `ImageTransform.IllinifyIdempotent` | ImageTransform.cpp:103-118 | illinifying an illinified image changes nothing |
| `ImageTransform.IllinifyKeepsRange` | ImageTransform.cpp:112-116 | an image inside the documented channel ranges stays inside them |
| `ImageTransform.WatermarkPixel` | ImageTransform.cpp:144-148 | a pixel changes only when the stencil luminance is exactly 1.0; then its luminance is `min(l + 0.2, 1.0)`: at most 1.0, at most 0.2 brighter, and strictly brighter when it was below 1.0; hue, saturation and alpha are kept |
| `ImageTransform.Watermarked` | ImageTransform.cpp:135-153 | the result has the first image's shape; pixels outside `min(width) x min(height)` are unchanged; inside it each pixel is watermarked by the stencil pixel at the same place; hue, saturation and alpha are kept everywhere |
| `ImageTransform.Watermark` | ImageTransform.cpp:135-153 | the pass over the common region leaves the first image holding `Watermarked` of the two old values; the second image is unchanged unless it shares the first image's grid; the first image is returned |
| `ImageTransform.WatermarkKeepsRange` | ImageTransform.cpp:145-147 | a first image inside the documented channel ranges stays inside them, whatever the stencil holds |

## Left out

- Reading and writing image files, and the internals of the image container
  `uiuc/PNG.h`, are not part of this model. Only `width()`, `height()` and
  `getPixel(x, y)` are modelled.
- Channels are `real`, not IEEE-754 `double`, so rounding is not modelled.
  The exact-value spotlight properties are proved over reals only: the 0.2
  factor at the cap (`SpotlightFarField`), the 0.975 factor of the worked
  example (`SpotlightWorkedExample`) and the lower bound of 20% of the
  luminance (`SpotlitLuminanceBounds`). Under `double`, `1 - 0.8` is
  0.19999999999999996, so the source leaves a capped pixel at that multiple
  of its luminance, one rounding step below 0.2 times it.
- NaN and infinite channel values are not modelled. In the source a NaN hue
  fails the strict `<` test of `illinify` and so becomes 216, and a NaN
  stencil luminance is never equal to 1.0.
- CreateSpotlight: the exact value of the library `sqrt` and `pow` is not
  modelled. `sqrt` is a parameter, and the spotlight lemmas assume it returns
  the exact root. `pow(v, 2)` is modelled as `v * v`.
- CreateSpotlight: the centre is an unbounded integer. The 32-bit overflow of
  `(int)x - centerX` for centres near the ends of the `int` range is not
  modelled, and neither is the cast of a width above `INT_MAX` to `int`.
- Grayscale, CreateSpotlight, Illinify, Watermark: each takes its image by
  value in the source, so the caller keeps its own copy. The model updates
  the `Png` it is given and returns it; a caller that needs the original
  must copy it first.
- No transform writes alpha, so there is no alpha writer beside
  `WithHue`, `WithSaturation` and `WithLuminance`.
