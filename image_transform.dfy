/** The four per-pixel transforms. Each one runs a column-major pass over the
    pixel grid and rewrites channels in place; each is specified by a function
    on the image's value (a `Grid`), and the properties the transforms promise
    are proved about those functions. */
module ImageTransform {
  import opened Pixel
  import opened Image

  /** `std::min` on `double`: the second argument only when it is strictly
      smaller, so the result is one of the two and is not above either.
      `MinNat` is the same rule on the unsigned image dimensions. */
  function Min(a: real, b: real): (r: real)
    ensures r <= a && r <= b
    ensures r == a || r == b
  {
    if b < a then b else a
  }

  /** `std::min` on `unsigned`: the same rule as `Min`. */
  function MinNat(a: nat, b: nat): (r: nat)
    ensures r <= a && r <= b
    ensures r == a || r == b
  {
    if b < a then b else a
  }

  /** `std::abs` on a hue difference: the difference without its sign. */
  function Abs(v: real): (r: real)
    ensures 0.0 <= r
    ensures r == v || r == -v
  {
    if v < 0.0 then -v else v
  }

  /** True when (x, y) addresses a pixel of `g`. */
  predicate InGrid(g: Grid, x: int, y: int) {
    0 <= x < |g| && 0 <= y < |g[x]|
  }

  /** Every pixel of `g` is within the documented channel ranges. */
  predicate AllInDocumentedRange(g: Grid) {
    forall x, y :: 0 <= x < |g| && 0 <= y < |g[x]| ==> InDocumentedRange(g[x][y])
  }

  /** Progress of a column-major pass over `a`: the cells visited before
      (x, y) hold `after`, the others still hold `before`. */
  ghost predicate Processed(a: array2<HSLAPixel>, before: Grid, after: Grid, x: int, y: int)
    reads a
  {
    && |before| == |after| == a.Length0
    && (forall i :: 0 <= i < a.Length0 ==> |before[i]| == |after[i]| == a.Length1)
    && forall i, j :: 0 <= i < a.Length0 && 0 <= j < a.Length1 ==>
         a[i, j] == if i < x || (i == x && j < y) then after[i][j] else before[i][j]
  }

  /** A pass that has visited every column leaves the image equal to `after`. */
  lemma PassComplete(image: Png, before: Grid, after: Grid)
    requires Processed(image.pixels, before, after, image.Width(), 0)
    ensures image.Cells() == after
  {
    GridExtensionality(image.Cells(), after);
  }

  // ---------------------------------------------------------------------
  // grayscale

  /** The value of `grayscale(image)`. */
  function Grayscaled(g: Grid): (r: Grid)
    ensures SameShape(r, g)
    ensures forall x, y :: 0 <= x < |g| && 0 <= y < |g[x]| ==>
      r[x][y].s == 0.0 && r[x][y].h == g[x][y].h && r[x][y].l == g[x][y].l && r[x][y].a == g[x][y].a
  {
    seq(|g|, x requires 0 <= x < |g| =>
      seq(|g[x]|, y requires 0 <= y < |g[x]| => WithSaturation(g[x][y], 0.0)))
  }

  /** Sets the saturation of every pixel to 0. */
  method Grayscale(image: Png) returns (result: Png)
    modifies image.pixels
    ensures result == image
    ensures image.Cells() == Grayscaled(old(image.Cells()))
  {
    ghost var before := image.Cells();
    ghost var after := Grayscaled(before);
    for x := 0 to image.Width()
      invariant Processed(image.pixels, before, after, x, 0)
    {
      for y := 0 to image.Height()
        invariant Processed(image.pixels, before, after, x, y)
      {
        image.pixels[x, y] := WithSaturation(image.pixels[x, y], 0.0);
      }
    }
    PassComplete(image, before, after);
    result := image;
  }

  /** Applying grayscale twice gives the same image as applying it once. */
  lemma GrayscaleIdempotent(g: Grid)
    ensures Grayscaled(Grayscaled(g)) == Grayscaled(g)
  {
    GridExtensionality(Grayscaled(Grayscaled(g)), Grayscaled(g));
  }

  /** Grayscale keeps an image within the documented channel ranges. */
  lemma GrayscaleKeepsRange(g: Grid)
    requires AllInDocumentedRange(g)
    ensures AllInDocumentedRange(Grayscaled(g))
  {
  }

  // ---------------------------------------------------------------------
  // createSpotlight

  /** `sqrt` from the C math library, idealised: the exact non-negative root
      of every non-negative argument. */
  ghost predicate IsSqrt(sqrt: real -> real) {
    forall q :: 0.0 <= q ==> 0.0 <= sqrt(q) && sqrt(q) * sqrt(q) == q
  }

  /** `pow(x - centerX, 2) + pow(y - centerY, 2)`. */
  function SquaredDistance(x: int, y: int, centerX: int, centerY: int): (r: int)
    ensures 0 <= r
    ensures r == 0 <==> x == centerX && y == centerY
  {
    (x - centerX) * (x - centerX) + (y - centerY) * (y - centerY)
  }

  /** The Euclidean distance from (x, y) to the centre: with an exact root,
      the non-negative number whose square is the squared distance. */
  function Distance(x: int, y: int, centerX: int, centerY: int, sqrt: real -> real): (d: real)
    ensures IsSqrt(sqrt) ==> 0.0 <= d && d * d == SquaredDistance(x, y, centerX, centerY) as real
  {
    sqrt(SquaredDistance(x, y, centerX, centerY) as real)
  }

  /** The fraction of luminance removed at a distance: 0.5% per unit, capped
      at 80%. */
  function Decrease(distance: real): (f: real)
    ensures 0.0 <= distance ==> 0.0 <= f <= 0.8
    ensures f == 0.8 <==> distance >= 160.0
    ensures distance <= 160.0 ==> f == distance * 0.005
  {
    Min(distance * 0.005, 0.8)
  }

  /** A pixel dimmed as the spotlight dims it at `distance`. */
  function SpotlitPixel(p: HSLAPixel, distance: real): (q: HSLAPixel)
    ensures q.h == p.h && q.s == p.s && q.a == p.a
  {
    WithLuminance(p, p.l * (1.0 - Decrease(distance)))
  }

  /** At any distance a non-negative luminance keeps between 20% and all of
      its value. */
  lemma SpotlitLuminanceBounds(p: HSLAPixel, distance: real)
    requires 0.0 <= distance && 0.0 <= p.l
    ensures 0.2 * p.l <= SpotlitPixel(p, distance).l <= p.l
  {
    ScaleBounds(p.l, Decrease(distance));
  }

  lemma ScaleBounds(l: real, f: real)
    requires 0.0 <= l && 0.0 <= f <= 0.8
    ensures 0.2 * l <= l * (1.0 - f) <= l
  {
  }

  /** The value of `createSpotlight(image, centerX, centerY)`. */
  function Spotlighted(g: Grid, centerX: int, centerY: int, sqrt: real -> real): (r: Grid)
    ensures SameShape(r, g)
    ensures forall x, y :: 0 <= x < |g| && 0 <= y < |g[x]| ==>
      r[x][y].h == g[x][y].h && r[x][y].s == g[x][y].s && r[x][y].a == g[x][y].a
    ensures forall x, y :: 0 <= x < |g| && 0 <= y < |g[x]| ==>
      r[x][y] == SpotlitPixel(g[x][y], Distance(x, y, centerX, centerY, sqrt))
  {
    seq(|g|, x requires 0 <= x < |g| =>
      seq(|g[x]|, y requires 0 <= y < |g[x]| =>
        SpotlitPixel(g[x][y], Distance(x, y, centerX, centerY, sqrt))))
  }

  /** Dims each pixel's luminance by its distance from (centerX, centerY),
      a centre that may lie off the image. `sqrt` is the math library's
      square root. */
  method CreateSpotlight(image: Png, centerX: int, centerY: int, sqrt: real -> real) returns (result: Png)
    modifies image.pixels
    ensures result == image
    ensures image.Cells() == Spotlighted(old(image.Cells()), centerX, centerY, sqrt)
  {
    ghost var before := image.Cells();
    ghost var after := Spotlighted(before, centerX, centerY, sqrt);
    for x := 0 to image.Width()
      invariant Processed(image.pixels, before, after, x, 0)
    {
      for y := 0 to image.Height()
        invariant Processed(image.pixels, before, after, x, y)
      {
        var pixel := image.pixels[x, y];
        var distance := sqrt(SquaredDistance(x, y, centerX, centerY) as real);
        var decrease := Min(distance * 0.005, 0.8);
        assert WithLuminance(pixel, pixel.l * (1.0 - decrease)) == after[x][y] by {
          assert pixel == before[x][y];
          assert decrease == Decrease(Distance(x, y, centerX, centerY, sqrt));
        }
        image.pixels[x, y] := WithLuminance(pixel, pixel.l * (1.0 - decrease));
      }
    }
    PassComplete(image, before, after);
    result := image;
  }

  lemma SquareStrictlyMonotone(a: real, b: real)
    requires 0.0 <= a < b
    ensures a * a < b * b
  {
    var aa, ab, bb := a * a, a * b, b * b;
    assert aa <= ab;
    assert ab < bb;
  }

  /** The root of a square is the non-negative base. */
  lemma SqrtOfSquare(sqrt: real -> real, v: real)
    requires IsSqrt(sqrt) && 0.0 <= v
    ensures sqrt(v * v) == v
  {
    var r := sqrt(v * v);
    if r < v {
      SquareStrictlyMonotone(r, v);
    } else if v < r {
      SquareStrictlyMonotone(v, r);
    }
  }

  /** The root is monotone. */
  lemma SqrtMonotone(sqrt: real -> real, p: real, q: real)
    requires IsSqrt(sqrt) && 0.0 <= p <= q
    ensures sqrt(p) <= sqrt(q)
  {
    if sqrt(q) < sqrt(p) {
      SquareStrictlyMonotone(sqrt(q), sqrt(p));
    }
  }

  /** A pixel at the centre keeps its luminance: the distance there is 0. */
  lemma SpotlightKeepsCentre(g: Grid, centerX: int, centerY: int, sqrt: real -> real)
    requires IsSqrt(sqrt)
    requires InGrid(g, centerX, centerY)
    ensures Spotlighted(g, centerX, centerY, sqrt)[centerX][centerY] == g[centerX][centerY]
  {
    SqrtOfSquare(sqrt, 0.0);
    assert Distance(centerX, centerY, centerX, centerY, sqrt) == 0.0;
  }

  /** The decrease reaches its 80% cap exactly from distance 160 on, that
      is from squared distance 25600 on, at any coordinates, on the image or
      off it. */
  lemma DecreaseCapped(x: int, y: int, centerX: int, centerY: int, sqrt: real -> real)
    requires IsSqrt(sqrt)
    ensures Decrease(Distance(x, y, centerX, centerY, sqrt)) == 0.8
      <==> SquaredDistance(x, y, centerX, centerY) >= 25600
  {
    var q := SquaredDistance(x, y, centerX, centerY) as real;
    SqrtOfSquare(sqrt, 160.0);
    if q >= 25600.0 {
      SqrtMonotone(sqrt, 25600.0, q);
    } else {
      SqrtMonotone(sqrt, q, 25600.0);
    }
  }

  /** Every pixel at distance 160 or more keeps 20% of its luminance. */
  lemma SpotlightFarField(g: Grid, centerX: int, centerY: int, sqrt: real -> real, x: int, y: int)
    requires IsSqrt(sqrt)
    requires InGrid(g, x, y)
    ensures SquaredDistance(x, y, centerX, centerY) >= 25600 ==>
      Spotlighted(g, centerX, centerY, sqrt)[x][y].l == 0.2 * g[x][y].l
  {
    DecreaseCapped(x, y, centerX, centerY, sqrt);
  }

  /** Farther pixels are dimmed by at least as large a fraction. */
  lemma SpotlightMonotone(centerX: int, centerY: int, sqrt: real -> real, x1: int, y1: int, x2: int, y2: int)
    requires IsSqrt(sqrt)
    requires SquaredDistance(x1, y1, centerX, centerY) <= SquaredDistance(x2, y2, centerX, centerY)
    ensures Decrease(Distance(x1, y1, centerX, centerY, sqrt)) <= Decrease(Distance(x2, y2, centerX, centerY, sqrt))
  {
    SqrtMonotone(sqrt, SquaredDistance(x1, y1, centerX, centerY) as real,
      SquaredDistance(x2, y2, centerX, centerY) as real);
  }

  /** A pixel 4 to the right of and 3 above the centre is at distance 5 and
      keeps 0.975 of its luminance. */
  lemma SpotlightWorkedExample(g: Grid, centerX: int, centerY: int, sqrt: real -> real)
    requires IsSqrt(sqrt)
    requires InGrid(g, centerX + 4, centerY - 3)
    ensures Distance(centerX + 4, centerY - 3, centerX, centerY, sqrt) == 5.0
    ensures Spotlighted(g, centerX, centerY, sqrt)[centerX + 4][centerY - 3].l
      == 0.975 * g[centerX + 4][centerY - 3].l
  {
    assert SquaredDistance(centerX + 4, centerY - 3, centerX, centerY) == 25;
    SqrtOfSquare(sqrt, 5.0);
  }

  /** The spotlight keeps an image within the documented channel ranges. */
  lemma SpotlightKeepsRange(g: Grid, centerX: int, centerY: int, sqrt: real -> real)
    requires IsSqrt(sqrt)
    requires AllInDocumentedRange(g)
    ensures AllInDocumentedRange(Spotlighted(g, centerX, centerY, sqrt))
  {
    var r := Spotlighted(g, centerX, centerY, sqrt);
    forall x, y | 0 <= x < |g| && 0 <= y < |g[x]|
      ensures InDocumentedRange(r[x][y])
    {
      SpotlitLuminanceBounds(g[x][y], Distance(x, y, centerX, centerY, sqrt));
    }
  }

  // ---------------------------------------------------------------------
  // illinify

  const OrangeHue: real := 11.0
  const BlueHue: real := 216.0

  /** The Illini hue a hue is snapped to: orange below the midpoint 113.5,
      blue from it on. */
  function IlliniHue(hue: real): (r: real)
    ensures r == OrangeHue || r == BlueHue
    ensures r == OrangeHue <==> Abs(hue - OrangeHue) < Abs(hue - BlueHue)
    ensures Abs(hue - r) <= Abs(hue - OrangeHue) && Abs(hue - r) <= Abs(hue - BlueHue)
  {
    if hue < (OrangeHue + BlueHue) / 2.0 then OrangeHue else BlueHue
  }

  /** The value of `illinify(image)`. */
  function Illinified(g: Grid): (r: Grid)
    ensures SameShape(r, g)
    ensures forall x, y :: 0 <= x < |g| && 0 <= y < |g[x]| ==>
      r[x][y].h == IlliniHue(g[x][y].h) && r[x][y].s == g[x][y].s && r[x][y].l == g[x][y].l && r[x][y].a == g[x][y].a
  {
    seq(|g|, x requires 0 <= x < |g| =>
      seq(|g[x]|, y requires 0 <= y < |g[x]| => WithHue(g[x][y], IlliniHue(g[x][y].h))))
  }

  /** Snaps every hue to Illini orange or Illini blue, whichever is strictly
      closer, and to blue on a tie. */
  method Illinify(image: Png) returns (result: Png)
    modifies image.pixels
    ensures result == image
    ensures image.Cells() == Illinified(old(image.Cells()))
  {
    ghost var before := image.Cells();
    ghost var after := Illinified(before);
    var orangeHue := OrangeHue;
    var blueHue := BlueHue;
    for x := 0 to image.Width()
      invariant Processed(image.pixels, before, after, x, 0)
    {
      for y := 0 to image.Height()
        invariant Processed(image.pixels, before, after, x, y)
      {
        var pixel := image.pixels[x, y];
        var orangeDiff := Abs(pixel.h - orangeHue);
        var blueDiff := Abs(pixel.h - blueHue);
        if orangeDiff < blueDiff {
          image.pixels[x, y] := WithHue(pixel, orangeHue);
        } else {
          image.pixels[x, y] := WithHue(pixel, blueHue);
        }
      }
    }
    PassComplete(image, before, after);
    result := image;
  }

  /** After illinify every hue is exactly 11 or 216. */
  lemma IllinifyHuesAreIllini(g: Grid)
    ensures forall x, y :: 0 <= x < |g| && 0 <= y < |g[x]| ==>
      Illinified(g)[x][y].h == OrangeHue || Illinified(g)[x][y].h == BlueHue
  {
  }

  /** A hue equally far from both targets becomes blue. */
  lemma IllinifyTieGoesToBlue()
    ensures Abs(113.5 - OrangeHue) == Abs(113.5 - BlueHue)
    ensures IlliniHue(113.5) == BlueHue
  {
  }

  /** Distances are linear, not around the hue circle: 359 degrees is 12
      degrees from orange around the circle, yet it becomes blue. */
  lemma IllinifyDoesNotWrap()
    ensures IlliniHue(359.0) == BlueHue
  {
  }

  /** Illinify leaves an illinified image as it is. */
  lemma IllinifyIdempotent(g: Grid)
    ensures Illinified(Illinified(g)) == Illinified(g)
  {
    GridExtensionality(Illinified(Illinified(g)), Illinified(g));
  }

  /** Illinify keeps an image within the documented channel ranges. */
  lemma IllinifyKeepsRange(g: Grid)
    requires AllInDocumentedRange(g)
    ensures AllInDocumentedRange(Illinified(g))
  {
  }

  // ---------------------------------------------------------------------
  // watermark

  /** A base pixel under a stencil pixel: brightened by 0.2, up to 1.0,
      exactly when the stencil's luminance is 1.0. */
  function WatermarkPixel(p: HSLAPixel, stencil: HSLAPixel): (q: HSLAPixel)
    ensures q.h == p.h && q.s == p.s && q.a == p.a
    ensures stencil.l != 1.0 ==> q == p
    ensures stencil.l == 1.0 ==> q.l <= 1.0 && q.l <= p.l + 0.2 && (q.l == 1.0 || q.l == p.l + 0.2)
    ensures stencil.l == 1.0 && p.l < 1.0 ==> p.l < q.l
  {
    if stencil.l == 1.0 then WithLuminance(p, Min(p.l + 0.2, 1.0)) else p
  }

  /** The common region: both images have a pixel at (x, y). */
  predicate InCommonRegion(first: Grid, second: Grid, x: int, y: int) {
    0 <= x < MinNat(|first|, |second|) && 0 <= y < MinNat(GridHeight(first), GridHeight(second))
  }

  /** The value of `watermark(firstImage, secondImage)`. */
  function Watermarked(first: Grid, second: Grid): (r: Grid)
    requires Rectangular(first) && Rectangular(second)
    ensures SameShape(r, first)
    ensures forall x, y :: 0 <= x < |first| && 0 <= y < |first[x]| ==>
      r[x][y].h == first[x][y].h && r[x][y].s == first[x][y].s && r[x][y].a == first[x][y].a
    ensures forall x, y :: 0 <= x < |first| && 0 <= y < |first[x]| && !InCommonRegion(first, second, x, y) ==>
      r[x][y] == first[x][y]
    ensures forall x, y :: InCommonRegion(first, second, x, y) ==>
      r[x][y] == WatermarkPixel(first[x][y], second[x][y])
  {
    seq(|first|, x requires 0 <= x < |first| =>
      seq(|first[x]|, y requires 0 <= y < |first[x]| =>
        if InCommonRegion(first, second, x, y) then WatermarkPixel(first[x][y], second[x][y])
        else first[x][y]))
  }

  /** Brightens the first image wherever the second image's luminance is
      exactly 1.0, over the region the two images share. The second image is
      only read. */
  method Watermark(firstImage: Png, secondImage: Png) returns (result: Png)
    modifies firstImage.pixels
    ensures result == firstImage
    ensures firstImage.Cells() == Watermarked(old(firstImage.Cells()), old(secondImage.Cells()))
    ensures secondImage.pixels != firstImage.pixels ==> unchanged(secondImage.pixels)
  {
    ghost var before := firstImage.Cells();
    ghost var stencil := secondImage.Cells();
    ghost var after := Watermarked(before, stencil);
    var commonWidth := MinNat(firstImage.Width(), secondImage.Width());
    var commonHeight := MinNat(firstImage.Height(), secondImage.Height());
    for x := 0 to commonWidth
      invariant Processed(firstImage.pixels, before, after, x, 0)
      invariant secondImage.pixels != firstImage.pixels ==> unchanged(secondImage.pixels)
    {
      for y := 0 to commonHeight
        invariant Processed(firstImage.pixels, before, after, x, y)
        invariant secondImage.pixels != firstImage.pixels ==> unchanged(secondImage.pixels)
      {
        var pixelFirst := firstImage.pixels[x, y];
        var pixelSecond := secondImage.pixels[x, y];
        assert pixelSecond == stencil[x][y];
        if pixelSecond.l == 1.0 {
          firstImage.pixels[x, y] := WithLuminance(pixelFirst, Min(pixelFirst.l + 0.2, 1.0));
        }
      }
    }
    PassComplete(firstImage, before, after);
    result := firstImage;
  }

  /** Watermarking keeps the first image within the documented channel
      ranges, whatever the stencil holds. */
  lemma WatermarkKeepsRange(first: Grid, second: Grid)
    requires Rectangular(first) && Rectangular(second)
    requires AllInDocumentedRange(first)
    ensures AllInDocumentedRange(Watermarked(first, second))
  {
  }
}
