/** The part of the image container (`uiuc::PNG`) the transforms use: a
    width × height grid of pixels, addressed as (x, y), read and written in
    place. Decoding and encoding image files are not part of this model. */
module Image {
  import opened Pixel

  /** The value of an image as a sequence of columns: `g[x][y]` is the pixel
      at (x, y). */
  type Grid = seq<seq<HSLAPixel>>

  /** Two grids with the same columns of the same heights. */
  predicate SameShape(a: Grid, b: Grid) {
    |a| == |b| && forall x :: 0 <= x < |a| ==> |a[x]| == |b[x]|
  }

  /** The height of a grid; a grid without columns has height 0. */
  function GridHeight(g: Grid): nat {
    if |g| == 0 then 0 else |g[0]|
  }

  /** Every column has the same height, as in any image. */
  predicate Rectangular(g: Grid) {
    forall x :: 0 <= x < |g| ==> |g[x]| == GridHeight(g)
  }

  /** Grids are equal when they agree on shape and on every pixel. */
  lemma GridExtensionality(a: Grid, b: Grid)
    requires SameShape(a, b)
    requires forall x, y :: 0 <= x < |a| && 0 <= y < |a[x]| ==> a[x][y] == b[x][y]
    ensures a == b
  {
    forall x | 0 <= x < |a|
      ensures a[x] == b[x]
    {
    }
  }

  /** An image: its pixel grid, `pixels[x, y]` being the pixel that
      `getPixel(x, y)` refers to. */
  class Png {
    const pixels: array2<HSLAPixel>

    /** Wraps a grid that was decoded elsewhere. */
    constructor (pixels: array2<HSLAPixel>)
      ensures this.pixels == pixels
    {
      this.pixels := pixels;
    }

    function Width(): nat {
      pixels.Length0
    }

    function Height(): nat {
      pixels.Length1
    }

    /** The image's current contents as a value. */
    ghost function Cells(): (g: Grid)
      reads pixels
      ensures |g| == Width() && Rectangular(g)
      ensures forall x :: 0 <= x < |g| ==> |g[x]| == Height()
      ensures forall x, y :: 0 <= x < Width() && 0 <= y < Height() ==> g[x][y] == pixels[x, y]
    {
      seq(Width(), x requires 0 <= x < Width() reads pixels =>
        seq(Height(), y requires 0 <= y < Height() reads pixels => pixels[x, y]))
    }
  }
}
