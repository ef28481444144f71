/** Decoded images as values, the rectangles the program crops and copies,
    and the resampling primitive it calls. Only their geometry is modelled:
    an image is a grid of pixel values, rows top to bottom. */
module Imaging {

  /** One pixel value; the colour model of `DynamicImage` is not modelled.
      0 is what `DynamicImage::new` fills a new canvas with. */
  type Pixel = nat

  datatype Raster = Raster(width: nat, height: nat, rows: seq<seq<Pixel>>)

  /** A well-formed raster: `height` rows of `width` pixels each. */
  type Image = r: Raster | |r.rows| == r.height && forall j :: 0 <= j < |r.rows| ==> |r.rows[j]| == r.width
    witness Raster(0, 0, [])

  /** The pixel in column x of row y (`get_pixel(x, y)`). */
  function At(im: Image, x: nat, y: nat): Pixel
    requires x < im.width && y < im.height
  {
    im.rows[y][x]
  }

  /** An axis-aligned rectangle: origin (x, y), width w, height h. */
  datatype Rect = Rect(x: nat, y: nat, w: nat, h: nat)

  predicate Contains(r: Rect, px: nat, py: nat) {
    r.x <= px < r.x + r.w && r.y <= py < r.y + r.h
  }

  /** The rectangle lies within a width-by-height image. */
  predicate Inside(r: Rect, width: nat, height: nat) {
    r.x + r.w <= width && r.y + r.h <= height
  }

  /** Separated by a vertical or a horizontal line: no pixel is in both. */
  predicate Disjoint(a: Rect, b: Rect) {
    a.x + a.w <= b.x || b.x + b.w <= a.x || a.y + a.h <= b.y || b.y + b.h <= a.y
  }

  /** `crop_imm` on a rectangle inside the image: the sub-image whose pixel
      (i, j) is the image's pixel (r.x + i, r.y + j). */
  function Crop(im: Image, r: Rect): (c: Image)
    requires Inside(r, im.width, im.height)
    ensures c.width == r.w && c.height == r.h
    ensures forall i, j :: 0 <= i < r.w && 0 <= j < r.h ==> At(c, i, j) == At(im, r.x + i, r.y + j)
  {
    Raster(r.w, r.h, seq(r.h, j requires 0 <= j < r.h => im.rows[r.y + j][r.x .. r.x + r.w]))
  }

  /** A width-by-height image of blank pixels (`DynamicImage::new`). */
  function Blank(width: nat, height: nat): (b: Image)
    ensures b.width == width && b.height == height
    ensures forall i, j :: 0 <= i < width && 0 <= j < height ==> At(b, i, j) == 0
  {
    Raster(width, height, seq(height, j => seq(width, i => 0)))
  }

  /** Images are equal when their sizes and all their pixels are. */
  lemma SameImage(a: Image, b: Image)
    requires a.width == b.width && a.height == b.height
    requires forall i, j :: 0 <= i < a.width && 0 <= j < a.height ==> At(a, i, j) == At(b, i, j)
    ensures a == b
  {
    forall j | 0 <= j < a.height
      ensures a.rows[j] == b.rows[j]
    {
      assert forall i :: 0 <= i < a.width ==> a.rows[j][i] == At(a, i, j);
    }
  }

  /** `resize_exact`: a resampling function that always returns an image of
      exactly the requested width and height. The filter itself (Gaussian in
      the program) is left unspecified. */
  type Resizer = f: (Image, nat, nat) -> Image | forall im, w, h :: f(im, w, h).width == w && f(im, w, h).height == h
    witness (im: Image, w: nat, h: nat) => Blank(w, h)
}
