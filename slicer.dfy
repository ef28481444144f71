/** The slicer `split_images` (src/main.rs:30-47): one crop per cell of the
    input grid, rows outer and columns inner. Cell (x, y) of a C-by-R grid over
    a W-by-H image starts at (x*W/C, y*H/R) and is W/C by H/R pixels, all
    floor divisions. The origins are spread over the whole image while the
    size is fixed, so when C does not divide W (or R does not divide H) a strip
    of the image lies in no cell; that truncation is part of the behaviour. */
module Slicer {
  import opened Arith
  import opened Imaging
  import GridText

  /** Cell k of a cols-by-rows grid in row-major order is column k % cols of row k / cols. */
  lemma RowMajorIndex(cols: nat, rows: nat, k: nat)
    requires k < cols * rows
    ensures cols > 0 && rows > 0
    ensures k % cols < cols && 0 <= k / cols < rows
    ensures k == k / cols * cols + k % cols
  {
    QuotientIsNat(k, cols);
    if k / cols >= rows {
      MulMono(rows, k / cols, cols);
    }
  }

  /** Conversely, the cell in column x of row y has index y*cols + x. */
  lemma RowMajorPosition(cols: nat, rows: nat, x: nat, y: nat)
    requires x < cols && y < rows
    ensures 0 <= y * cols + x < cols * rows
    ensures (y * cols + x) % cols == x && (y * cols + x) / cols == y
  {
    DivModOfMulAdd(y, cols, x);
    MulMono(y + 1, rows, cols);
  }

  /** Column x, row y is cell k exactly when x and y are k's column and row. */
  lemma RowMajorUnique(cols: nat, rows: nat, k: nat, x: nat, y: nat)
    requires k < cols * rows
    ensures cols > 0
    ensures (x < cols && y < rows && y * cols + x == k) <==> (x == k % cols && y == k / cols)
  {
    RowMajorIndex(cols, rows, k);
    if x < cols && y < rows {
      RowMajorPosition(cols, rows, x, y);
    }
  }

  /** Different cells differ in their column or their row. */
  lemma RowMajorDistinct(cols: nat, rows: nat, k: nat, k': nat)
    requires k < cols * rows && k' < cols * rows && k != k'
    ensures cols > 0 && rows > 0
    ensures k % cols < cols && 0 <= k / cols < rows && k' % cols < cols && 0 <= k' / cols < rows
    ensures k % cols != k' % cols || k / cols != k' / cols
  {
    RowMajorIndex(cols, rows, k);
    RowMajorIndex(cols, rows, k');
  }

  /** The crop rectangle of the cell in column x of row y (lines 38-41). It
      always lies inside the image, so `crop_imm` never has to clip it. */
  function CellRect(width: nat, height: nat, cols: nat, rows: nat, x: nat, y: nat): (r: Rect)
    requires x < cols && y < rows
    ensures Inside(r, width, height)
  {
    var ox := x * width / cols;
    var oy := y * height / rows;
    var w := width / cols;
    var h := height / rows;
    QuotientIsNat(x * width, cols);
    QuotientIsNat(y * height, rows);
    QuotientIsNat(width, cols);
    QuotientIsNat(height, rows);
    SpreadCellInside(x, width, cols);
    SpreadCellInside(y, height, rows);
    assert ox + w <= width && oy + h <= height;
    Rect(ox, oy, w, h)
  }

  /** The crop rectangle of cell k in row-major order. */
  function SliceRect(width: nat, height: nat, cols: nat, rows: nat, k: nat): (r: Rect)
    requires k < cols * rows
    ensures Inside(r, width, height)
  {
    RowMajorIndex(cols, rows, k);
    CellRect(width, height, cols, rows, k % cols, k / cols)
  }

  /** The list of cells `split_images` returns: cell k is the crop of
      SliceRect(k); a grid with a zero component has no cells. */
  function Slices(im: Image, grid: (nat, nat)): (cells: seq<Image>)
    ensures |cells| == grid.0 * grid.1
  {
    seq(grid.0 * grid.1, k requires 0 <= k < grid.0 * grid.1 =>
      Crop(im, SliceRect(im.width, im.height, grid.0, grid.1, k)))
  }

  /** Every cell has the fixed size W/C by H/R and holds the image's pixels
      at the cell's origin (x*W/C, y*H/R), x = k % C, y = k / C. */
  lemma SliceContents(im: Image, grid: (nat, nat), k: nat, i: nat, j: nat)
    requires k < grid.0 * grid.1
    ensures grid.0 > 0 && grid.1 > 0
    ensures Slices(im, grid)[k].width == im.width / grid.0
    ensures Slices(im, grid)[k].height == im.height / grid.1
    ensures i < im.width / grid.0 && j < im.height / grid.1 ==>
      k % grid.0 * im.width / grid.0 + i < im.width &&
      k / grid.0 * im.height / grid.1 + j < im.height &&
      At(Slices(im, grid)[k], i, j) ==
        At(im, k % grid.0 * im.width / grid.0 + i, k / grid.0 * im.height / grid.1 + j)
  {
    RowMajorIndex(grid.0, grid.1, k);
  }

  /** When C divides W and R divides H the cells tile the image exactly:
      the cell of column x, row y is the W/C-by-H/R block at (x*(W/C), y*(H/R)). */
  lemma SliceContentsExact(im: Image, grid: (nat, nat), tw: nat, th: nat,
                            x: nat, y: nat, i: nat, j: nat, k: nat, px: nat, py: nat)
    requires x < grid.0 && y < grid.1 && k == y * grid.0 + x
    requires im.width % grid.0 == 0 && im.height % grid.1 == 0
    requires tw == im.width / grid.0 && th == im.height / grid.1
    requires i < tw && j < th && px == x * tw + i && py == y * th + j
    ensures k < grid.0 * grid.1
    ensures Slices(im, grid)[k].width == tw && Slices(im, grid)[k].height == th
    ensures px < im.width && py < im.height
    ensures At(Slices(im, grid)[k], i, j) == At(im, px, py)
  {
    RowMajorPosition(grid.0, grid.1, x, y);
    SliceContents(im, grid, k, i, j);
    SpreadOriginExact(x, im.width, grid.0);
    SpreadOriginExact(y, im.height, grid.1);
  }

  /** The crops of two different cells never share a pixel: in different
      columns they are separated horizontally, otherwise vertically. */
  lemma SliceRectsDisjoint(width: nat, height: nat, cols: nat, rows: nat, k: nat, k': nat)
    requires k < cols * rows && k' < cols * rows && k != k'
    ensures Disjoint(SliceRect(width, height, cols, rows, k), SliceRect(width, height, cols, rows, k'))
  {
    RowMajorDistinct(cols, rows, k, k');
    var x, y, x', y' := k % cols, k / cols, k' % cols, k' / cols;
    if x < x' {
      SpreadOriginsApart(x, x', width, cols);
    } else if x' < x {
      SpreadOriginsApart(x', x, width, cols);
    } else if y < y' {
      SpreadOriginsApart(y, y', height, rows);
    } else {
      SpreadOriginsApart(y', y, height, rows);
    }
  }

  /** When C does not divide W, the image's last column of pixels is in no
      cell: the residual strip the fixed cell width leaves unsliced. */
  lemma SlicesLeaveStrip(width: nat, height: nat, cols: nat, rows: nat, k: nat, py: nat)
    requires k < cols * rows
    requires width % cols != 0
    ensures !Contains(SliceRect(width, height, cols, rows, k), width - 1, py)
  {
    RowMajorIndex(cols, rows, k);
    SpreadCellShort(k % cols, width, cols);
  }

  /** The u32 products x*width and y*height of lines 38-39 do not overflow. */
  predicate SliceFits(image: Image, grid: (nat, nat)) {
    image.width <= GridText.MaxU32 && image.height <= GridText.MaxU32 &&
    (grid.0 > 0 && grid.1 > 0 ==>
      (grid.0 - 1) * image.width <= GridText.MaxU32 && (grid.1 - 1) * image.height <= GridText.MaxU32)
  }

  /** `split_images`: the nested loops of lines 36-44 push the crop of cell
      (x, y) for each row y and, within it, each column x. */
  method SplitImages(image: Image, grid: (nat, nat)) returns (images: seq<Image>)
    requires SliceFits(image, grid)
    ensures images == Slices(image, grid)
  {
    ghost var all := Slices(image, grid);
    var width := image.width;
    var height := image.height;
    images := [];
    var y := 0;
    while y < grid.1
      invariant 0 <= y <= grid.1
      invariant |images| == y * grid.0 <= |all|
      invariant images == all[..|images|]
    {
      var x := 0;
      while x < grid.0
        invariant 0 <= x <= grid.0
        invariant |images| == y * grid.0 + x <= |all|
        invariant images == all[..|images|]
      {
        // no u32 product overflows
        assert x * width <= GridText.MaxU32 by { MulMono(x, grid.0 - 1, width); }
        assert y * height <= GridText.MaxU32 by { MulMono(y, grid.1 - 1, height); }
        var cx := x * width / grid.0;
        var cy := y * height / grid.1;
        var cell := Crop(image, CellRect(width, height, grid.0, grid.1, x, y));
        assert cell.width == width / grid.0 && CellRect(width, height, grid.0, grid.1, x, y).x == cx;
        PushedCell(image, grid, x, y);
        images := images + [cell];
        x := x + 1;
      }
      assert y * grid.0 + grid.0 == (y + 1) * grid.0;
      y := y + 1;
      if y < grid.1 {
        MulMono(y + 1, grid.1, grid.0);
      }
    }
  }

  /** The cell pushed for column x of row y is cell y*cols + x of the list. */
  lemma PushedCell(im: Image, grid: (nat, nat), x: nat, y: nat)
    requires x < grid.0 && y < grid.1
    ensures y * grid.0 + x < grid.0 * grid.1
    ensures Slices(im, grid)[y * grid.0 + x] == Crop(im, CellRect(im.width, im.height, grid.0, grid.1, x, y))
  {
    RowMajorPosition(grid.0, grid.1, x, y);
  }
}
