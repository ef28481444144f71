/** The compositor `fill_images` (src/main.rs:49-75): each cell is resized to
    exactly tw-by-th, tw = canvas width / C and th = canvas height / R, and
    copied onto the canvas with its top-left corner at (col*tw, row*th), cells
    taken in row-major order until the list runs out. The canvas is a
    two-dimensional array indexed [x, y] and updated in place. */
module Compositor {
  import opened Arith
  import opened Imaging
  import opened Results
  import Slicer

  /** The one panic of `fill_images` that a caller can provoke. */
  datatype FillError = DivisionByZero  // a zero grid component at lines 50-51

  /** The pixels of the canvas as an image value. */
  function Snapshot(canvas: array2<Pixel>): (im: Image)
    reads canvas
    ensures im.width == canvas.Length0 && im.height == canvas.Length1
    ensures forall i, j :: 0 <= i < canvas.Length0 && 0 <= j < canvas.Length1 ==> At(im, i, j) == canvas[i, j]
  {
    Raster(canvas.Length0, canvas.Length1,
      seq(canvas.Length1, j requires 0 <= j < canvas.Length1 reads canvas =>
        seq(canvas.Length0, i requires 0 <= i < canvas.Length0 reads canvas => canvas[i, j])))
  }

  lemma SnapshotIs(canvas: array2<Pixel>, im: Image)
    requires im.width == canvas.Length0 && im.height == canvas.Length1
    requires forall i, j :: 0 <= i < canvas.Length0 && 0 <= j < canvas.Length1 ==> canvas[i, j] == At(im, i, j)
    ensures Snapshot(canvas) == im
  {
    SameImage(Snapshot(canvas), im);
  }

  /** `copy_from(other, x, y)`: refuses, changing nothing, when `other` placed
      at (x, y) would stick out of the canvas; otherwise overwrites exactly
      that rectangle with `other`'s pixels (no blending). */
  method CopyFrom(canvas: array2<Pixel>, other: Image, x: nat, y: nat) returns (ok: bool)
    modifies canvas
    ensures ok <==> x + other.width <= canvas.Length0 && y + other.height <= canvas.Length1
    ensures forall px, py :: 0 <= px < canvas.Length0 && 0 <= py < canvas.Length1 ==>
      canvas[px, py] == if ok && Contains(Rect(x, y, other.width, other.height), px, py)
                        then At(other, px - x, py - y) else old(canvas[px, py])
  {
    ok := x + other.width <= canvas.Length0 && y + other.height <= canvas.Length1;
    if ok {
      forall px, py | 0 <= px < canvas.Length0 && 0 <= py < canvas.Length1 &&
                      Contains(Rect(x, y, other.width, other.height), px, py) {
        canvas[px, py] := At(other, px - x, py - y);
      }
    }
  }

  /** Where the cell of column x, row y goes on a width-by-height canvas
      (lines 50-51, 57-58): tw-by-th at (x*tw, y*th). It lies within the
      canvas, so the `copy_from(...).unwrap()` of line 71 never fails. */
  function DestCell(width: nat, height: nat, cols: nat, rows: nat, x: nat, y: nat): (r: Rect)
    requires x < cols && y < rows
    ensures Inside(r, width, height)
  {
    var tw := width / cols;
    var th := height / rows;
    QuotientIsNat(width, cols);
    QuotientIsNat(height, rows);
    QuotientCopiesFit(x, width, cols);
    QuotientCopiesFit(y, height, rows);
    assert x * tw + tw <= width && y * th + th <= height;
    Rect(x * tw, y * th, tw, th)
  }

  /** Where cell k in row-major order goes. */
  function DestRect(width: nat, height: nat, cols: nat, rows: nat, k: nat): (r: Rect)
    requires k < cols * rows
    ensures Inside(r, width, height)
  {
    Slicer.RowMajorIndex(cols, rows, k);
    DestCell(width, height, cols, rows, k % cols, k / cols)
  }

  /** Destination rectangles of different cells never overlap. */
  lemma DestRectsDisjoint(width: nat, height: nat, cols: nat, rows: nat, k: nat, k': nat)
    requires k < cols * rows && k' < cols * rows && k != k'
    ensures Disjoint(DestRect(width, height, cols, rows, k), DestRect(width, height, cols, rows, k'))
  {
    Slicer.RowMajorDistinct(cols, rows, k, k');
    DestCellsDisjoint(width, height, cols, rows, k % cols, k / cols, k' % cols, k' / cols);
  }

  lemma DestCellsDisjoint(width: nat, height: nat, cols: nat, rows: nat, x: nat, y: nat, x': nat, y': nat)
    requires x < cols && y < rows && x' < cols && y' < rows && (x, y) != (x', y')
    ensures Disjoint(DestCell(width, height, cols, rows, x, y), DestCell(width, height, cols, rows, x', y'))
  {
    var tw, th := width / cols, height / rows;
    if x < x' {
      FixedIntervalsApart(x, x', tw);
    } else if x' < x {
      FixedIntervalsApart(x', x, tw);
    } else if y < y' {
      FixedIntervalsApart(y, y', th);
    } else {
      FixedIntervalsApart(y', y, th);
    }
  }

  /** How many cells `fill_images` places: all of them, or as many as the grid has room for. */
  function Placed(n: nat, grid: (nat, nat)): (p: nat)
    ensures p <= n && p <= grid.0 * grid.1
    ensures p == n || p == grid.0 * grid.1
  {
    Min(n, grid.0 * grid.1)
  }

  /** The inverse of DestRect: the index k of the cell whose destination
      holds canvas pixel (px, py), with the offset (i, j) of the pixel in it,
      or None for a pixel of the residual strip right of or below the grid. */
  function CellAt(width: nat, height: nat, cols: nat, rows: nat, px: nat, py: nat): (h: Option<(nat, nat, nat)>)
    requires cols > 0 && rows > 0
    ensures h.Some? ==> h.value.0 < cols * rows && h.value.1 < width / cols && h.value.2 < height / rows
  {
    var tw := width / cols;
    var th := height / rows;
    QuotientIsNat(width, cols);
    QuotientIsNat(height, rows);
    if tw == 0 || th == 0 then None
    else
      var x := px / tw;
      var y := py / th;
      QuotientIsNat(px, tw);
      QuotientIsNat(py, th);
      if x < cols && y < rows then
        Slicer.RowMajorPosition(cols, rows, x, y);
        Some((y * cols + x, px % tw, py % th))
      else None
  }

  /** CellAt and DestRect agree: a pixel is in the destination of cell k
      exactly when CellAt names k, and the offset is then its position
      relative to the destination's corner. */
  lemma CellAtDest(width: nat, height: nat, cols: nat, rows: nat, k: nat, px: nat, py: nat)
    requires k < cols * rows
    ensures cols > 0 && rows > 0
    ensures var d := DestRect(width, height, cols, rows, k);
      var h := CellAt(width, height, cols, rows, px, py);
      (Contains(d, px, py) <==> h.Some? && h.value.0 == k) &&
      (Contains(d, px, py) ==> h.value.1 == px - d.x && h.value.2 == py - d.y)
  {
    Slicer.RowMajorIndex(cols, rows, k);
    var tw := width / cols;
    var th := height / rows;
    if tw > 0 && th > 0 {
      RowMajorCell(tw, th, cols, rows, k, px, py);
      InIntervalIffQuotient(px, tw, k % cols);
      InIntervalIffQuotient(py, th, k / cols);
    }
  }

  /** The arithmetic of CellAtDest on the cell size tw-by-th alone. */
  lemma RowMajorCell(tw: nat, th: nat, cols: nat, rows: nat, k: nat, px: nat, py: nat)
    requires tw > 0 && th > 0 && k < cols * rows
    ensures cols > 0
    ensures (px / tw < cols && py / th < rows && py / th * cols + px / tw == k) <==>
      (px / tw == k % cols && py / th == k / cols)
    ensures (px / tw == k % cols && py / th == k / cols) <==>
      (k % cols * tw <= px < k % cols * tw + tw && k / cols * th <= py < k / cols * th + th)
  {
    QuotientIsNat(px, tw);
    QuotientIsNat(py, th);
    Slicer.RowMajorUnique(cols, rows, k, px / tw, py / th);
    QuotientIsNat(k, cols);
    InIntervalIffQuotient(px, tw, k % cols);
    InIntervalIffQuotient(py, th, k / cols);
  }

  /** The canvas pixel at (px, py) once the first n cells have been placed on
      a canvas that started as `init`: the pixel of the resized cell whose
      destination contains it, if that cell is among the first n, and the
      initial pixel otherwise. */
  function FilledPixel(init: Image, cells: seq<Image>, grid: (nat, nat), resize: Resizer,
                       n: nat, px: nat, py: nat): Pixel
    requires grid.0 > 0 && grid.1 > 0
    requires n <= |cells|
    requires px < init.width && py < init.height
  {
    QuotientIsNat(init.width, grid.0);
    QuotientIsNat(init.height, grid.1);
    match CellAt(init.width, init.height, grid.0, grid.1, px, py)
    case Some((k, i, j)) =>
      if k < n then At(resize(cells[k], init.width / grid.0, init.height / grid.1), i, j)
      else At(init, px, py)
    case None => At(init, px, py)
  }

  /** The canvas `fill_images` leaves behind. */
  function Filled(init: Image, cells: seq<Image>, grid: (nat, nat), resize: Resizer): (im: Image)
    requires grid.0 > 0 && grid.1 > 0
    ensures im.width == init.width && im.height == init.height
  {
    var n := Placed(|cells|, grid);
    Raster(init.width, init.height,
      seq(init.height, py requires 0 <= py < init.height =>
        seq(init.width, px requires 0 <= px < init.width =>
          FilledPixel(init, cells, grid, resize, n, px, py))))
  }

  /** A pixel of the filled canvas is the closed form at Placed(|cells|, grid). */
  lemma FilledAt(init: Image, cells: seq<Image>, grid: (nat, nat), resize: Resizer, px: nat, py: nat)
    requires grid.0 > 0 && grid.1 > 0
    requires px < init.width && py < init.height
    ensures At(Filled(init, cells, grid, resize), px, py) == FilledPixel(init, cells, grid, resize, Placed(|cells|, grid), px, py)
  {
  }

  /** Placing cell n changes exactly its destination rectangle, which then
      holds the resized cell. */
  lemma FilledPixelStep(init: Image, cells: seq<Image>, grid: (nat, nat), resize: Resizer,
                        n: nat, px: nat, py: nat)
    requires n < |cells| && n < grid.0 * grid.1
    requires px < init.width && py < init.height
    ensures grid.0 > 0 && grid.1 > 0
    ensures var d := DestRect(init.width, init.height, grid.0, grid.1, n);
      FilledPixel(init, cells, grid, resize, n + 1, px, py) ==
        if Contains(d, px, py) then At(resize(cells[n], d.w, d.h), px - d.x, py - d.y)
        else FilledPixel(init, cells, grid, resize, n, px, py)
  {
    CellAtDest(init.width, init.height, grid.0, grid.1, n, px, py);
  }

  lemma FilledPixelPlaced(init: Image, cells: seq<Image>, grid: (nat, nat), resize: Resizer,
                          n: nat, k: nat, i: nat, j: nat)
    requires k < n <= |cells| && n <= grid.0 * grid.1
    ensures grid.0 > 0 && grid.1 > 0
    ensures var d := DestRect(init.width, init.height, grid.0, grid.1, k);
      i < d.w && j < d.h ==>
        d.x + i < init.width && d.y + j < init.height &&
        FilledPixel(init, cells, grid, resize, n, d.x + i, d.y + j) == At(resize(cells[k], d.w, d.h), i, j)
  {
    var d := DestRect(init.width, init.height, grid.0, grid.1, k);
    CellAtDest(init.width, init.height, grid.0, grid.1, k, d.x + i, d.y + j);
  }

  lemma FilledPixelUnplaced(init: Image, cells: seq<Image>, grid: (nat, nat), resize: Resizer,
                            n: nat, px: nat, py: nat)
    requires grid.0 > 0 && grid.1 > 0
    requires n <= |cells| && n <= grid.0 * grid.1
    requires px < init.width && py < init.height
    requires forall k :: 0 <= k < n ==> !Contains(DestRect(init.width, init.height, grid.0, grid.1, k), px, py)
    ensures FilledPixel(init, cells, grid, resize, n, px, py) == At(init, px, py)
  {
    var h := CellAt(init.width, init.height, grid.0, grid.1, px, py);
    if h.Some? && h.value.0 < n {
      CellAtDest(init.width, init.height, grid.0, grid.1, h.value.0, px, py);
    }
  }

  /** After `fill_images`, the destination of every placed cell holds that
      cell resized to exactly tw-by-th, pixel for pixel. */
  lemma FilledPlaced(init: Image, cells: seq<Image>, grid: (nat, nat), resize: Resizer, k: nat, i: nat, j: nat)
    requires k < Placed(|cells|, grid)
    ensures grid.0 > 0 && grid.1 > 0
    ensures var d := DestRect(init.width, init.height, grid.0, grid.1, k);
      i < d.w && j < d.h ==>
        d.x + i < init.width && d.y + j < init.height &&
        At(Filled(init, cells, grid, resize), d.x + i, d.y + j) == At(resize(cells[k], d.w, d.h), i, j)
  {
    Slicer.RowMajorIndex(grid.0, grid.1, k);
    FilledPixelPlaced(init, cells, grid, resize, Placed(|cells|, grid), k, i, j);
  }

  /** When the grid has room for every cell, every cell is placed. */
  lemma FilledAllPlaced(init: Image, cells: seq<Image>, grid: (nat, nat), resize: Resizer, k: nat, i: nat, j: nat)
    requires |cells| <= grid.0 * grid.1 && k < |cells|
    ensures k < grid.0 * grid.1 && grid.0 > 0 && grid.1 > 0
    ensures var d := DestRect(init.width, init.height, grid.0, grid.1, k);
      i < d.w && j < d.h ==>
        d.x + i < init.width && d.y + j < init.height &&
        At(Filled(init, cells, grid, resize), d.x + i, d.y + j) == At(resize(cells[k], d.w, d.h), i, j)
  {
    FilledPlaced(init, cells, grid, resize, k, i, j);
  }

  /** FilledPlaced for the cell of column x, row y. */
  lemma FilledCell(init: Image, cells: seq<Image>, grid: (nat, nat), resize: Resizer,
                   tw: nat, th: nat, x: nat, y: nat, i: nat, j: nat, k: nat, px: nat, py: nat)
    requires x < grid.0 && y < grid.1 && k == y * grid.0 + x && k < Placed(|cells|, grid)
    requires tw == init.width / grid.0 && th == init.height / grid.1
    requires i < tw && j < th && px == x * tw + i && py == y * th + j
    ensures px < init.width && py < init.height
    ensures At(Filled(init, cells, grid, resize), px, py) == At(resize(cells[k], tw, th), i, j)
  {
    Slicer.RowMajorPosition(grid.0, grid.1, x, y);
    FilledPlaced(init, cells, grid, resize, k, i, j);
  }

  /** After `fill_images`, a pixel in no placed cell's destination still has
      the canvas's initial value. */
  lemma FilledUnplaced(init: Image, cells: seq<Image>, grid: (nat, nat), resize: Resizer, px: nat, py: nat)
    requires grid.0 > 0 && grid.1 > 0
    requires px < init.width && py < init.height
    requires forall k :: 0 <= k < Placed(|cells|, grid) ==>
      !Contains(DestRect(init.width, init.height, grid.0, grid.1, k), px, py)
    ensures At(Filled(init, cells, grid, resize), px, py) == At(init, px, py)
  {
    FilledPixelUnplaced(init, cells, grid, resize, Placed(|cells|, grid), px, py);
  }

  /** One pass of the inner loop (lines 65-72): resize cell y*C + x to
      tw-by-th and copy it to (x*tw, y*th). On a canvas holding the first
      y*C + x cells it leaves the first y*C + x + 1. */
  method PlaceCell(canvas: array2<Pixel>, ghost init: Image, images: seq<Image>, grid: (nat, nat),
                   resize: Resizer, thumbWidth: nat, thumbHeight: nat, x: nat, y: nat)
    modifies canvas
    requires grid.0 > 0 && grid.1 > 0
    requires thumbWidth == canvas.Length0 / grid.0 && thumbHeight == canvas.Length1 / grid.1
    requires x < grid.0 && y < grid.1 && y * grid.0 + x < |images|
    requires init.width == canvas.Length0 && init.height == canvas.Length1
    requires forall px, py :: 0 <= px < canvas.Length0 && 0 <= py < canvas.Length1 ==>
      canvas[px, py] == FilledPixel(init, images, grid, resize, y * grid.0 + x, px, py)
    ensures forall px, py :: 0 <= px < canvas.Length0 && 0 <= py < canvas.Length1 ==>
      canvas[px, py] == FilledPixel(init, images, grid, resize, y * grid.0 + x + 1, px, py)
  {
    var index := y * grid.0 + x;
    Slicer.RowMajorPosition(grid.0, grid.1, x, y);
    var ox := x * thumbWidth;
    var oy := y * thumbHeight;
    ghost var d := DestRect(canvas.Length0, canvas.Length1, grid.0, grid.1, index);
    assert d == Rect(ox, oy, thumbWidth, thumbHeight);
    var resized := resize(images[index], thumbWidth, thumbHeight);
    label before:
    var ok := CopyFrom(canvas, resized, ox, oy);
    assert ok;  // the unwrap() of line 71 never fails
    forall px, py | 0 <= px < canvas.Length0 && 0 <= py < canvas.Length1
      ensures canvas[px, py] == FilledPixel(init, images, grid, resize, index + 1, px, py)
    {
      assert old@before(canvas[px, py]) == FilledPixel(init, images, grid, resize, index, px, py);
      FilledPixelStep(init, images, grid, resize, index, px, py);
    }
  }

  /** `fill_images`. The `break` of line 62 only leaves the inner loop; later
      rows break again at once because `index` no longer advances, so exactly
      Placed(|images|, grid) cells are copied. */
  method FillImages(canvas: array2<Pixel>, images: seq<Image>, grid: (nat, nat), resize: Resizer)
    returns (r: Outcome<FillError>)
    modifies canvas
    ensures grid.0 == 0 || grid.1 == 0 ==> r == Fail(DivisionByZero) && unchanged(canvas)
    ensures grid.0 > 0 && grid.1 > 0 ==>
      r == Pass && Snapshot(canvas) == Filled(old(Snapshot(canvas)), images, grid, resize)
  {
    if grid.0 == 0 || grid.1 == 0 {
      // the divisions of lines 50-51 panic before anything is drawn
      return Fail(DivisionByZero);
    }
    var thumbWidth := canvas.Length0 / grid.0;
    var thumbHeight := canvas.Length1 / grid.1;
    QuotientIsNat(canvas.Length0, grid.0);
    QuotientIsNat(canvas.Length1, grid.1);
    ghost var init := Snapshot(canvas);
    var index := 0;
    forall px, py | 0 <= px < canvas.Length0 && 0 <= py < canvas.Length1
      ensures canvas[px, py] == FilledPixel(init, images, grid, resize, index, px, py)
    {
      FilledPixelUnplaced(init, images, grid, resize, index, px, py);
    }
    var y := 0;
    while y < grid.1
      invariant 0 <= y <= grid.1
      invariant y * grid.0 <= grid.0 * grid.1
      invariant index == Min(|images|, y * grid.0)
      invariant forall px, py :: 0 <= px < canvas.Length0 && 0 <= py < canvas.Length1 ==>
        canvas[px, py] == FilledPixel(init, images, grid, resize, index, px, py)
    {
      var x := 0;
      while x < grid.0
        invariant 0 <= x <= grid.0
        invariant index == Min(|images|, y * grid.0 + x)
        invariant forall px, py :: 0 <= px < canvas.Length0 && 0 <= py < canvas.Length1 ==>
          canvas[px, py] == FilledPixel(init, images, grid, resize, index, px, py)
      {
        if index >= |images| {
          break;
        }
        Slicer.RowMajorPosition(grid.0, grid.1, x, y);
        PlaceCell(canvas, init, images, grid, resize, thumbWidth, thumbHeight, x, y);
        index := index + 1;
        x := x + 1;
      }
      assert y * grid.0 + grid.0 == (y + 1) * grid.0;
      MulMono(y + 1, grid.1, grid.0);
      y := y + 1;
    }
    assert index == Placed(|images|, grid);
    forall px, py | 0 <= px < canvas.Length0 && 0 <= py < canvas.Length1
      ensures canvas[px, py] == At(Filled(init, images, grid, resize), px, py)
    {
      FilledAt(init, images, grid, resize, px, py);
    }
    SnapshotIs(canvas, Filled(init, images, grid, resize));
    r := Pass;
  }
}
