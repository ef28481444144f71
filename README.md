# flipbook-converter-rs in Dafny

A model of `flipbook-converter-rs`, a command-line re-tiler for sprite
sheets. The program takes an image laid out as a grid of `C x R` cells,
written `"<C>x<R>"`. It cuts the image into its cells, row by row. It then
resizes every cell to the cell size of a second grid and pastes the cells,
in the same order, onto a new canvas. The canvas has an optional explicit
size and otherwise the size of the input image.

The whole program is `src/main.rs`. The model follows its four pieces, one
module each:

- `GridText` models `read_grid`. This is the descriptor parser, and it is pure.
  - `str::split` on `'x'` is `Split`, with its inverse `Join`.
  - Rust's `u32::from_str` is `ParseU32`: an optional `+`, at least one ASCII digit, and a value below 2^32.
  - The panics are the cases of `GridError`.
- `Slicer` models `split_images`.
  - It is a method with the source's two nested loops pushing onto a sequence.
  - It is proved equal to the function `Slices`, which gives cell `k` as the crop of `SliceRect(k)`.
- `Compositor` models `fill_images`.
  - It is a method over an `array2` canvas updated in place through `CopyFrom`, the model of `copy_from`.
  - It is proved to leave the canvas equal to the closed form `Filled`.
  - `Filled` is defined through `CellAt`, the inverse of the destination layout `DestRect`.
- `Driver` models `main` without its I/O.
  - `Run` is the imperative driver. It is proved equal to the function `Convert`, the whole run as a value.
  - The lemmas about `Convert` state what a user of the command sees.
- `Imaging` holds images as values, rectangles, `crop_imm`, a blank canvas, and `resize_exact` as the parameter type `Resizer`.
- `Arith` holds the floor-division facts the geometry rests on.
- `Results` holds `Option`, `Result` and `Outcome`.
- `Scenarios` states the outcome of three concrete runs on literal arguments: the same-grid round trip, one cell on a wide canvas, and a grid that is too small.

### Behaviour worth knowing

- **Extra fields are ignored.** `read_grid` takes the first two `'x'`-separated fields and ignores any further ones, so `"2x3x9"` reads as `(2, 3)`.
- **Zero is a valid grid component.** `read_grid` accepts `0`.
  - A zero component in the input grid gives no cells: the loops of `split_images` do not run.
  - A zero component in the output grid makes `fill_images` divide by zero at lines 50-51. That is `FillFailed(DivisionByZero)`, raised after the image was loaded.
- **Cells never get narrower at the edge.** Every cell is exactly `W/C` by `H/R`. The residual strip past the last cell is not part of any cell (`Slicer.SlicesLeaveStrip`).
- **An explicit "0x0" size also means the input's size.** The default applies whenever both requested components are zero, not only when `-v` is absent (`Driver.ZeroSizeIsNoSize`).

## Model

| member | source | states |
|---|---|---|
| GridText.ReadGridOfFields | src/main.rs:23-28 | for two separator-free fields and a rest that is empty or starts with `'x'`, the result depends only on the two fields: the first is parsed before the second, and any rest is ignored |
| GridText.ReadGridOneField | src/main.rs:24-26 | a text with no `'x'` always fails: on its only field when that is not a u32, otherwise for lack of a second field |
| GridText.ReadGridRoundTrip | src/main.rs:23-28 | printing two u32 values as `"<a>x<b>"`, with or without further fields, and reading the text back gives `(a, b)` |
| GridText.ReadGridOverflow | src/main.rs:25 | a first number of 2^32 or more is refused as an invalid first field before the second field is looked at |
| GridText.ReadGrid | src/main.rs:23-28 | both components of a successful parse fit in a u32 |
| GridText.ParseDecimal | src/main.rs:25-26 | the u32 parser reads back the decimal numeral of every u32, with or without a leading `+` |
| GridText.ParseRejects | src/main.rs:25-26 | the u32 parser refuses the empty field, a bare `+`, a second sign or a minus, and any other non-digit |
| GridText.ParseRejectsOverflow | src/main.rs:25-26 | the u32 parser refuses every number of 2^32 or more |
| GridText.ParseU32 | src/main.rs:25-26 | a value the u32 parser accepts is at most 2^32 - 1 |
| GridText.ReadGridBadFirst | src/main.rs:24-25 | a first field that is not a u32 is reported as an invalid first field, whether or not an `'x'` and more fields follow |
| GridText.Decimal | src/main.rs:25-26 | the numeral printed for `n` is a non-empty digit string whose value is `n` |
| GridText.Split | src/main.rs:24 | splitting always yields at least one field, so the first `next()` at line 25 never fails |
| GridText.SplitCount | src/main.rs:24 | the split yields one more field than the text has `'x'` characters |
| GridText.JoinSplit | src/main.rs:24 | splitting on `'x'` loses nothing: the fields joined with `'x'` give the text back |
| GridText.SplitJoin | src/main.rs:24 | splitting undoes joining when no field contains the separator |
| GridText.SplitFieldsFree | src/main.rs:24 | no field produced by the split contains the separator |
| Imaging.Blank | src/main.rs:99 | the new canvas has the requested width and height, and every pixel is 0 |
| Imaging.Crop | src/main.rs:41 | the crop of a rectangle inside the image has the rectangle's size, and its pixel (i, j) is the image's pixel at the rectangle's origin plus (i, j) |
| Slicer.CellRect | src/main.rs:38-41 | the crop rectangle of every cell lies inside the image, so the crop is never clipped |
| Slicer.SliceRect | src/main.rs:36-41 | the crop rectangle of cell k in row-major order lies inside the image |
| Slicer.RowMajorIndex | src/main.rs:36-37 | cell k < C*R is column k % C of row k / C, with both in range |
| Slicer.RowMajorUnique | src/main.rs:36-37 | column x, row y is cell k exactly when x = k % C and y = k / C |
| Slicer.Slices | src/main.rs:30-47 | the slicer returns exactly C*R cells, none for a grid with a zero component |
| Slicer.SplitImages | src/main.rs:30-47 | the nested loops return exactly the cell list `Slices`, given that no u32 product overflows |
| Slicer.PushedCell | src/main.rs:36-42 | the crop pushed for column x of row y is cell y*C + x of the list |
| Slicer.SliceContents | src/main.rs:36-44 | cell k is W/C by H/R, and its pixel (i, j) is the image's pixel at (x*W/C + i, y*H/R + j), where x = k % C and y = k / C |
| Slicer.SliceContentsExact | src/main.rs:36-44 | when C divides W and R divides H, cell k = y*C + x is tw = W/C by th = H/R, and its pixel (i, j) is the image's pixel at (x*tw + i, y*th + j) |
| Slicer.SliceRectsDisjoint | src/main.rs:38-41 | the crops of two different cells share no pixel |
| Slicer.SlicesLeaveStrip | src/main.rs:38-41 | when C does not divide W, the image's last pixel column lies in no cell |
| Compositor.CopyFrom | src/main.rs:71 | `copy_from` succeeds exactly when the source fits at (x, y). It then overwrites exactly that rectangle with the source's pixels. Otherwise it changes nothing |
| Compositor.DestCell | src/main.rs:50-58 | the destination tw by th at (x*tw, y*th) lies inside the canvas, so the `unwrap` at line 71 never fails |
| Compositor.DestRect | src/main.rs:55-58 | the destination of cell k in row-major order lies inside the canvas |
| Compositor.DestRectsDisjoint | src/main.rs:55-58 | the destinations of two different cells share no pixel |
| Compositor.CellAt | src/main.rs:50-58 | the cell found for a canvas pixel is one of the grid's C*R cells, and the offset found lies within a tw by th cell |
| Compositor.CellAtDest | src/main.rs:50-58 | a pixel lies in the destination of cell k exactly when `CellAt` finds k, and the offset is then relative to the destination corner |
| Compositor.Placed | src/main.rs:60-63 | the number of cells placed is at most the number of cells and at most C*R, and equals one of the two |
| Compositor.FilledPixelStep | src/main.rs:65-72 | placing cell n changes exactly its destination, which then holds the resized cell |
| Compositor.PlaceCell | src/main.rs:57-72 | one pass of the inner loop turns a canvas holding the first y*C + x cells into one holding the first y*C + x + 1 |
| Compositor.Filled | src/main.rs:49-75 | the filled canvas keeps the width and height of the canvas it started from |
| Compositor.FillImages | src/main.rs:49-75 | with a zero grid component the result is a division by zero and nothing is drawn. Otherwise the canvas becomes `Filled` of the old canvas, with min(number of cells, C*R) cells placed despite the `break` leaving only the inner loop |
| Compositor.FilledPlaced | src/main.rs:60-72 | after filling, the destination of every placed cell holds that cell resized to exactly tw by th, pixel for pixel, with no blending |
| Compositor.FilledAllPlaced | src/main.rs:60-72 | when the grid has room for every cell, every cell's destination holds it resized |
| Compositor.FilledCell | src/main.rs:57-72 | the filled canvas at (x*tw + i, y*th + j) is pixel (i, j) of cell k = y*C + x resized to tw by th, for a placed cell k |
| Compositor.FilledUnplaced | src/main.rs:60-63 | after filling, a pixel outside every placed cell's destination keeps its initial value |
| Driver.RequestedSize | src/main.rs:83-86 | both components of a successfully read size fit in a u32 |
| Driver.HasRoom | src/main.rs:88-91 | an output grid with room for a non-empty input grid has no zero component |
| Driver.CanvasSize | src/main.rs:94-96 | the canvas is either the requested size or the image's size; it is the requested size exactly when that is not (0, 0) or happens to equal the image's size |
| Driver.Convert | src/main.rs:81-101 | a run whose image could not be decoded always fails |
| Driver.Transform | src/main.rs:88-101 | an output grid with fewer cells fails with "Output grid is too small"; a successful run passed the capacity check, had an image and an output grid with no zero component, and its canvas has the size `CanvasSize` gives |
| Driver.Run | src/main.rs:81-86 | `main` parses the three texts in order, each failure fatal, and then behaves as `Convert` |
| Driver.TransformImage | src/main.rs:88-101 | the capacity check, the load, the size default, the slicer and the compositor together compute `Transform` |
| Driver.CapacityCheckedBeforeLoad | src/main.rs:88-93 | when the output grid has fewer cells than the input grid, the run fails with "Output grid is too small" whether or not the image can be decoded |
| Driver.ConvertSucceeds | src/main.rs:81-101 | a run completes exactly when the three texts parse, the output grid has room for every input cell, the image decodes and the output grid has no zero component |
| Driver.ZeroSizeIsNoSize | src/main.rs:83-96 | the size text `"0x0"` reads as (0, 0), and a run given `-v 0x0` has the same outcome as one without `-v` |
| Driver.OutputSizeDefault | src/main.rs:94-96 | the output is the input's size when (0, 0) or nothing was requested, and the requested size otherwise |
| Driver.EveryCellPlaced | src/main.rs:88-101 | in a successful run every input cell k has a destination k on the output grid, and pixel (i, j) of that destination is pixel (i, j) of cell k resized to the destination's size (`CellPlaced`) |
| Driver.UnplacedStayBlank | src/main.rs:99-101 | every output pixel outside the destinations of the input cells is blank |
| Driver.SameGridIsIdentity | src/main.rs:98-101 | re-tiling onto the same evenly dividing grid at the input's own size gives the input back, when resizing to a cell's own size is the identity |
| Driver.SameGridAt | src/main.rs:98-101 | each pixel of that re-tiling equals the input's pixel at the same place |
| Scenarios.TooSmallGridRefused | src/main.rs:88-91 | `"3x3"` onto `"2x2"` fails with "Output grid is too small" for every valid size text and every decode outcome |
| Scenarios.SameGridRoundTrip | src/main.rs:81-101 | a 64 by 64 image re-tiled from `"2x2"` onto `"2x2"` with no size comes back unchanged, when resizing to a cell's own size is the identity |
| Scenarios.OneCellOnWideCanvas | src/main.rs:81-101 | a 32 by 32 image as grid `"1x1"` onto `"4x1"` at `"128x32"` gives a 128 by 32 output. Its first 32 by 32 block is the image resized to 32 by 32, and the other three blocks are blank |
| Scenarios.WholeImageCell | src/main.rs:36-42 | slicing with grid 1x1 yields the image itself as the only cell |
| Scenarios.ReadWideSize | src/main.rs:84 | the size text `"128x32"` reads as (128, 32) |

## Left out

- Loading the image, `image::open` at line 93, is not modelled. The decoded image is a parameter: `None` stands for a missing or undecodable file.
- Saving the canvas, `save` at line 102, is not modelled. `Convert` ends at the filled canvas.
- The colour model (`color()` at line 99) is not modelled. A pixel is a natural number, and a new canvas is all zeros, as `DynamicImage::new` fills it.
- The Gaussian filter of `resize_exact` is left unspecified. It is floating-point resampling inside the image library, so the model takes any function from the type `Resizer`, which only promises the exact output size. Resizing to zero width or height is covered by that type in the same way.
- The clipping of `crop_imm` is not modelled. The model's `Crop` asks for a rectangle inside the image, and `CellRect` proves that the program never crops anything else.
- Argument parsing with `clap` (lines 7-21, 79) and the `tokio` runtime (line 77) are left out. The parsed argument texts arrive as `Args`; the paths are left out with the I/O.
- Running out of memory for the canvas in `DynamicImage::new` is not modelled.
- Slicer.SplitImages: the u32 wrap-around of `x * width` and `y * height` at lines 38-39 is ruled out by the precondition `SliceFits` rather than modelled.
- Driver.Run: the u32 wrap-around of the cell counts at line 89 and of the slicer's products is ruled out by the precondition `NoOverflow` rather than modelled. `NoOverflow` asks for it only on runs whose three grid texts all parse, since the other runs stop before line 88.
- Driver.TransformImage: the same u32 products are ruled out by the precondition `StagesFit` rather than modelled. It always asks for the cell counts of line 89 to fit, but for the slicer's products only when the capacity check passes and the image is loaded, since otherwise the slicer never runs.
- Compositor.PlaceCell: the destination origin of lines 57-58 is computed after the exhausted-list check of lines 60-63 rather than before. Nothing is read from it on the path that breaks, so the outcome is the same.
- The panic messages and the process exit status are not modelled. Each fatal error is a case of `GridError`, `RunError` or `FillError`.
