/** The driver `main` (src/main.rs:78-103) without its I/O: the grid and
    size texts are parsed, the input grid is checked against the output
    grid, the decoded input image comes in as a value (None when
    `image::open` fails), the output size defaults to the input's, and the
    slicer and compositor run. Saving the canvas is not modelled. */
module Driver {
  import opened Results
  import opened Imaging
  import opened GridText
  import opened Slicer
  import opened Compositor
  import Arith

  /** The texts of the `-g`, `-p` and `-v` arguments. */
  datatype Args = Args(spritesheetGrid: string, outputGrid: string, outputSize: Option<string>)

  datatype Arg = SpritesheetGrid | OutputGrid | OutputSize

  /** The fatal errors of `main`, in the order it can meet them. */
  datatype RunError =
    | BadArgument(arg: Arg, error: GridError)  // read_grid panics (lines 81-86)
    | OutputGridTooSmall                        // the assert! of lines 88-91
    | LoadFailed                                // image::open(...).unwrap() (line 93)
    | FillFailed(cause: FillError)              // fill_images divides by zero (line 101)

  /** The `output_size` of lines 83-86 before defaulting: (0, 0) when `-v` is absent. */
  function RequestedSize(size: Option<string>): (r: Result<(nat, nat), GridError>)
    ensures r.Success? ==> r.value.0 <= MaxU32 && r.value.1 <= MaxU32
  {
    match size
    case None => Success((0, 0))
    case Some(s) => ReadGrid(s)
  }

  /** The capacity check of lines 88-91: the output grid has at least as many
      cells. An output grid with room for a non-empty input grid has no zero
      component, so `fill_images` then does not divide by zero. */
  predicate HasRoom(input: (nat, nat), output: (nat, nat))
    ensures HasRoom(input, output) && input.0 > 0 && input.1 > 0 ==> output.0 > 0 && output.1 > 0
  {
    input.0 * input.1 <= output.0 * output.1
  }

  /** The canvas size of lines 94-96: the input image's size only when both
      requested components are 0. */
  function CanvasSize(requested: (nat, nat), image: Image): (c: (nat, nat))
    ensures c == requested || c == (image.width, image.height)
    ensures c == requested <==> requested != (0, 0) || requested == (image.width, image.height)
  {
    if requested.0 == 0 && requested.1 == 0 then (image.width, image.height) else requested
  }

  /** What `main` computes: the filled canvas, or the first fatal error. */
  function Convert(args: Args, decoded: Option<Image>, resize: Resizer): (r: Result<Image, RunError>)
    ensures decoded.None? ==> r.Failure?
  {
    match ReadGrid(args.spritesheetGrid)
    case Failure(e) => Failure(BadArgument(SpritesheetGrid, e))
    case Success(inputGrid) =>
      match ReadGrid(args.outputGrid)
      case Failure(e) => Failure(BadArgument(OutputGrid, e))
      case Success(outputGrid) =>
        match RequestedSize(args.outputSize)
        case Failure(e) => Failure(BadArgument(OutputSize, e))
        case Success(requested) => Transform(inputGrid, outputGrid, requested, decoded, resize)
  }

  /** The stages after parsing: validate, load, size the canvas, slice, fill. */
  function Transform(inputGrid: (nat, nat), outputGrid: (nat, nat), requested: (nat, nat),
                     decoded: Option<Image>, resize: Resizer): (r: Result<Image, RunError>)
    ensures !HasRoom(inputGrid, outputGrid) ==> r == Failure(OutputGridTooSmall)
    ensures r.Success? ==> HasRoom(inputGrid, outputGrid) && decoded.Some? && outputGrid.0 > 0 && outputGrid.1 > 0
    ensures r.Success? ==> (r.value.width, r.value.height) == CanvasSize(requested, decoded.value)
  {
    if !HasRoom(inputGrid, outputGrid) then Failure(OutputGridTooSmall)
    else
      match decoded
      case None => Failure(LoadFailed)
      case Some(image) =>
        var size := CanvasSize(requested, image);
        if outputGrid.0 == 0 || outputGrid.1 == 0 then Failure(FillFailed(DivisionByZero))
        else Success(Filled(Blank(size.0, size.1), Slices(image, inputGrid), outputGrid, resize))
  }

  /** The u32 products of `main` and `split_images` do not overflow on a run
      that gets as far as computing them. */
  predicate NoOverflow(args: Args, decoded: Option<Image>) {
    ReadGrid(args.spritesheetGrid).Success? && ReadGrid(args.outputGrid).Success? &&
    RequestedSize(args.outputSize).Success? ==>
      StagesFit(ReadGrid(args.spritesheetGrid).value, ReadGrid(args.outputGrid).value, decoded)
  }

  /** `main`: parse the three grid texts (lines 81-86), then run the stages. */
  method Run(args: Args, decoded: Option<Image>, resize: Resizer) returns (r: Result<Image, RunError>)
    requires NoOverflow(args, decoded)
    ensures r == Convert(args, decoded, resize)
  {
    var parsedInput := ReadGrid(args.spritesheetGrid);
    if parsedInput.Failure? {
      return Failure(BadArgument(SpritesheetGrid, parsedInput.error));
    }
    var inputGrid := parsedInput.value;
    var parsedOutput := ReadGrid(args.outputGrid);
    if parsedOutput.Failure? {
      return Failure(BadArgument(OutputGrid, parsedOutput.error));
    }
    var outputGrid := parsedOutput.value;
    var outputSize := (0, 0);
    if args.outputSize.Some? {
      var parsedSize := ReadGrid(args.outputSize.value);
      if parsedSize.Failure? {
        return Failure(BadArgument(OutputSize, parsedSize.error));
      }
      outputSize := parsedSize.value;
    }
    assert RequestedSize(args.outputSize) == Success(outputSize);
    r := TransformImage(inputGrid, outputGrid, outputSize, decoded, resize);
  }

  /** The u32 arithmetic of lines 88-101 on parsed grids does not overflow:
      the cell counts of line 89 always, the slicer's products only when the
      capacity check passes and the image is loaded. */
  predicate StagesFit(inputGrid: (nat, nat), outputGrid: (nat, nat), decoded: Option<Image>) {
    inputGrid.0 * inputGrid.1 <= MaxU32 && outputGrid.0 * outputGrid.1 <= MaxU32 &&
    (HasRoom(inputGrid, outputGrid) && decoded.Some? ==> SliceFits(decoded.value, inputGrid))
  }

  /** Lines 88-101 of `main`: check capacity, load, default the size, slice, fill. */
  method TransformImage(inputGrid: (nat, nat), outputGrid: (nat, nat), requested: (nat, nat),
                        decoded: Option<Image>, resize: Resizer) returns (r: Result<Image, RunError>)
    requires StagesFit(inputGrid, outputGrid, decoded)
    ensures r == Transform(inputGrid, outputGrid, requested, decoded, resize)
  {
    if !HasRoom(inputGrid, outputGrid) {
      return Failure(OutputGridTooSmall);
    }
    if decoded.None? {
      return Failure(LoadFailed);
    }
    var inputImage := decoded.value;
    var outputSize := requested;
    if outputSize.0 == 0 && outputSize.1 == 0 {
      outputSize := (inputImage.width, inputImage.height);
    }
    assert CanvasSize(requested, inputImage) == outputSize;
    var splitImage := SplitImages(inputImage, inputGrid);
    var outputImage := new Pixel[outputSize.0, outputSize.1]((i, j) => 0);
    SnapshotIs(outputImage, Blank(outputSize.0, outputSize.1));
    var filled := FillImages(outputImage, splitImage, outputGrid, resize);
    if filled.Fail? {
      return Failure(FillFailed(filled.error));
    }
    r := Success(Snapshot(outputImage));
  }

  /** The size text "0x0" asks for the same canvas as no `-v` at all: the
      run's outcome is the same either way. */
  lemma ZeroSizeIsNoSize(spritesheetGrid: string, outputGrid: string, decoded: Option<Image>, resize: Resizer)
    ensures ReadGrid("0x0") == Success((0, 0))
    ensures Convert(Args(spritesheetGrid, outputGrid, Some("0x0")), decoded, resize) ==
      Convert(Args(spritesheetGrid, outputGrid, None), decoded, resize)
  {
    ReadGridRoundTrip(0, 0, []);
    assert Decimal(0) + [Separator] + Decimal(0) + [] == "0x0";
  }

  /** The capacity check runs before the image is loaded: when it fails, the
      outcome is the same whether or not the image could be decoded. */
  lemma CapacityCheckedBeforeLoad(args: Args, image: Image, resize: Resizer)
    requires ReadGrid(args.spritesheetGrid).Success? && ReadGrid(args.outputGrid).Success?
    requires RequestedSize(args.outputSize).Success?
    requires !HasRoom(ReadGrid(args.spritesheetGrid).value, ReadGrid(args.outputGrid).value)
    ensures Convert(args, None, resize) == Failure(OutputGridTooSmall)
    ensures Convert(args, Some(image), resize) == Failure(OutputGridTooSmall)
  {
  }

  /** `main` completes exactly when the three grid texts parse, the output
      grid has room for every input cell, the image decodes and the output
      grid has no zero component. */
  lemma ConvertSucceeds(args: Args, decoded: Option<Image>, resize: Resizer)
    ensures Convert(args, decoded, resize).Success? <==>
      ReadGrid(args.spritesheetGrid).Success? && ReadGrid(args.outputGrid).Success? &&
      RequestedSize(args.outputSize).Success? && decoded.Some? &&
      HasRoom(ReadGrid(args.spritesheetGrid).value, ReadGrid(args.outputGrid).value) &&
      ReadGrid(args.outputGrid).value.0 > 0 && ReadGrid(args.outputGrid).value.1 > 0
  {
  }

  /** A successful run yields the input's cells placed on a blank canvas of
      the defaulted size. */
  lemma ConvertResult(args: Args, image: Image, resize: Resizer)
    requires Convert(args, Some(image), resize).Success?
    ensures ReadGrid(args.spritesheetGrid).Success? && ReadGrid(args.outputGrid).Success?
    ensures RequestedSize(args.outputSize).Success?
    ensures HasRoom(ReadGrid(args.spritesheetGrid).value, ReadGrid(args.outputGrid).value)
    ensures ReadGrid(args.outputGrid).value.0 > 0 && ReadGrid(args.outputGrid).value.1 > 0
    ensures var size := CanvasSize(RequestedSize(args.outputSize).value, image);
      Convert(args, Some(image), resize).value ==
        Filled(Blank(size.0, size.1), Slices(image, ReadGrid(args.spritesheetGrid).value), ReadGrid(args.outputGrid).value, resize)
  {
  }

  /** A successful run produces a canvas of the requested size, or of the
      input image's size when "0x0" or nothing was requested. */
  lemma OutputSizeDefault(args: Args, image: Image, resize: Resizer)
    requires Convert(args, Some(image), resize).Success?
    ensures RequestedSize(args.outputSize).Success?
    ensures var requested := RequestedSize(args.outputSize).value;
      var out := Convert(args, Some(image), resize).value;
      (requested == (0, 0) ==> out.width == image.width && out.height == image.height) &&
      (requested != (0, 0) ==> out.width == requested.0 && out.height == requested.1)
  {
  }

  /** With the capacity check passed, every input cell is placed: cell k of
      the input grid, resized to its destination's size, fills destination k
      of the canvas. */
  lemma EveryCellPlaced(args: Args, image: Image, resize: Resizer, k: nat, i: nat, j: nat)
    requires Convert(args, Some(image), resize).Success?
    ensures ReadGrid(args.spritesheetGrid).Success? && ReadGrid(args.outputGrid).Success?
    ensures var input := ReadGrid(args.spritesheetGrid).value;
      var output := ReadGrid(args.outputGrid).value;
      k < input.0 * input.1 ==>
        k < output.0 * output.1 &&
        CellPlaced(Convert(args, Some(image), resize).value, Slices(image, input), output, resize, k, i, j)
  {
    ConvertResult(args, image, resize);
    var input := ReadGrid(args.spritesheetGrid).value;
    var output := ReadGrid(args.outputGrid).value;
    var size := CanvasSize(RequestedSize(args.outputSize).value, image);
    var out := Convert(args, Some(image), resize).value;
    if k < input.0 * input.1 {
      CellPlacedOnBlank(out, image, input, output, size, resize, k, i, j);
    }
  }

  /** Offset (i, j) of destination k of `out` holds offset (i, j) of cell k
      resized to that destination's size. */
  predicate CellPlaced(out: Image, cells: seq<Image>, output: (nat, nat), resize: Resizer, k: nat, i: nat, j: nat)
    requires k < |cells| && k < output.0 * output.1
  {
    var d := DestRect(out.width, out.height, output.0, output.1, k);
    i < d.w && j < d.h ==>
      d.x + i < out.width && d.y + j < out.height &&
      At(out, d.x + i, d.y + j) == At(resize(cells[k], d.w, d.h), i, j)
  }

  /** EveryCellPlaced for the canvas `out` the run fills. */
  lemma CellPlacedOnBlank(out: Image, image: Image, input: (nat, nat), output: (nat, nat), size: (nat, nat),
                          resize: Resizer, k: nat, i: nat, j: nat)
    requires HasRoom(input, output) && output.0 > 0 && output.1 > 0
    requires out == Filled(Blank(size.0, size.1), Slices(image, input), output, resize)
    requires k < input.0 * input.1
    ensures k < output.0 * output.1 && k < |Slices(image, input)|
    ensures CellPlaced(out, Slices(image, input), output, resize, k, i, j)
  {
    FilledAllPlaced(Blank(size.0, size.1), Slices(image, input), output, resize, k, i, j);
  }

  /** Every canvas pixel outside the destinations of the input cells stays blank. */
  lemma UnplacedStayBlank(args: Args, image: Image, resize: Resizer, px: nat, py: nat)
    requires Convert(args, Some(image), resize).Success?
    ensures ReadGrid(args.spritesheetGrid).Success? && ReadGrid(args.outputGrid).Success?
    ensures var input := ReadGrid(args.spritesheetGrid).value;
      var output := ReadGrid(args.outputGrid).value;
      var out := Convert(args, Some(image), resize).value;
      output.0 > 0 && output.1 > 0 &&
      (px < out.width && py < out.height &&
       (forall k :: 0 <= k < input.0 * input.1 ==> !Contains(DestRect(out.width, out.height, output.0, output.1, k), px, py))
       ==> At(out, px, py) == 0)
  {
    ConvertResult(args, image, resize);
    var input := ReadGrid(args.spritesheetGrid).value;
    var output := ReadGrid(args.outputGrid).value;
    var requested := RequestedSize(args.outputSize).value;
    var size := CanvasSize(requested, image);
    var cells := Slices(image, input);
    var blank := Blank(size.0, size.1);
    if px < size.0 && py < size.1 &&
       (forall k :: 0 <= k < input.0 * input.1 ==> !Contains(DestRect(size.0, size.1, output.0, output.1, k), px, py)) {
      assert Placed(|cells|, output) == |cells|;
      FilledUnplaced(blank, cells, output, resize, px, py);
    }
  }

  /** A resampler that leaves an image alone when asked for its own size. */
  ghost predicate IdentityAtOwnSize(resize: Resizer) {
    forall im: Image :: resize(im, im.width, im.height) == im
  }

  /** One pixel of the same-grid re-tiling: offset (i, j) in the cell of
      column x, row y comes from the same place of the input. */
  lemma SameGridPixel(image: Image, grid: (nat, nat), resize: Resizer, x: nat, y: nat, i: nat, j: nat)
    requires grid.0 > 0 && grid.1 > 0
    requires image.width % grid.0 == 0 && image.height % grid.1 == 0
    requires IdentityAtOwnSize(resize)
    requires x < grid.0 && y < grid.1 && i < image.width / grid.0 && j < image.height / grid.1
    ensures x * (image.width / grid.0) + i < image.width && y * (image.height / grid.1) + j < image.height
    ensures var out := Filled(Blank(image.width, image.height), Slices(image, grid), grid, resize);
      At(out, x * (image.width / grid.0) + i, y * (image.height / grid.1) + j) ==
      At(image, x * (image.width / grid.0) + i, y * (image.height / grid.1) + j)
  {
    var tw, th := image.width / grid.0, image.height / grid.1;
    Arith.QuotientIsNat(image.width, grid.0);
    Arith.QuotientIsNat(image.height, grid.1);
    var k, px, py := y * grid.0 + x, x * tw + i, y * th + j;
    var cells := Slices(image, grid);
    SliceContentsExact(image, grid, tw, th, x, y, i, j, k, px, py);
    assert resize(cells[k], tw, th) == cells[k];
    FilledCell(Blank(image.width, image.height), cells, grid, resize, tw, th, x, y, i, j, k, px, py);
  }

  /** Re-tiling onto the same grid at the input's own size gives the input
      back, when the grid divides the image evenly and resizing to a cell's
      own size changes nothing. */
  lemma SameGridIsIdentity(image: Image, grid: (nat, nat), resize: Resizer)
    requires grid.0 > 0 && grid.1 > 0
    requires image.width % grid.0 == 0 && image.height % grid.1 == 0
    requires IdentityAtOwnSize(resize)
    ensures Filled(Blank(image.width, image.height), Slices(image, grid), grid, resize) == image
  {
    var out := Filled(Blank(image.width, image.height), Slices(image, grid), grid, resize);
    forall px, py | 0 <= px < image.width && 0 <= py < image.height
      ensures At(out, px, py) == At(image, px, py)
    {
      SameGridAt(image, grid, resize, px, py);
    }
    SameImage(out, image);
  }

  /** SameGridPixel at the cell and offset of canvas pixel (px, py). */
  lemma SameGridAt(image: Image, grid: (nat, nat), resize: Resizer, px: nat, py: nat)
    requires grid.0 > 0 && grid.1 > 0
    requires image.width % grid.0 == 0 && image.height % grid.1 == 0
    requires IdentityAtOwnSize(resize)
    requires px < image.width && py < image.height
    ensures At(Filled(Blank(image.width, image.height), Slices(image, grid), grid, resize), px, py) == At(image, px, py)
  {
    var tw, th := image.width / grid.0, image.height / grid.1;
    Arith.CellOfCoordinate(px, image.width, grid.0);
    Arith.CellOfCoordinate(py, image.height, grid.1);
    var x, y, i, j := px / tw, py / th, px % tw, py % th;
    assert x * tw + i == px && y * th + j == py;
    SameGridPixel(image, grid, resize, x, y, i, j);
  }
}
