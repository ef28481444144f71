/** Concrete runs of `main` on small inputs: re-tiling onto the same grid,
    spreading one cell over a wider canvas, and refusing a grid that is too
    small before the image is looked at. */
module Scenarios {
  import opened Results
  import opened Imaging
  import opened GridText
  import opened Slicer
  import opened Compositor
  import opened Driver

  /** "9x9"-style texts of small numbers read back as their pair. */
  lemma ReadSmallGrid(a: nat, b: nat)
    requires a < 10 && b < 10
    ensures ReadGrid([DigitChar(a), Separator, DigitChar(b)]) == Success((a, b))
  {
    ReadGridRoundTrip(a, b, []);
    assert Decimal(a) + [Separator] + Decimal(b) + [] == [DigitChar(a), Separator, DigitChar(b)];
  }

  /** A 3-by-3 input grid does not fit a 2-by-2 output grid: the run stops
      with "Output grid is too small" whatever the size text and whether or
      not the image decodes. */
  lemma TooSmallGridRefused(size: Option<string>, decoded: Option<Image>, resize: Resizer)
    requires RequestedSize(size).Success?
    ensures Convert(Args("3x3", "2x2", size), decoded, resize) == Failure(OutputGridTooSmall)
  {
    ReadSmallGrid(3, 3);
    ReadSmallGrid(2, 2);
    assert [DigitChar(3), Separator, DigitChar(3)] == "3x3";
    assert [DigitChar(2), Separator, DigitChar(2)] == "2x2";
  }

  /** A 64-by-64 image re-tiled from "2x2" onto "2x2" with no size given
      comes back unchanged when resizing to a cell's own size is the identity. */
  lemma SameGridRoundTrip(image: Image, resize: Resizer)
    requires image.width == 64 && image.height == 64
    requires IdentityAtOwnSize(resize)
    ensures Convert(Args("2x2", "2x2", None), Some(image), resize) == Success(image)
  {
    ReadSmallGrid(2, 2);
    assert [DigitChar(2), Separator, DigitChar(2)] == "2x2";
    SameGridIsIdentity(image, (2, 2), resize);
  }

  /** A 32-by-32 image as one cell ("1x1") onto a "4x1" grid of a 128-by-32
      canvas: the first 32-by-32 block holds the image resized to 32-by-32 and
      the other three blocks stay blank. */
  lemma OneCellOnWideCanvas(image: Image, resize: Resizer, px: nat, py: nat)
    requires image.width == 32 && image.height == 32
    requires px < 128 && py < 32
    ensures var out := Convert(Args("1x1", "4x1", Some("128x32")), Some(image), resize);
      out.Success? && out.value.width == 128 && out.value.height == 32 &&
      At(out.value, px, py) == if px < 32 then At(resize(image, 32, 32), px, py) else 0
  {
    WideConvert(image, resize);
    WideCanvasPixel(image, resize, px, py);
  }

  /** The run of OneCellOnWideCanvas fills a blank 128-by-32 canvas with the image alone. */
  lemma WideConvert(image: Image, resize: Resizer)
    ensures Convert(Args("1x1", "4x1", Some("128x32")), Some(image), resize) ==
      Success(Filled(Blank(128, 32), [image], (4, 1), resize))
  {
    ReadSmallGrid(1, 1);
    assert [DigitChar(1), Separator, DigitChar(1)] == "1x1";
    ReadSmallGrid(4, 1);
    assert [DigitChar(4), Separator, DigitChar(1)] == "4x1";
    ReadWideSize();
    assert Convert(Args("1x1", "4x1", Some("128x32")), Some(image), resize) ==
      Transform((1, 1), (4, 1), (128, 32), Some(image), resize);
    WideTransform(image, resize);
  }

  /** The stages after parsing of OneCellOnWideCanvas. */
  lemma WideTransform(image: Image, resize: Resizer)
    ensures Transform((1, 1), (4, 1), (128, 32), Some(image), resize) ==
      Success(Filled(Blank(128, 32), [image], (4, 1), resize))
  {
    WholeImageCell(image);
    assert Slices(image, (1, 1)) == [image];
  }

  /** The size text "128x32" reads as the pair (128, 32). */
  lemma ReadWideSize()
    ensures ReadGrid("128x32") == Success((128, 32))
  {
    Numeral128();
    Numeral32();
    DigitsFree("128");
    DigitsFree("32");
    ParseNumeral("128", 128);
    ParseNumeral("32", 32);
    ReadGridOfFields("128", "32", []);
    assert "128" + [Separator] + "32" + [] == "128x32";
  }

  lemma Numeral128()
    ensures AllDigits("128") && DecimalValue("128") == 128
  {
    NumeralSnoc("", '1');
    assert "" + ['1'] == "1";
    NumeralSnoc("1", '2');
    assert "1" + ['2'] == "12";
    NumeralSnoc("12", '8');
    assert "12" + ['8'] == "128";
  }

  lemma Numeral32()
    ensures AllDigits("32") && DecimalValue("32") == 32
  {
    NumeralSnoc("", '3');
    assert "" + ['3'] == "3";
    NumeralSnoc("3", '2');
    assert "3" + ['2'] == "32";
  }

  /** Appending a digit multiplies the value by ten and adds the digit. */
  lemma NumeralSnoc(s: string, c: char)
    requires AllDigits(s) && IsDigit(c)
    ensures AllDigits(s + [c]) && DecimalValue(s + [c]) == DecimalValue(s) * 10 + DigitValue(c)
  {
    assert (s + [c])[..|s|] == s;
  }

  /** A numeral of digits only and at most 2^32 - 1 parses as its value. */
  lemma ParseNumeral(f: string, n: nat)
    requires |f| > 0 && AllDigits(f) && DecimalValue(f) == n <= MaxU32
    ensures ParseU32(f) == Some(n)
  {
  }

  /** The pixel (px, py) of the 4-by-1 grid filled with the image alone. */
  lemma WideCanvasPixel(image: Image, resize: Resizer, px: nat, py: nat)
    requires px < 128 && py < 32
    ensures var out := Filled(Blank(128, 32), [image], (4, 1), resize);
      At(out, px, py) == if px < 32 then At(resize(image, 32, 32), px, py) else 0
  {
    var blank := Blank(128, 32);
    FilledAt(blank, [image], (4, 1), resize, px, py);
    assert Placed(1, (4, 1)) == 1;
    assert py / 32 == 0 && py % 32 == py;
    if px < 32 {
      assert px / 32 == 0 && px % 32 == px;
      assert CellAt(128, 32, 4, 1, px, py) == Some((0, px, py));
    } else {
      assert px / 32 >= 1;
    }
  }

  /** Slicing with grid "1x1" yields the image itself as the only cell. */
  lemma WholeImageCell(image: Image)
    ensures |Slices(image, (1, 1))| == 1 && Slices(image, (1, 1))[0] == image
  {
    var r := SliceRect(image.width, image.height, 1, 1, 0);
    assert r == Rect(0, 0, image.width, image.height) by {
      assert CellRect(image.width, image.height, 1, 1, 0, 0) == Rect(0, 0, image.width, image.height);
    }
    var cell := Slices(image, (1, 1))[0];
    assert cell == Crop(image, r);
    SameImage(cell, image);
  }
}
