/** The tile walkers of the renderer: `ascifyWithBitmaps`, `ascifyAsMAT`,
    `ascifyMatParts` and `ascifyWithoutScallingSlowAndDrawsTextPerPixel`.
    Each one walks a grid of sample anchors, takes the luminance of the one
    pixel at the anchor, looks its glyph up in a ramp and draws the glyph at
    the anchor.

    A frame is a 2-D array of pixels indexed [row, column]; a canvas is a
    2-D array of cells indexed the same way, recording which glyph was drawn
    at which anchor (the strokes of the glyph are not modelled).  OpenCV's
    `Mat.get(x, y)` reads row x, column y, and `new Point(y, x)` names
    column y, row x: both denote the same cell, so every glyph lands on the
    cell it was sampled from. */
module Tiles {
  import opened Ramp
  import opened Pixels
  import opened Grid

  /** A canvas cell: the black (or transparent) background, or the glyph
      drawn with its anchor at this cell. */
  datatype Cell = Blank | Drawn(glyph: string)

  /** The glyph for the pixel at row `r`, column `c` of `image`. */
  function GlyphAt(image: array2<Pixel>, r: int, c: int, blackWhite: bool): (s: string)
    reads image
    requires 0 <= r < image.Length0 && 0 <= c < image.Length1
  {
    GetAsciiFromGreyScale(Luminance(image[r, c]), blackWhite)
  }

  // ---------------------------------------------------------------------
  // ascifyWithBitmaps: whole tiles only

  /** The anchors `ascifyWithBitmaps` visits in a frame of `rows` by `cols`
      pixels: (y * size, x * size) for y < rows / size and x < cols / size,
      i.e. the aligned cells whose whole tile fits into the frame. */
  predicate BitmapAnchor(rows: int, cols: int, size: int, r: int, c: int)
    requires size > 0
  {
    0 <= r && r + size <= rows && Aligned(r, size) &&
    0 <= c && c + size <= cols && Aligned(c, size)
  }

  /** `ascifyWithBitmaps(image, width, height, size, blackWhite)`: a fresh
      canvas of `height` rows and `width` columns that holds, at every
      anchor of a whole tile, the glyph of the anchor pixel, and nothing
      elsewhere; partial tiles at the right and bottom borders are skipped
      and glyphs anchored outside the canvas are clipped. */
  method AscifyWithBitmaps(image: array2<Pixel>, width: int, height: int, size: int, blackWhite: bool)
    returns (canvas: array2<Cell>)
    requires size > 0 && width > 0 && height > 0
    ensures fresh(canvas)
    ensures canvas.Length0 == height && canvas.Length1 == width
    ensures forall r, c :: 0 <= r < height && 0 <= c < width ==>
      canvas[r, c] == if BitmapAnchor(image.Length0, image.Length1, size, r, c)
                      then Drawn(GlyphAt(image, r, c, blackWhite)) else Blank
  {
    canvas := new Cell[height, width]((_, _) => Blank);
    var boundsHeight := image.Length0 / size;
    var boundsWidth := image.Length1 / size;
    for y := 0 to boundsHeight
      invariant forall r, c :: 0 <= r < height && 0 <= c < width ==>
        canvas[r, c] == if BitmapAnchor(image.Length0, image.Length1, size, r, c) && r < y * size
                        then Drawn(GlyphAt(image, r, c, blackWhite)) else Blank
    {
      var yMod := y * size;
      AlignedProduct(y, size);
      WholeTileIndex(y, image.Length0, size);
      NextAligned(yMod, size);
      for x := 0 to boundsWidth
        invariant forall r, c :: 0 <= r < height && 0 <= c < width ==>
          canvas[r, c] == if BitmapAnchor(image.Length0, image.Length1, size, r, c) &&
                             (r < yMod || (r == yMod && c < x * size))
                          then Drawn(GlyphAt(image, r, c, blackWhite)) else Blank
      {
        var xMod := x * size;
        AlignedProduct(x, size);
        WholeTileIndex(x, image.Length1, size);
        NextAligned(xMod, size);
        var s := GetAsciiFromGreyScale(Luminance(image[yMod, xMod]), blackWhite);
        if yMod < height && xMod < width {
          canvas[yMod, xMod] := Drawn(s);
        }
        assert (x + 1) * size == xMod + size;
      }
      forall c | 0 <= c && c + size <= image.Length1 && Aligned(c, size)
        ensures c < boundsWidth * size
      {
        FullTileBound(c, image.Length1, size);
      }
      assert (y + 1) * size == yMod + size;
    }
    forall r | 0 <= r && r + size <= image.Length0 && Aligned(r, size)
      ensures r < boundsHeight * size
    {
      FullTileBound(r, image.Length0, size);
    }
  }

  /** The anchors of `ascifyWithBitmaps` in a frame of `rows` by `cols`
      pixels, as a set of (row, column) cells. */
  function BitmapAnchors(rows: nat, cols: nat, size: int): (anchors: set<(int, int)>)
    requires size > 0
    ensures forall r, c :: (r, c) in anchors <==> BitmapAnchor(rows, cols, size, r, c)
  {
    Product(FullTiles(rows, size), FullTiles(cols, size))
  }

  /** `ascifyWithBitmaps` draws exactly (rows / size) * (cols / size)
      glyphs, one per whole tile. */
  lemma BitmapAnchorCount(rows: nat, cols: nat, size: int)
    requires size > 0
    ensures |BitmapAnchors(rows, cols, size)| == (rows / size) * (cols / size)
  {
    FullTilesCount(rows, size);
    FullTilesCount(cols, size);
    ProductCount(FullTiles(rows, size), FullTiles(cols, size), rows, cols);
  }

  /** A tile larger than the frame in either direction is never whole, so
      `ascifyWithBitmaps` then draws nothing at all. */
  lemma BitmapTileTooLarge(rows: nat, cols: nat, size: int)
    requires size > 0 && (size > rows || size > cols)
    ensures BitmapAnchors(rows, cols, size) == {}
  {
    assert forall a :: a !in BitmapAnchors(rows, cols, size);
  }

  // ---------------------------------------------------------------------
  // ascifyAsMAT: every multiple of size

  /** `ascifyAsMAT(image, size, scalefactor, blackWhite)`: a fresh canvas of
      the frame's dimensions, black except at the cells whose row and column
      are both multiples of `size`, each of which holds the glyph of its own
      pixel.  The loops run over columns `y` and, inside, rows `x`, both
      stepping by `size` from 0; a border tile that is only partly inside
      the frame is still sampled at its anchor. */
  method AscifyAsMat(image: array2<Pixel>, size: int, blackWhite: bool) returns (canvas: array2<Cell>)
    requires size > 0
    ensures fresh(canvas)
    ensures canvas.Length0 == image.Length0 && canvas.Length1 == image.Length1
    ensures forall r, c :: 0 <= r < image.Length0 && 0 <= c < image.Length1 ==>
      canvas[r, c] == if Aligned(r, size) && Aligned(c, size)
                      then Drawn(GlyphAt(image, r, c, blackWhite)) else Blank
  {
    canvas := new Cell[image.Length0, image.Length1]((_, _) => Blank);
    var width := image.Length0;
    var height := image.Length1;
    var y := 0;
    while y < height
      invariant 0 <= y && Aligned(y, size)
      invariant forall r, c :: 0 <= r < canvas.Length0 && 0 <= c < canvas.Length1 ==>
        canvas[r, c] == if Aligned(r, size) && Aligned(c, size) && c < y
                        then Drawn(GlyphAt(image, r, c, blackWhite)) else Blank
      decreases height - y
    {
      AscifyMatColumn(image, size, y, canvas, blackWhite);
      NextAligned(y, size);
      y := y + size;
    }
  }

  /** The inner loop of `ascifyAsMAT` for column `y`: rows 0, size,
      2 * size, ... below the frame's height get the glyph of their own
      pixel; every other cell keeps its contents. */
  method AscifyMatColumn(image: array2<Pixel>, size: int, y: int, canvas: array2<Cell>, blackWhite: bool)
    requires size > 0 && 0 <= y < image.Length1
    requires canvas.Length0 == image.Length0 && canvas.Length1 == image.Length1
    modifies canvas
    ensures forall r, c :: 0 <= r < canvas.Length0 && 0 <= c < canvas.Length1 ==>
      canvas[r, c] == if c == y && Aligned(r, size)
                      then Drawn(GlyphAt(image, r, c, blackWhite)) else old(canvas[r, c])
  {
    var width := image.Length0;
    var x := 0;
    while x < width
      invariant 0 <= x && Aligned(x, size)
      invariant forall r, c :: 0 <= r < canvas.Length0 && 0 <= c < canvas.Length1 ==>
        canvas[r, c] == if c == y && Aligned(r, size) && r < x
                        then Drawn(GlyphAt(image, r, c, blackWhite)) else old(canvas[r, c])
      decreases width - x
    {
      canvas[x, y] := Drawn(GlyphAt(image, x, y, blackWhite));
      NextAligned(x, size);
      x := x + size;
    }
  }

  /** The anchors of `ascifyAsMAT` in a frame of `rows` by `cols` pixels. */
  function MatAnchors(rows: nat, cols: nat, size: int): (anchors: set<(int, int)>)
    requires size > 0
    ensures forall r, c :: (r, c) in anchors <==>
      0 <= r < rows && 0 <= c < cols && Aligned(r, size) && Aligned(c, size)
  {
    Product(Multiples(rows, size), Multiples(cols, size))
  }

  /** `ascifyAsMAT` draws ceil(rows / size) * ceil(cols / size) glyphs. */
  lemma MatAnchorCount(rows: nat, cols: nat, size: int)
    requires size > 0
    ensures |MatAnchors(rows, cols, size)| == CeilDiv(rows, size) * CeilDiv(cols, size)
  {
    MultiplesCount(rows, size);
    MultiplesCount(cols, size);
    ProductCount(Multiples(rows, size), Multiples(cols, size), rows, cols);
  }

  /** A tile at least as large as a non-empty frame gives exactly one
      anchor, the origin, and every sample stays inside the frame. */
  lemma MatSingleTile(rows: nat, cols: nat, size: int)
    requires 0 < rows <= size && 0 < cols <= size
    ensures MatAnchors(rows, cols, size) == {(0, 0)}
  {
    forall a | a in MatAnchors(rows, cols, size)
      ensures a == (0, 0)
    {
      NextAligned(0, size);
    }
    assert (0, 0) in MatAnchors(rows, cols, size);
  }

  // ---------------------------------------------------------------------
  // ascifyMatParts: one row band

  /** The anchors `ascifyMatParts` visits for the row band
      [regionStart, regionEnd) of a frame with `cols` columns: rows
      regionStart + size / 2, then every `size` rows below regionEnd, and
      columns that are multiples of `size`. */
  predicate PartAnchor(cols: int, size: int, regionStart: int, regionEnd: int, r: int, c: int)
    requires size > 0
  {
    regionStart + size / 2 <= r < regionEnd && Aligned(r - (regionStart + size / 2), size) &&
    0 <= c < cols && Aligned(c, size)
  }

  /** `ascifyMatParts(image, size, regionStart, regionEnd, asciMat, ...)`:
      draws the glyph of each band anchor's own pixel at that anchor and
      leaves every other cell of the canvas as it was.  Its caller keeps the
      band inside the frame, so every sample is in bounds; glyphs anchored
      outside the canvas are clipped. */
  method AscifyMatParts(image: array2<Pixel>, size: int, regionStart: int, regionEnd: int,
                        canvas: array2<Cell>, blackWhite: bool)
    requires size > 0 && 0 <= regionStart && regionEnd <= image.Length0
    modifies canvas
    ensures forall r, c :: 0 <= r < canvas.Length0 && 0 <= c < canvas.Length1 ==>
      canvas[r, c] == if PartAnchor(image.Length1, size, regionStart, regionEnd, r, c)
                      then Drawn(GlyphAt(image, r, c, blackWhite)) else old(canvas[r, c])
  {
    var height := image.Length1;
    var start := regionStart + size / 2;
    var y := 0;
    while y < height
      invariant 0 <= y && Aligned(y, size)
      invariant forall r, c :: 0 <= r < canvas.Length0 && 0 <= c < canvas.Length1 ==>
        canvas[r, c] == if PartAnchor(height, size, regionStart, regionEnd, r, c) && c < y
                        then Drawn(GlyphAt(image, r, c, blackWhite)) else old(canvas[r, c])
      decreases height - y
    {
      var x := start;
      while x < regionEnd
        invariant start <= x && Aligned(x - start, size)
        invariant forall r, c :: 0 <= r < canvas.Length0 && 0 <= c < canvas.Length1 ==>
          canvas[r, c] == if PartAnchor(height, size, regionStart, regionEnd, r, c) &&
                             (c < y || (c == y && r < x))
                          then Drawn(GlyphAt(image, r, c, blackWhite)) else old(canvas[r, c])
        decreases regionEnd - x
      {
        var s := GetAsciiFromGreyScale(Luminance(image[x, y]), blackWhite);
        if x < canvas.Length0 && y < canvas.Length1 {
          canvas[x, y] := Drawn(s);
        }
        NextAligned(x - start, size);
        x := x + size;
      }
      NextAligned(y, size);
      y := y + size;
    }
  }

  /** Every anchor of a call lies inside its own row band, so two calls on
      non-overlapping row bands never draw at the same cell. */
  lemma PartAnchorsDisjoint(cols: int, size: int, start1: int, end1: int, start2: int, end2: int, r: int, c: int)
    requires size > 0 && (end1 <= start2 || end2 <= start1)
    ensures PartAnchor(cols, size, start1, end1, r, c) ==> start1 <= r < end1
    ensures !(PartAnchor(cols, size, start1, end1, r, c) && PartAnchor(cols, size, start2, end2, r, c))
  {
  }

  // ---------------------------------------------------------------------
  // ascifyWithoutScallingSlowAndDrawsTextPerPixel: every pixel

  /** `ascifyWithoutScallingSlowAndDrawsTextPerPixel(image, width, height,
      size)`: a fresh `height` by `width` canvas with the inverted-ramp glyph
      of every pixel of the frame drawn at that pixel (clipped to the
      canvas).  `size` only sets the font size and is not modelled. */
  method AscifyPerPixel(image: array2<Pixel>, width: int, height: int) returns (canvas: array2<Cell>)
    requires width > 0 && height > 0
    ensures fresh(canvas)
    ensures canvas.Length0 == height && canvas.Length1 == width
    ensures forall r, c :: 0 <= r < height && 0 <= c < width ==>
      canvas[r, c] == if r < image.Length0 && c < image.Length1
                      then Drawn(GlyphAt(image, r, c, false)) else Blank
  {
    canvas := new Cell[height, width]((_, _) => Blank);
    for y := 0 to image.Length0
      invariant forall r, c :: 0 <= r < height && 0 <= c < width ==>
        canvas[r, c] == if r < y && c < image.Length1
                        then Drawn(GlyphAt(image, r, c, false)) else Blank
    {
      for x := 0 to image.Length1
        invariant forall r, c :: 0 <= r < height && 0 <= c < width ==>
          canvas[r, c] == if (r < y || (r == y && c < x)) && c < image.Length1
                          then Drawn(GlyphAt(image, r, c, false)) else Blank
      {
        var s := GetAsciiFromGreyScale(Luminance(image[y, x]), false);
        if y < height && x < width {
          canvas[y, x] := Drawn(s);
        }
      }
    }
  }

  // ---------------------------------------------------------------------
  // What a frame renders to

  /** A gray pixel of value 101 to 130 renders "o" in both modes (its
      luminance 0.9999 * v lies in [100, 130)), while a gray 100 falls just
      below the "o" band because the weights sum to 0.9999. */
  lemma MidGrayRendersO(v: Channel, blackWhite: bool)
    ensures 101 <= v <= 130 ==> GetAsciiFromGreyScale(Luminance(Pixel(v, v, v)), blackWhite) == "o"
    ensures GetAsciiFromGreyScale(Luminance(Pixel(100, 100, 100)), true) == "&"
    ensures GetAsciiFromGreyScale(Luminance(Pixel(100, 100, 100)), false) == ";"
  {
    GrayLuminance(v);
    GrayLuminance(100);
    RampsAgreeOnlyInMiddle(Luminance(Pixel(v, v, v)));
  }

  /** A uniform frame of gray 128 renders "o" at every anchor, whichever
      ramp is selected. */
  lemma UniformGrayFrame(image: array2<Pixel>, blackWhite: bool)
    requires forall r, c :: 0 <= r < image.Length0 && 0 <= c < image.Length1 ==> image[r, c] == Pixel(128, 128, 128)
    ensures forall r, c :: 0 <= r < image.Length0 && 0 <= c < image.Length1 ==> GlyphAt(image, r, c, blackWhite) == "o"
  {
    MidGrayRendersO(128, blackWhite);
  }
}
