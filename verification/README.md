# Camscii ASCII renderer, modelled in Dafny

This project models the rendering core of Camscii's `Ascii` class. The
renderer turns a camera frame into ASCII art in three steps:

- it computes a weighted luminance for a single pixel at each sample anchor;
- it maps that gray value through an 11-band glyph ramp, either the normal
  ramp or the inverted one;
- it draws the glyph at the anchor on a black canvas.

There are four tile walkers:

- whole tiles on an Android `Bitmap`;
- every multiple of the tile size on an OpenCV `Mat`;
- one row band of a `Mat`;
- every pixel.

A parallel front end cuts the frame's rows into one band per worker.

Modules, one per concern:

- `Ramp`: `returnStr`, `returnStrNeg` and `getAsciiFromGreyScale`. These are
  the if-chains as written, next to a reference scan of the threshold table
  (`BandIndex`). Lemmas tie the two together.
- `Pixels`: the 8-bit channels and the luminance formula. The weights are
  kept as written: blue weighs 0.5870 and green 0.1140.
- `IndexRamp`: the unused arithmetic variant
  `getAscifromGrayScaleUsingString`. It keeps Java's `int` and `double`
  behaviour and its exceptions as a `Result`; its strings match Java's
  only when they hold no supplementary characters.
- `Grid`: which offsets a loop stepping by `size` visits, how many there
  are, and how to count the cells of a grid.
- `Tiles`: the four tile walkers as methods on `array2`. Each is proved to
  produce exactly the canvas its anchor predicate describes.
- `Parallel`: the worker-count clamp, the row bands and
  `ascifyAsMATParallel`. The bands run one after another, and the bands are
  proved to draw at disjoint cells.

Modelling conventions:

- A gray value is an exact `real`.
- A frame is an `array2<Pixel>` indexed `[row, column]`.
- A canvas is an `array2<Cell>` in which a cell is `Blank` (the black
  background) or `Drawn(glyph)`.
- OpenCV's `image.get(x, y)` reads row `x`, column `y`, and
  `new Point(y, x)` names the same cell. So every glyph is recorded at the
  cell it was sampled from.
- The tile size must be positive. The app keeps it in 4..15
  (`CameraUtilMain.java:186-187`). With size 0, `ascifyAsMAT` would loop
  forever and `ascifyWithBitmaps` would divide by zero.

Facts about the code that the model keeps:

- luminance is never clamped, and `Pixels.Luminance` shows that it stays
  below 255 anyway;
- the trailing `rows % numCores` rows of a frame go to no band
  (`Parallel.RowBandsCover`), so the parallel path never renders them;
- `new Point(y, x)` names the sampled cell itself, so nothing is
  transposed;
- the weights give blue 0.5870 and green 0.1140.

## Model

| member | source | states |
|---|---|---|
| Ramp.BandIndex | app/src/main/java/wrightstuff/camerautils/ascii/Ascii.java:228-251 | The band of `g` is the first one in the table whose lower bound `g` meets (>= 230, 200, 180, 160, 130, 100, 70, 50, 20, then the strict > 5). Every brighter bound is missed, and band 10 takes everything else. |
| Ramp.ReturnStr | app/src/main/java/wrightstuff/camerautils/ascii/Ascii.java:228-252 | `returnStr` returns the entry of the normal table `[" ", ".", ",", ":", ";", "o", "&", "8", "%", "#", "@"]` at the band of `g`. |
| Ramp.ReturnStrNeg | app/src/main/java/wrightstuff/camerautils/ascii/Ascii.java:260-284 | `returnStrNeg` returns the entry of the inverted table `["@", "#", " %", "8", "&", "o", ";", " :", ",", ".", " "]` at the band of `g`. |
| Ramp.GetAsciiFromGreyScale | app/src/main/java/wrightstuff/camerautils/ascii/Ascii.java:219-225 | The result is the normal table's entry at the band of `g` when `blackWhite` holds, and the inverted table's entry otherwise. |
| Ramp.RampsAreTables | app/src/main/java/wrightstuff/camerautils/ascii/Ascii.java:219-284 | Both ramps are total. `returnStr` returns the normal table's entry at the band of `g`, and `returnStrNeg` returns the inverted table's entry. `getAsciiFromGreyScale` picks the normal ramp exactly when `blackWhite` holds. Every result is one or two characters long. |
| Ramp.MeetsDarker | app/src/main/java/wrightstuff/camerautils/ascii/Ascii.java:228-251 | The thresholds decrease, so a value that meets one band's bound meets every darker band's bound. |
| Ramp.BandIndexIff | app/src/main/java/wrightstuff/camerautils/ascii/Ascii.java:228-251 | `g` is in band k if and only if it meets k's lower bound and misses the bound of band k-1, with the open ends at bands 0 and 10. |
| Ramp.BandIndexMonotone | app/src/main/java/wrightstuff/camerautils/ascii/Ascii.java:228-251 | The ramps are monotone: a brighter value never gets a darker band. |
| Ramp.RampEntriesDistinct | app/src/main/java/wrightstuff/camerautils/ascii/Ascii.java:228-284 | Within each ramp, the 11 strings are pairwise different. |
| Ramp.RampEntryIdentifiesBand | app/src/main/java/wrightstuff/camerautils/ascii/Ascii.java:228-284 | Each ramp returns table entry k if and only if `g` lies in band k, so every value gets exactly one of the 11 strings. |
| Ramp.InvertedMirrorsNormal | app/src/main/java/wrightstuff/camerautils/ascii/Ascii.java:260-284 | `returnStrNeg` is `returnStr`'s table read backwards. The exceptions are bands 2 and 7, which return the two-character strings " %" and " :". |
| Ramp.RampEnds | app/src/main/java/wrightstuff/camerautils/ascii/Ascii.java:228-284 | For g >= 230 the ramps give " " and "@", and for g <= 5 they give "@" and " ". The lowest bound is strict, so 5.0 is in the darkest band while 20.0 is already "%" / ",". |
| Ramp.RampsAgreeOnlyInMiddle | app/src/main/java/wrightstuff/camerautils/ascii/Ascii.java:239-272 | The two ramps return the same string if and only if 100 <= g < 130, and that string is "o". |
| Pixels.Luminance | app/src/main/java/wrightstuff/camerautils/ascii/Ascii.java:83 | The weighted sum (the same formula is at lines 112, 131 and 181) always lies in [0, 254.9745] and so never reaches 255. |
| Pixels.GrayLuminance | app/src/main/java/wrightstuff/camerautils/ascii/Ascii.java:112 | A gray pixel of value v has luminance 0.9999 * v. That is below v exactly when v > 0. |
| Pixels.WhiteIsBrightest | app/src/main/java/wrightstuff/camerautils/ascii/Ascii.java:112 | No pixel is brighter than white, and white reaches the bound 254.9745. |
| Pixels.BlueOutweighsGreen | app/src/main/java/wrightstuff/camerautils/ascii/Ascii.java:131 | With the weights as written, a pure blue pixel is brighter than a pure green one of the same intensity. |
| IndexRamp.DoubleToInt | app/src/main/java/wrightstuff/camerautils/ascii/Ascii.java:204 | The `(int)` cast of a double truncates toward zero and saturates at the bounds of `int`. |
| IndexRamp.JavaRem | app/src/main/java/wrightstuff/camerautils/ascii/Ascii.java:204 | Java's `%` on `int` gives a result strictly inside (-b, b) with the dividend's sign, and it is the identity on [0, b). |
| IndexRamp.JavaRemIsRemainder | app/src/main/java/wrightstuff/camerautils/ascii/Ascii.java:204 | The result of `%` differs from the dividend by a multiple of the divisor. Together with JavaRem's bounds and sign, this pins the result to Java's remainder. |
| IndexRamp.ScaledGray | app/src/main/java/wrightstuff/camerautils/ascii/Ascii.java:203-204 | `(int)(g / valueInterval)` is an `int`, including on division by zero (±Infinity or NaN), and is non-negative for non-negative inputs. |
| IndexRamp.ChosenIndex | app/src/main/java/wrightstuff/camerautils/ascii/Ascii.java:202-204 | For a string of n >= 2 characters, the index passed to `charAt` lies strictly between -(n-1) and n-1. |
| IndexRamp.GetAscifromGrayScaleUsingString | app/src/main/java/wrightstuff/camerautils/ascii/Ascii.java:200-207 | Strings shorter than 2 characters throw ArithmeticException. Otherwise the call succeeds if and only if the chosen index is non-negative, and then returns that character; a negative index throws StringIndexOutOfBounds. |
| IndexRamp.NeverLastCharacter | app/src/main/java/wrightstuff/camerautils/ascii/Ascii.java:202-205 | Every successful result is one of the first length-1 characters, so the last one is never returned. |
| IndexRamp.UsingStringSucceeds | app/src/main/java/wrightstuff/camerautils/ascii/Ascii.java:200-207 | With 2 to 255 characters and g >= 0, the call succeeds with an index in [0, length-2]. |
| IndexRamp.UsingStringFailures | app/src/main/java/wrightstuff/camerautils/ascii/Ascii.java:200-207 | At most one character throws ArithmeticException. With 256 or more characters the interval is -1, so gray 1.0 throws StringIndexOutOfBounds. |
| IndexRamp.UsingStringWrapsAround | app/src/main/java/wrightstuff/camerautils/ascii/Ascii.java:203-205 | The variant is not monotone. With " .,:;o&8%#@", 219 picks "#" but 220 wraps round to " ". |
| IndexRamp.DoubleToIntExact | app/src/main/java/wrightstuff/camerautils/ascii/Ascii.java:204 | The cast maps a value in [n, n+1) to n. |
| Grid.NextAligned | app/src/main/java/wrightstuff/camerautils/ascii/Ascii.java:128-129 | A loop that steps by `size` from an aligned offset stays aligned and skips no multiple of `size`. |
| Grid.AlignedProduct | app/src/main/java/wrightstuff/camerautils/ascii/Ascii.java:109-110 | `x * size` is a multiple of `size`, and dividing it by `size` gives back x. |
| Grid.FullTileBound | app/src/main/java/wrightstuff/camerautils/ascii/Ascii.java:103-110 | An aligned offset whose whole tile fits into n lies below (n / size) * size, so the loop bound n / size reaches every whole tile. |
| Grid.WholeTileIndex | app/src/main/java/wrightstuff/camerautils/ascii/Ascii.java:103-110 | Every tile index p below n / size gives a tile that fits whole: p * size + size <= n. |
| Grid.MultiplesCount | app/src/main/java/wrightstuff/camerautils/ascii/Ascii.java:128-129 | `for (x = 0; x < n; x += size)` visits ceil(n / size) offsets. |
| Grid.FullTilesCount | app/src/main/java/wrightstuff/camerautils/ascii/Ascii.java:103-108 | There are exactly n / size whole tiles along an edge of n pixels. |
| Grid.ProductCount | app/src/main/java/wrightstuff/camerautils/ascii/Ascii.java:107-108 | Two nested loops visit the product of their visit counts. |
| Tiles.AscifyWithBitmaps | app/src/main/java/wrightstuff/camerautils/ascii/Ascii.java:92-118 | Returns a fresh height by width canvas. Each whole-tile anchor (y * size, x * size) holds the glyph of its own pixel, and every other cell is blank. Partial border tiles are skipped and drawing is clipped to the canvas. |
| Tiles.BitmapAnchors | app/src/main/java/wrightstuff/camerautils/ascii/Ascii.java:107-110 | Contains exactly the aligned cells whose whole tile fits into the frame. |
| Tiles.BitmapAnchorCount | app/src/main/java/wrightstuff/camerautils/ascii/Ascii.java:103-116 | `ascifyWithBitmaps` draws exactly (rows / size) * (cols / size) glyphs. |
| Tiles.BitmapTileTooLarge | app/src/main/java/wrightstuff/camerautils/ascii/Ascii.java:103-108 | A tile larger than the frame in either direction means nothing is drawn. |
| Tiles.AscifyAsMat | app/src/main/java/wrightstuff/camerautils/ascii/Ascii.java:121-136 | Returns a fresh canvas of the frame's size. Each cell whose row and column are both multiples of size holds its own pixel's glyph, and all others are black. |
| Tiles.AscifyMatColumn | app/src/main/java/wrightstuff/camerautils/ascii/Ascii.java:129-133 | One pass of the inner loop draws, in column y, the own-pixel glyph at every row that is a multiple of size, and leaves every other cell as it was. |
| Tiles.MatAnchors | app/src/main/java/wrightstuff/camerautils/ascii/Ascii.java:128-132 | Contains exactly the cells inside the frame whose row and column are multiples of size. |
| Tiles.MatAnchorCount | app/src/main/java/wrightstuff/camerautils/ascii/Ascii.java:128-134 | `ascifyAsMAT` draws ceil(rows / size) * ceil(cols / size) glyphs. |
| Tiles.MatSingleTile | app/src/main/java/wrightstuff/camerautils/ascii/Ascii.java:128-129 | A tile at least as large as a non-empty frame gives the single anchor (0, 0). |
| Tiles.AscifyMatParts | app/src/main/java/wrightstuff/camerautils/ascii/Ascii.java:172-187 | Draws the own-pixel glyph at every anchor with row regionStart + size/2 + k * size below regionEnd and a column that is a multiple of size. Every other cell keeps its old contents. |
| Tiles.PartAnchorsDisjoint | app/src/main/java/wrightstuff/camerautils/ascii/Ascii.java:177-182 | A call only draws inside its own row band, so calls on non-overlapping bands draw at disjoint cells. |
| Tiles.AscifyPerPixel | app/src/main/java/wrightstuff/camerautils/ascii/Ascii.java:67-90 | Returns a fresh height by width canvas holding each frame pixel's inverted-ramp glyph at that pixel, clipped to the canvas. Every other cell is blank. |
| Tiles.MidGrayRendersO | app/src/main/java/wrightstuff/camerautils/ascii/Ascii.java:112-113 | Gray pixels of 101 to 130 render "o" in both modes. Gray 100 falls just below the "o" band and renders "&" or ";". |
| Tiles.UniformGrayFrame | app/src/main/java/wrightstuff/camerautils/ascii/Ascii.java:130-132 | A uniform gray-128 frame renders "o" at every anchor in either mode. |
| Parallel.NumCores | app/src/main/java/wrightstuff/camerautils/ascii/Ascii.java:144-147 | The worker count is at least 1. It equals `threads` when that is positive and is 1 otherwise. |
| Parallel.RegionSector | app/src/main/java/wrightstuff/camerautils/ascii/Ascii.java:150 | The band height is rows / numCores rounded down: sector * numCores <= rows < (sector + 1) * numCores. |
| Parallel.RowBands | app/src/main/java/wrightstuff/camerautils/ascii/Ascii.java:153-161 | Exactly one band is submitted per worker. |
| Parallel.AnchoredByFirstStep | app/src/main/java/wrightstuff/camerautils/ascii/Ascii.java:153-161 | Submitting band m adds exactly band m's anchors to those of the earlier bands. |
| Parallel.AscifyAsMatParallel | app/src/main/java/wrightstuff/camerautils/ascii/Ascii.java:140-170 | Runs the bands in submission order. Returns a fresh canvas of the frame's size holding its own pixel's glyph at every cell that some band anchors, and black everywhere else. |
| Parallel.RowBandsInside | app/src/main/java/wrightstuff/camerautils/ascii/Ascii.java:149-161 | Every band lies within [0, rows) and is exactly regionSector rows high. |
| Parallel.RowBandsContiguous | app/src/main/java/wrightstuff/camerautils/ascii/Ascii.java:149-161 | The bands are contiguous from row 0. The last ends at numCores * regionSector = rows - rows % numCores. |
| Parallel.RowBandsDisjoint | app/src/main/java/wrightstuff/camerautils/ascii/Ascii.java:149-161 | Two different bands share no row. |
| Parallel.RowInBand | app/src/main/java/wrightstuff/camerautils/ascii/Ascii.java:149-161 | Every row below numCores * regionSector lies in band r / regionSector. |
| Parallel.BandBelowCover | app/src/main/java/wrightstuff/camerautils/ascii/Ascii.java:149-161 | Every row of every band lies below numCores * regionSector. |
| Parallel.RowBandsCover | app/src/main/java/wrightstuff/camerautils/ascii/Ascii.java:149-161 | A row is in some band if and only if it is below numCores * regionSector, so the trailing rows % numCores rows are never rendered. |
| Parallel.TooManyThreads | app/src/main/java/wrightstuff/camerautils/ascii/Ascii.java:144-161 | With more workers than rows, every band is empty and nothing is drawn. |
| Parallel.BandAnchorsDisjoint | app/src/main/java/wrightstuff/camerautils/ascii/Ascii.java:155-159 | No two bands anchor a glyph at the same cell, so the order in which the workers run does not change the canvas. |
| Parallel.ParallelAnchorClosedForm | app/src/main/java/wrightstuff/camerautils/ascii/Ascii.java:149-182 | A cell is anchored by the parallel path if and only if its row is below numCores * regionSector and is an anchor of band r / regionSector. |
| Parallel.OneThreadShiftsAnchors | app/src/main/java/wrightstuff/camerautils/ascii/Ascii.java:177-179 | With one worker and size >= 2, the origin is left black, although `ascifyAsMAT` always draws there. |
| Parallel.ThreadCountShiftsAnchors | app/src/main/java/wrightstuff/camerautils/ascii/Ascii.java:149-182 | The worker count moves the anchors. With 12 rows and size 4, row 6 is drawn with one worker but not with two. |

## Left out

- `convertNV21toBitmap` (Ascii.java:41-64) is a RenderScript YUV-to-RGB conversion, which is a foreign library call.
- `getNumberOfCores` (Ascii.java:190-197) is a runtime query, and its only call is commented out.
- The executor, the futures list and the `future.get()` join (Ascii.java:151-168) are not modelled. The bands run sequentially, and `Parallel.BandAnchorsDisjoint` shows that their order does not matter.
- Exceptions that a worker raises are logged and discarded by the source, and a failing join also skips the remaining joins. The model has no error path for them.
- Glyph drawing is recorded only as "glyph at anchor". The model leaves out glyph strokes, which can spill beyond the anchor cell, as well as `Paint`, the font, `scalefactor` and `getTextBounds`.
- Tiles.AscifyPerPixel: the `size` parameter only sets the font size and is not a parameter of the model.
- Gray values are exact reals, so Java `double` rounding near a threshold is idealised. NaN luminance cannot arise from 8-bit channels.
- IndexRamp.GetAscifromGrayScaleUsingString: a Dafny `string` counts Unicode scalar values, while Java's `length()` and `charAt` count UTF-16 code units. The model therefore agrees with Java only on strings without supplementary characters, which are the characters outside the Basic Multilingual Plane. Every ramp string in the source is ASCII.
- IndexRamp.ScaledGray: it takes an exact real quotient. The model does not capture `double` rounding before the cast, and it does not cover NaN inputs for `g`.
- Overflow of the `int` loop counters (`x += size` near 2^31) is not modelled. Frames are far smaller.
- The alpha channel of the RGBA frame is never read by the source, so it is not modelled.
- Tiles.AscifyMatParts: it requires the band to lie inside the frame's rows, as its only caller guarantees. A band reaching outside the frame would make `Mat.get` return null and throw, and that error path is not modelled.
- Tiles.AscifyWithBitmaps: it requires a positive width and height, because `Bitmap.createBitmap` throws otherwise. Tiles.AscifyPerPixel requires the same.
- `CameraUtilMain.java` (activity lifecycle, OpenCV callbacks, button counters) and `CameraApplication.java` are not part of this model. They only supply the parameters: size in 4..15, and threads in 0..11, clamped to 1 worker when 0.
