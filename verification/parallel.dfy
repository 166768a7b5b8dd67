/** The row-band scheduler of `ascifyAsMATParallel`: the worker count is
    clamped to at least one, the rows are cut into `numCores` bands of
    `rows / numCores` rows each, and each band is rendered by
    `ascifyMatParts` into one shared canvas.  The workers are run here one
    after another, in submission order; the lemmas show that no two bands
    draw at the same cell, so the order in which they run does not matter. */
module Parallel {
  import opened Pixels
  import opened Grid
  import opened Tiles

  /** The worker count after the clamp: at least one. */
  function NumCores(threads: int): (n: int)
    ensures n >= 1
    ensures threads >= 1 ==> n == threads
    ensures threads < 1 ==> n == 1
  {
    if threads <= 0 then 1 else threads
  }

  /** `regionSector`: the height of every band, rows / numCores rounded down. */
  function RegionSector(rows: nat, threads: int): (sector: nat)
    ensures sector * NumCores(threads) <= rows < sector * NumCores(threads) + NumCores(threads)
  {
    rows / NumCores(threads)
  }

  /** The rows [start, end) handed to one worker. */
  datatype RowBand = RowBand(start: int, end: int)

  /** The bands in submission order: band `i` starts at i * regionSector
      and ends regionSector rows later. */
  function RowBands(rows: nat, threads: int): (bands: seq<RowBand>)
    ensures |bands| == NumCores(threads)
  {
    var sector := RegionSector(rows, threads);
    seq(NumCores(threads), i => RowBand(i * sector, sector + i * sector))
  }

  /** Does band `i` anchor a glyph at row `r`, column `c`? */
  predicate BandAnchor(rows: nat, cols: int, size: int, threads: int, i: int, r: int, c: int)
    requires size > 0 && 0 <= i < NumCores(threads)
  {
    var band := RowBands(rows, threads)[i];
    PartAnchor(cols, size, band.start, band.end, r, c)
  }

  /** Does one of the first `m` bands anchor a glyph at row `r`, column `c`? */
  predicate AnchoredByFirst(rows: nat, cols: int, size: int, threads: int, m: int, r: int, c: int)
    requires size > 0 && m <= NumCores(threads)
  {
    exists i :: 0 <= i < m && BandAnchor(rows, cols, size, threads, i, r, c)
  }

  /** Does some band anchor a glyph at row `r`, column `c`? */
  predicate ParallelAnchor(rows: nat, cols: int, size: int, threads: int, r: int, c: int)
    requires size > 0
  {
    AnchoredByFirst(rows, cols, size, threads, NumCores(threads), r, c)
  }

  /** Adding band `m` to the first `m` bands adds exactly its own anchors. */
  lemma AnchoredByFirstStep(rows: nat, cols: int, size: int, threads: int, m: int, r: int, c: int)
    requires size > 0 && 0 <= m < NumCores(threads)
    ensures AnchoredByFirst(rows, cols, size, threads, m + 1, r, c) <==>
      AnchoredByFirst(rows, cols, size, threads, m, r, c) || BandAnchor(rows, cols, size, threads, m, r, c)
  {
    if AnchoredByFirst(rows, cols, size, threads, m + 1, r, c) && !BandAnchor(rows, cols, size, threads, m, r, c) {
      var i :| 0 <= i < m + 1 && BandAnchor(rows, cols, size, threads, i, r, c);
      assert i < m;
    }
  }

  /** `ascifyAsMATParallel(image, size, threads, scalefactor, blackWhite)`
      with its workers run in submission order: a fresh canvas of the
      frame's dimensions that holds, at every cell some band anchors, the
      glyph of that cell's pixel, and is black everywhere else. */
  method AscifyAsMatParallel(image: array2<Pixel>, size: int, threads: int, blackWhite: bool)
    returns (canvas: array2<Cell>)
    requires size > 0
    ensures fresh(canvas)
    ensures canvas.Length0 == image.Length0 && canvas.Length1 == image.Length1
    ensures forall r, c :: 0 <= r < canvas.Length0 && 0 <= c < canvas.Length1 ==>
      canvas[r, c] == if ParallelAnchor(image.Length0, image.Length1, size, threads, r, c)
                      then Drawn(GlyphAt(image, r, c, blackWhite)) else Blank
  {
    canvas := new Cell[image.Length0, image.Length1]((_, _) => Blank);
    var width := image.Length0;
    var numCores := threads;
    if numCores <= 0 {
      numCores := 1;
    }
    var regionStart := 0;
    var regionSector := width / numCores;
    for i := 0 to numCores
      invariant regionStart == i * regionSector
      invariant forall r, c :: 0 <= r < canvas.Length0 && 0 <= c < canvas.Length1 ==>
        canvas[r, c] == if AnchoredByFirst(width, image.Length1, size, threads, i, r, c)
                        then Drawn(GlyphAt(image, r, c, blackWhite)) else Blank
    {
      RowBandsInside(width, threads, i);
      assert RowBands(width, threads)[i] == RowBand(regionStart, regionSector + regionStart);
      AscifyMatParts(image, size, regionStart, regionSector + regionStart, canvas, blackWhite);
      forall r, c | 0 <= r < canvas.Length0 && 0 <= c < canvas.Length1
        ensures AnchoredByFirst(width, image.Length1, size, threads, i + 1, r, c) <==>
          AnchoredByFirst(width, image.Length1, size, threads, i, r, c) ||
          PartAnchor(image.Length1, size, regionStart, regionSector + regionStart, r, c)
      {
        AnchoredByFirstStep(width, image.Length1, size, threads, i, r, c);
      }
      regionStart := regionStart + regionSector;
    }
  }

  /** Every band lies inside the frame's rows and is exactly regionSector
      rows high. */
  lemma RowBandsInside(rows: nat, threads: int, i: int)
    requires 0 <= i < NumCores(threads)
    ensures var band := RowBands(rows, threads)[i];
      0 <= band.start <= band.end <= rows &&
      band.end - band.start == RegionSector(rows, threads)
  {
    var sector := RegionSector(rows, threads);
    MulMonotone(i + 1, NumCores(threads), sector);
  }

  /** The bands are contiguous: the first starts at row 0, each one ends
      where the next begins, and the last ends at numCores * regionSector,
      which is rows minus rows % numCores. */
  lemma RowBandsContiguous(rows: nat, threads: int)
    ensures var bands := RowBands(rows, threads);
      bands[0].start == 0 &&
      (forall i :: 0 <= i < |bands| - 1 ==> bands[i].end == bands[i + 1].start) &&
      bands[|bands| - 1].end == NumCores(threads) * RegionSector(rows, threads) &&
      bands[|bands| - 1].end == rows - rows % NumCores(threads)
  {
    var n, sector := NumCores(threads), RegionSector(rows, threads);
    assert rows == n * sector + rows % n;
  }

  /** Two different bands share no row. */
  lemma RowBandsDisjoint(rows: nat, threads: int, i: int, j: int, r: int)
    requires 0 <= i < NumCores(threads) && 0 <= j < NumCores(threads) && i != j
    ensures var bands := RowBands(rows, threads);
      !(bands[i].start <= r < bands[i].end && bands[j].start <= r < bands[j].end)
  {
    var sector := RegionSector(rows, threads);
    if i < j {
      MulMonotone(i + 1, j, sector);
    } else {
      MulMonotone(j + 1, i, sector);
    }
  }

  /** Every row below numCores * regionSector lies in band
      r / regionSector. */
  lemma RowInBand(rows: nat, threads: int, r: int) returns (i: int)
    requires 0 <= r < NumCores(threads) * RegionSector(rows, threads)
    ensures 0 <= i < NumCores(threads) && i == r / RegionSector(rows, threads)
    ensures RowBands(rows, threads)[i].start <= r < RowBands(rows, threads)[i].end
  {
    var n, sector := NumCores(threads), RegionSector(rows, threads);
    i := r / sector;
    DivBounds(r, sector);
    if i >= n {
      MulMonotone(n, i, sector);
    }
  }

  /** A row lies in some band exactly when it is below
      numCores * regionSector: the trailing rows % numCores rows of the
      frame are never rendered. */
  lemma RowBandsCover(rows: nat, threads: int, r: int)
    ensures (exists i :: 0 <= i < NumCores(threads) &&
               RowBands(rows, threads)[i].start <= r < RowBands(rows, threads)[i].end)
            <==> 0 <= r < NumCores(threads) * RegionSector(rows, threads)
  {
    var n, sector := NumCores(threads), RegionSector(rows, threads);
    var bands := RowBands(rows, threads);
    if 0 <= r < n * sector {
      var i := RowInBand(rows, threads, r);
    }
    if exists i :: 0 <= i < n && bands[i].start <= r < bands[i].end {
      var i :| 0 <= i < n && bands[i].start <= r < bands[i].end;
      BandBelowCover(rows, threads, i, r);
    }
  }

  lemma BandBelowCover(rows: nat, threads: int, i: int, r: int)
    requires 0 <= i < NumCores(threads)
    requires RowBands(rows, threads)[i].start <= r < RowBands(rows, threads)[i].end
    ensures 0 <= r < NumCores(threads) * RegionSector(rows, threads)
  {
    MulMonotone(i + 1, NumCores(threads), RegionSector(rows, threads));
  }

  /** With more workers than rows every band is empty, so nothing is drawn. */
  lemma TooManyThreads(rows: nat, threads: int, size: int, cols: int, r: int, c: int)
    requires threads > rows && size > 0
    ensures forall i :: 0 <= i < NumCores(threads) ==> RowBands(rows, threads)[i] == RowBand(0, 0)
    ensures !ParallelAnchor(rows, cols, size, threads, r, c)
  {
    assert RegionSector(rows, threads) == 0;
  }

  /** No two bands anchor a glyph at the same cell, so the workers write
      pairwise disjoint sets of cells; since each glyph depends only on its
      own pixel, running the bands in any order yields the same canvas. */
  lemma BandAnchorsDisjoint(rows: nat, cols: int, size: int, threads: int, i: int, j: int, r: int, c: int)
    requires size > 0 && 0 <= i < NumCores(threads) && 0 <= j < NumCores(threads) && i != j
    ensures !(BandAnchor(rows, cols, size, threads, i, r, c) && BandAnchor(rows, cols, size, threads, j, r, c))
  {
    var sector := RegionSector(rows, threads);
    if i < j {
      MulMonotone(i + 1, j, sector);
    } else {
      MulMonotone(j + 1, i, sector);
    }
    var bi, bj := RowBands(rows, threads)[i], RowBands(rows, threads)[j];
    PartAnchorsDisjoint(cols, size, bi.start, bi.end, bj.start, bj.end, r, c);
  }

  /** The anchors of the parallel path in closed form: row r is anchored
      when it lies in the band r / regionSector, at least size / 2 rows
      below that band's start, and a whole number of tiles further down. */
  lemma ParallelAnchorClosedForm(rows: nat, cols: int, size: int, threads: int, r: int, c: int)
    requires size > 0
    ensures ParallelAnchor(rows, cols, size, threads, r, c) <==>
      var sector := RegionSector(rows, threads);
      0 <= r < NumCores(threads) * sector &&
      PartAnchor(cols, size, (r / sector) * sector, (r / sector) * sector + sector, r, c)
  {
    var n, sector := NumCores(threads), RegionSector(rows, threads);
    var bands := RowBands(rows, threads);
    if ParallelAnchor(rows, cols, size, threads, r, c) {
      var i :| 0 <= i < n && BandAnchor(rows, cols, size, threads, i, r, c);
      RowBandsCover(rows, threads, r);
      DivUnique(r, sector, i);
    }
    if 0 <= r < n * sector {
      RowBandsCover(rows, threads, r);
      var i :| 0 <= i < n && bands[i].start <= r < bands[i].end;
      DivUnique(r, sector, i);
      if PartAnchor(cols, size, (r / sector) * sector, (r / sector) * sector + sector, r, c) {
        assert BandAnchor(rows, cols, size, threads, i, r, c);
      }
    }
  }

  /** With one worker the parallel path does not reproduce `ascifyAsMAT`:
      its anchors start size / 2 rows down, so for a tile size of 2 or more
      the origin, which `ascifyAsMAT` always samples, is left black. */
  lemma OneThreadShiftsAnchors(rows: nat, cols: nat, size: int, threads: int)
    requires size >= 2 && threads <= 1 && rows >= 1 && cols >= 1
    ensures (0, 0) in MatAnchors(rows, cols, size)
    ensures !ParallelAnchor(rows, cols, size, threads, 0, 0)
  {
  }

  /** Changing the worker count moves the anchors: in a frame of 12 rows
      with tiles of 4, row 6 is anchored with one worker but not with two. */
  lemma ThreadCountShiftsAnchors(cols: int)
    requires cols >= 1
    ensures ParallelAnchor(12, cols, 4, 1, 6, 0)
    ensures !ParallelAnchor(12, cols, 4, 2, 6, 0)
  {
    assert BandAnchor(12, cols, 4, 1, 0, 6, 0);
  }
}
