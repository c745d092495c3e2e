/** Paths whose drawing by the rasterizer of pixmapgraphics.mod can be worked out by hand. */
module AggExamples {
  import opened AggCoverage
  import opened AggDelivery
  import opened AggFailures
  import opened AggGeometry
  import opened AggOutline
  import opened AggRasterizer
  import opened AggRectangle
  import opened AggScanline

  lemma Covered(px: seq<Pixel>, shade: Shade, gamma: Gamma, x: int, y: int)
    requires Exact(px, shade, gamma) && shade(x, y) != 0
    ensures Pixel(x, y, gamma[shade(x, y)]) in px
  {
    hide SweepOrder;
    assert Delivered(px, shade, gamma, x, y);
  }

  /** 32769 times around columns 0 and 1 of row 0 takes more than sixteen blocks of cells, and all of them are kept. */
  method DrawLong(gamma: Gamma, r: Renderer, dx: int, dy: int) returns (ghost px: seq<Pixel>)
    modifies r`drawn
    ensures r.drawn == old(r.drawn) + Clip(px, dx, dy, r.width, r.height)
    ensures |PathCells(Coil(0, 2, 0, 32769))| == 65538
    ensures Pixel(0, 0, gamma[255]) in px && Pixel(1, 0, gamma[255]) in px
  {
    hide Coil, PathCells, Exact, Clip, Drawable, CoilCells, Windings, SweepOrder;
    CoilDrawable(0, 2, 0, 32769, 0);
    CoilDeposits(0, 2, 0, 32769);
    CoilSums(0, 2, 0, 32769, 0);
    CoilSums(0, 2, 0, 32769, 1);
    px := DrawPath(Coil(0, 2, 0, 32769), true, gamma, r, dx, dy, 0);
    ghost var shade := PixelShade(PathCells(Coil(0, 2, 0, 32769)), true);
    Covered(px, shade, gamma, 0, 0);
    Covered(px, shade, gamma, 1, 0);
  }

  /** A triangle across two pixels: down its left side, right along the bottom, and back up the slope. */
  function Triangle(): (path: seq<Command>)
    ensures path != []
  {
    [MoveTo(0, 0), LineTo(0, 256), LineTo(512, 256)]
  }

  /** The slope is cut in two at the boundary of the pixels, half way up. */
  lemma SlopeRun()
    ensures AggGeometry.Scanline(0, Walk(512, 0, 256, 0)) == [Cell(1, 0, -128, -32768), Cell(0, 0, -128, -32768)]
  {
    hide ScanCells;
    var row := Walk(512, 0, 256, 0);
    StartOfScan(0, row);
    OneMoreCell(0, row, 0);
    OneMoreCell(0, row, 1);
    OneMoreCell(0, row, 2);
    assert row.At(1) == 256 && row.At(2) == 128;
  }

  lemma SlopeCells()
    ensures Line(512, 256, 0, 0) == [Cell(1, 0, -128, -32768), Cell(0, 0, -128, -32768)]
  {
    hide Line, LineCells, AggGeometry.Scanline;
    var w := Walk(256, 0, 512, 0);
    RowsStart(w);
    assert w.Cells() == 1 && RowOf(w, 0) == 1 && RowOf(w, 1) == 0;
    assert RowWalk(w, 0) == Walk(512, 512, 0, 0) && RowWalk(w, 1) == Walk(512, 0, 256, 0);
    FlatScanline(1, RowWalk(w, 0));
    SlopeRun();
  }

  /** What it deposits. */
  lemma TriangleCells()
    ensures PathCells(Triangle()) == [Cell(0, 0, 256, 0), Cell(1, 0, -128, -32768), Cell(0, 0, -128, -32768)]
  {
    hide Line;
    assert Triangle()[1..] == [LineTo(0, 256), LineTo(512, 256)];
    assert [LineTo(0, 256), LineTo(512, 256)][..1] == [LineTo(0, 256)] && [LineTo(0, 256)][..0] == [];
    SideOfCell(0, 0);
    FlatLine(0, 512, 256);
    SlopeCells();
  }

  /** It covers three quarters of the first pixel and one quarter of the second. */
  lemma TriangleAlphas(evenOdd: bool)
    ensures PixelAlpha(PathCells(Triangle()), evenOdd, 0, 0) == 192
    ensures PixelAlpha(PathCells(Triangle()), evenOdd, 1, 0) == 64
    ensures PixelAlpha(PathCells(Triangle()), evenOdd, 2, 0) == 0
  {
    hide PathCells;
    TriangleCells();
    var a, b, c := Cell(0, 0, 256, 0), Cell(1, 0, -128, -32768), Cell(0, 0, -128, -32768);
    assert [a, b, c] == [a] + [b] + [c];
    forall x | 0 <= x < 3
      ensures Left([a, b, c], x, 0) == (if x == 0 then 128 else 0)
      ensures Area([a, b, c], x, 0) == if x < 2 then -32768 else 0
    {
      SumsOfOne(a, x, 0);
      SumsWithLast([a], b, x, 0);
      SumsWithLast([a] + [b], c, x, 0);
    }
  }

  method DrawTriangle(evenOdd: bool, gamma: Gamma, r: Renderer, dx: int, dy: int) returns (ghost px: seq<Pixel>)
    modifies r`drawn
    ensures r.drawn == old(r.drawn) + Clip(px, dx, dy, r.width, r.height)
    ensures Pixel(0, 0, gamma[192]) in px && Pixel(1, 0, gamma[64]) in px
  {
    hide PathCells, Exact, Clip, PixelAlpha;
    TriangleCells();
    TriangleAlphas(evenOdd);
    px := DrawPath(Triangle(), evenOdd, gamma, r, dx, dy, 0);
    ghost var shade := PixelShade(PathCells(Triangle()), evenOdd);
    Covered(px, shade, gamma, 0, 0);
    Covered(px, shade, gamma, 1, 0);
  }
}
