/** Paths within every documented limit that `rasterizer::render` of pixmapgraphics.mod/agg.h draws wrong. */
module AggFailures {
  import opened AggCoverage
  import opened AggDelivery
  import opened AggGeometry
  import opened AggOutline
  import opened AggRasterizer
  import opened AggScanline
  import opened AggSweep
  import opened Int32

  /** Once around the cells from column a up to column b of row y. */
  function Around(a: int, b: int, y: int): seq<Command> {
    [LineTo(BASE * a, BASE * y + BASE), LineTo(BASE * b, BASE * y + BASE), LineTo(BASE * b, BASE * y),
     LineTo(BASE * a, BASE * y)]
  }

  function Windings(a: int, b: int, y: int, n: nat): seq<Command> {
    if n == 0 then [] else Windings(a, b, y, n - 1) + Around(a, b, y)
  }

  /** A contour that goes around n times. */
  function Coil(a: int, b: int, y: int, n: nat): (path: seq<Command>)
    ensures path != []
  {
    [MoveTo(BASE * a, BASE * y)] + Windings(a, b, y, n)
  }

  /** What it deposits. */
  function CoilCells(a: int, b: int, y: int, n: nat): (cs: seq<Cell>)
    ensures |cs| == 2 * n
  {
    if n == 0 then [] else CoilCells(a, b, y, n - 1) + [Cell(a, y, BASE, 0), Cell(b, y, -BASE, 0)]
  }

  lemma WholeCell(v: int)
    ensures Whole(BASE * v) == v && Fraction(BASE * v) == 0
    ensures Whole(BASE * v + BASE) == v + 1 && Fraction(BASE * v + BASE) == 0
  {
  }

  /** A line down the left side of a cell, and the line back up. */
  lemma SideOfCell(x: int, y: int)
    ensures Line(BASE * x, BASE * y, BASE * x, BASE * y + BASE) == [Cell(x, y, BASE, 0)]
    ensures Line(BASE * x, BASE * y + BASE, BASE * x, BASE * y) == [Cell(x, y, -BASE, 0)]
  {
    hide Line, AggGeometry.Scanline, Whole, Fraction;
    WholeCell(x);
    WholeCell(y);
    var down := Walk(BASE * y, BASE * y + BASE, BASE * x, BASE * x);
    var up := Walk(BASE * y + BASE, BASE * y, BASE * x, BASE * x);
    RowsStart(down);
    RowsStart(up);
    VerticalRow(down, 0);
    VerticalRow(down, 1);
    VerticalRow(up, 0);
    VerticalRow(up, 1);
  }

  /** A line along the top of a row deposits nothing. */
  lemma TopOfRow(x1: int, x2: int, y: int)
    ensures Line(x1, BASE * y, x2, BASE * y) == []
  {
    hide Line, AggGeometry.Scanline;
    var w := Walk(BASE * y, BASE * y, x1, x2);
    RowsStart(w);
    WholeCell(y);
    FlatScanline(y, RowWalk(w, 0));
  }

  lemma FollowOne(p: Pen, before: seq<Command>, x: int, y: int)
    ensures Follow(p, before + [LineTo(x, y)]) == Follow(p, before).LineTo(x, y)
  {
    assert (before + [LineTo(x, y)])[..|before|] == before;
  }

  lemma FollowAround(p: Pen, before: seq<Command>, a: int, b: int, y: int)
    requires Follow(p, before) == Pen(BASE * a, BASE * y, BASE * a, BASE * y, Follow(p, before).cells)
    ensures Follow(p, before + Around(a, b, y))
            == Pen(BASE * a, BASE * y, BASE * a, BASE * y,
                   Follow(p, before).cells + [Cell(a, y, BASE, 0), Cell(b, y, -BASE, 0)])
  {
    hide Line, Follow;
    var top := BASE * y;
    var bottom := BASE * (y + 1);
    assert bottom == BASE * y + BASE;
    var c := Around(a, b, y);
    FollowOne(p, before, BASE * a, bottom);
    FollowOne(p, before + [c[0]], BASE * b, bottom);
    FollowOne(p, before + [c[0]] + [c[1]], BASE * b, top);
    FollowOne(p, before + [c[0]] + [c[1]] + [c[2]], BASE * a, top);
    assert before + c == before + [c[0]] + [c[1]] + [c[2]] + [c[3]];
    SideOfCell(a, y);
    SideOfCell(b, y);
    TopOfRow(BASE * a, BASE * b, y + 1);
    TopOfRow(BASE * b, BASE * a, y);
    assert Follow(p, before).cells + [Cell(a, y, BASE, 0)] + [] + [Cell(b, y, -BASE, 0)] + []
        == Follow(p, before).cells + [Cell(a, y, BASE, 0), Cell(b, y, -BASE, 0)];
  }

  lemma FollowNone(p: Pen)
    ensures Follow(p, []) == p
  {
  }

  lemma {:induction false} FollowCoil(a: int, b: int, y: int, n: nat)
    ensures Follow(Start(BASE * a, BASE * y), Windings(a, b, y, n))
            == Pen(BASE * a, BASE * y, BASE * a, BASE * y, CoilCells(a, b, y, n))
  {
    hide Around, Follow;
    if n == 0 {
      FollowNone(Start(BASE * a, BASE * y));
    } else {
      FollowCoil(a, b, y, n - 1);
      FollowAround(Start(BASE * a, BASE * y), Windings(a, b, y, n - 1), a, b, y);
    }
  }

  lemma CoilDeposits(a: int, b: int, y: int, n: nat)
    ensures PathCells(Coil(a, b, y, n)) == CoilCells(a, b, y, n)
  {
    hide Line, Follow;
    assert Coil(a, b, y, n)[1..] == Windings(a, b, y, n);
    FollowCoil(a, b, y, n);
    NoLine(BASE * a, BASE * y);
  }

  lemma {:induction false} CoilSums(a: int, b: int, y: int, n: nat, x: int)
    requires a <= x < b
    ensures Left(CoilCells(a, b, y, n), x, y) == BASE * n && Area(CoilCells(a, b, y, n), x, y) == 0
  {
    if n > 0 {
      CoilSums(a, b, y, n - 1, x);
      var left, right := Cell(a, y, BASE, 0), Cell(b, y, -BASE, 0);
      SumsWithLast(CoilCells(a, b, y, n - 1), left, x, y);
      SumsWithLast(CoilCells(a, b, y, n - 1) + [left], right, x, y);
      assert CoilCells(a, b, y, n) == CoilCells(a, b, y, n - 1) + [left] + [right];
    }
  }

  lemma {:induction false} WindingsInside(a: int, b: int, y: int, n: nat, left: int)
    requires left <= a < left + NOWHERE && left <= b < left + NOWHERE
    requires Fits(a, y) && Fits(b, y + 1)
    ensures forall i :: 0 <= i < |Windings(a, b, y, n)| ==>
      var c := Windings(a, b, y, n)[i];
      FitsPoint(c.x, c.y) && left <= Whole(c.x) < left + NOWHERE
  {
    if n > 0 {
      hide Whole;
      WindingsInside(a, b, y, n - 1, left);
      WholeCell(a);
      WholeCell(b);
      WholeCell(y);
    }
  }

  lemma CoilDrawable(a: int, b: int, y: int, n: nat, left: int)
    requires left <= a < left + NOWHERE && left <= b < left + NOWHERE
    requires Fits(a, y) && Fits(b, y + 1)
    ensures Drawable(Coil(a, b, y, n), left)
  {
    hide Whole;
    WindingsInside(a, b, y, n, left);
    WholeCell(a);
    WholeCell(y);
  }

  /** 32768 times around columns 0 and 1 of row 0: 65536 deposits, and under the non-zero rule nothing is seen of it. */
  lemma CoilOverflows()
    ensures var path := Coil(0, 2, 0, 32768);
            && Drawable(path, 0) && NoneWraps(path, 0) && |PathCells(path)| == 65536
            && PixelAlpha(PathCells(path), false, 1, 0) == 0 && TrueAlpha(PathCells(path), false, 1, 0) == 255
  {
    hide Windings, CoilCells, Around, PathCells;
    CoilDrawable(0, 2, 0, 32768, 0);
    CoilDeposits(0, 2, 0, 32768);
    CoilSums(0, 2, 0, 32768, 1);
  }

  /** Once around columns -1 and 0 of row -32768: fully covered, but the first cell is sorted last. */
  lemma CoilWraps()
    ensures var path := Coil(-1, 1, -0x8000, 1);
            && Drawable(path, -1) && |PathCells(path)| == 2 && Area(PathCells(path), -1, -0x8000) == 0
            && TrueAlpha(PathCells(path), false, -1, -0x8000) == 255
  {
    hide Windings, CoilCells, Around, PathCells;
    CoilDrawable(-1, 1, -0x8000, 1, -1);
    CoilDeposits(-1, 1, -0x8000, 1);
    CoilSums(-1, 1, -0x8000, 1, -1);
  }

  lemma NotDrawn(px: seq<Pixel>, shade: Shade, gamma: Gamma, x: int, y: int)
    requires Exact(px, shade, gamma) && shade(x, y) == 0
    ensures forall cover :: Pixel(x, y, cover) !in px
  {
    forall cover ensures Pixel(x, y, cover) !in px {
      assert Pixel(x, y, cover) in px ==> Right(Pixel(x, y, cover), shade, gamma);
    }
  }

  /** An overflow loses a pixel that is covered 32768 times. */
  method DrawOverflow(gamma: Gamma, r: Renderer, dx: int, dy: int) returns (ghost px: seq<Pixel>)
    modifies r`drawn
    ensures r.drawn == old(r.drawn) + Clip(px, dx, dy, r.width, r.height)
    ensures TrueAlpha(PathCells(Coil(0, 2, 0, 32768)), false, 1, 0) == 255
    ensures forall cover :: Pixel(1, 0, cover) !in px
  {
    hide Coil, PathCells, Exact, Clip, Drawable;
    CoilOverflows();
    px := DrawPath(Coil(0, 2, 0, 32768), false, gamma, r, dx, dy, 0);
    NotDrawn(px, PixelShade(PathCells(Coil(0, 2, 0, 32768)), false), gamma, 1, 0);
  }

  /** Cells with the sums of a closed path have no net cover in any row. */
  lemma FlatLike(cells: seq<Cell>, commands: seq<Command>)
    requires commands != [] && forall x, y :: SameSums(cells, PathCells(commands), x, y)
    ensures Flat(cells)
  {
    hide PathCells, Left, Area, RowCover, AsInt32;
    forall row ensures Same(RowCover(cells, row), 0) {
      assert SameSums(cells, PathCells(commands), 0, row);
      PathConservation(commands, row);
    }
  }

  /** A packed coordinate that wraps loses a pixel that is fully covered. */
  method DrawWrapping(gamma: Gamma, r: Renderer, dx: int, dy: int) returns (ghost px: seq<Pixel>)
    modifies r`drawn
    ensures r.drawn == old(r.drawn) + Clip(px, dx, dy, r.width, r.height)
    ensures TrueAlpha(PathCells(Coil(-1, 1, -0x8000, 1)), false, -1, -0x8000) == 255
    ensures forall cover :: Pixel(-1, -0x8000, cover) !in px
  {
    hide Coil, PathCells, Exact, Clip, Drawable, Outline.Drawing, Outline.Finished, SweptAlpha, Flat, InOrder, AllFit;
    hide Left, Area, RowCover;
    CoilWraps();
    ghost var path := Coil(-1, 1, -0x8000, 1);
    var ras := new Rasterizer(false, gamma);
    ghost var cells;
    px, cells := ras.Draw(Coil(-1, 1, -0x8000, 1), r, dx, dy, -1);
    FlatLike(cells, path);
    assert SameSums(cells, PathCells(path), -1, -0x8000);
    LastWrapping(cells, false);
    NotDrawn(px, SweptShade(cells, false), gamma, -1, -0x8000);
  }
}
