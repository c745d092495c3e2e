/**
 Rectangles of any position and size, in 256ths of a pixel: what the rasterizer of pixmapgraphics.mod draws of one is
 the share of every pixel that it covers.
 */
module AggRectangle {
  import opened AggCoverage
  import opened AggDelivery
  import opened AggGeometry
  import opened AggOutline
  import opened AggRasterizer
  import opened AggScanline
  import opened AggSweep

  /** How much of the interval from a to b lies in pixel number x, which is from 256 * x to 256 * x + 256. */
  function Overlap(a: int, b: int, x: int): (n: int)
    requires a <= b
    ensures 0 <= n <= 256
  {
    var low, high := if a > 256 * x then a else 256 * x, if b < 256 * x + 256 then b else 256 * x + 256;
    if low <= high then high - low else 0
  }

  lemma OverlapIsClamped(a: int, b: int, x: int)
    requires a <= b
    ensures Clamp(b, x) - Clamp(a, x) == Overlap(a, b, x)
  {
  }

  lemma AreaBound(w: int, h: int)
    requires 0 <= w <= 256 && 0 <= h <= 256
    ensures 0 <= w * h <= 65536
  {
    Scale(w, h, 256);
  }

  /** The area of the pixel that the rectangle covers, in 256ths, and no more than 255. */
  function Share(x1: int, y1: int, x2: int, y2: int, x: int, y: int): Level
    requires x1 <= x2 && y1 <= y2
  {
    var area := Overlap(x1, x2, x) * Overlap(y1, y2, y);
    AreaBound(Overlap(x1, x2, x), Overlap(y1, y2, y));
    if area / 256 > 255 then 255 else area / 256
  }

  /** Down its left side, along the bottom, up its right side; closing the contour goes along the top. */
  function Rectangle(x1: int, y1: int, x2: int, y2: int): (path: seq<Command>)
    ensures path != []
  {
    [MoveTo(x1, y1), LineTo(x1, y2), LineTo(x2, y2), LineTo(x2, y1)]
  }

  lemma NoSums(x: int, y: int)
    ensures Left([], x, y) == 0 && Area([], x, y) == 0
  {
  }

  lemma Distributes(f: int, a: int, b: int)
    ensures f * (a + b) == f * a + f * b && f * 0 == 0
  {
  }

  /** What a side deposits adds up, in every row, to its height there, at its distance from the left of its column. */
  lemma {:induction false} RowsOfSide(w: Walk, n: nat, px: int, row: int)
    requires w.start == w.stop && n <= w.Cells() + 1
    ensures var height := Clamp(Position(w, n), row) - Clamp(w.from, row);
            && Left(LineCells(w, n), px, row) == (if Whole(w.start) <= px then height else 0)
            && Area(LineCells(w, n), px, row) == if Whole(w.start) == px then 2 * Fraction(w.start) * height else 0
    ensures |LineCells(w, n)| <= n
  {
    hide Clamp, Position, Left, Area, AggGeometry.Scanline, Walk.Cells, Walk.Leave, Walk.Enter;
    hide RowOf, RowWalk, Fraction, Whole;
    PositionAtStart(w);
    if n == 0 {
      NoSums(px, row);
    } else {
      RowsOfSide(w, n - 1, px, row);
      RowAdvance(w, n - 1, row);
      VerticalRow(w, n - 1);
      OneMoreRow(w, n - 1);
      var cover := w.Leave(n - 1) - w.Enter(n - 1);
      var twoF := 2 * Fraction(w.start);
      SumsWithDeposit(LineCells(w, n - 1), Whole(w.start), RowOf(w, n - 1), cover, twoF * cover, px, row);
      Distributes(twoF, Clamp(Position(w, n - 1), row) - Clamp(w.from, row),
                  Clamp(Position(w, n), row) - Clamp(Position(w, n - 1), row));
    }
  }

  lemma SideSums(x: int, y1: int, y2: int, px: int, row: int)
    ensures var side, height := Line(x, y1, x, y2), Clamp(y2, row) - Clamp(y1, row);
            && Left(side, px, row) == (if Whole(x) <= px then height else 0)
            && Area(side, px, row) == if Whole(x) == px then 2 * Fraction(x) * height else 0
    ensures |Line(x, y1, x, y2)| <= Abs(Whole(y2) - Whole(y1)) + 1
  {
    hide Left, Area;
    var w := Walk(y1, y2, x, x);
    PositionAtStart(w);
    RowsOfSide(w, w.Cells() + 1, px, row);
  }

  /** A horizontal line deposits nothing. */
  lemma FlatLine(x1: int, x2: int, y: int)
    ensures Line(x1, y, x2, y) == []
  {
    hide Line, AggGeometry.Scanline;
    var w := Walk(y, y, x1, x2);
    RowsStart(w);
    FlatScanline(Whole(y), RowWalk(w, 0));
  }

  lemma FollowThree(p: Pen, a: Command, b: Command, c: Command)
    requires a.LineTo? && b.LineTo? && c.LineTo?
    ensures Follow(p, [a, b, c]) == p.LineTo(a.x, a.y).LineTo(b.x, b.y).LineTo(c.x, c.y)
  {
    hide Pen.LineTo;
    assert [a, b, c][..2] == [a, b] && [a, b][..1] == [a] && [a][..0] == [];
    assert Follow(p, [a]) == Follow(p, []).LineTo(a.x, a.y);
    assert Follow(p, [a, b]) == Follow(p, [a]).LineTo(b.x, b.y);
  }

  lemma RectangleCells(x1: int, y1: int, x2: int, y2: int)
    ensures PathCells(Rectangle(x1, y1, x2, y2)) == Line(x1, y1, x1, y2) + Line(x2, y2, x2, y1)
  {
    hide Line, Follow;
    var path := Rectangle(x1, y1, x2, y2);
    assert path[1..] == [path[1], path[2], path[3]];
    FollowThree(Start(x1, y1), path[1], path[2], path[3]);
    FlatLine(x1, x2, y2);
    FlatLine(x2, x1, y1);
    assert [] + Line(x1, y1, x1, y2) == Line(x1, y1, x1, y2);
  }

  /** What a side of height h leaves of a pixel to its right. */
  function RightOf(v: int, h: int, x: int): int {
    512 * (if Whole(v) <= x then h else 0) - if Whole(v) == x then 2 * Fraction(v) * h else 0
  }

  lemma RightIsClamped(v: int, h: int, x: int)
    ensures RightOf(v, h, x) == 2 * h * (256 - Clamp(v, x))
  {
  }

  /** The sides of a rectangle, in turn. */
  lemma BothSides(x1: int, x2: int, h: int, x: int)
    requires x1 <= x2
    ensures RightOf(x1, h, x) + RightOf(x2, -h, x) == 2 * (Overlap(x1, x2, x) * h)
  {
    hide RightOf, Clamp, Overlap;
    var a, b := 256 - Clamp(x1, x), 256 - Clamp(x2, x);
    RightIsClamped(x1, h, x);
    RightIsClamped(x2, -h, x);
    OverlapIsClamped(x1, x2, x);
    assert Overlap(x1, x2, x) == a - b;
    assert 2 * h * a + 2 * -h * b == 2 * ((a - b) * h);
  }

  /** One side of a rectangle. */
  lemma SideArea(v: int, y1: int, y2: int, x: int, y: int)
    ensures var side := Line(v, y1, v, y2);
            512 * Left(side, x, y) - Area(side, x, y) == RightOf(v, Clamp(y2, y) - Clamp(y1, y), x)
  {
    hide Line, Left, Area, Clamp, Whole, Fraction;
    SideSums(v, y1, y2, x, y);
  }

  /** The doubled area at a pixel is twice the product of the overlaps. */
  lemma RectangleArea(x1: int, y1: int, x2: int, y2: int, x: int, y: int)
    requires x1 <= x2 && y1 <= y2
    ensures var cells := PathCells(Rectangle(x1, y1, x2, y2));
            512 * Left(cells, x, y) - Area(cells, x, y) == 2 * (Overlap(x1, x2, x) * Overlap(y1, y2, y))
  {
    hide Line, Left, Area, PathCells, Clamp, Overlap, RightOf, Rectangle;
    RectangleCells(x1, y1, x2, y2);
    SumsConcat(Line(x1, y1, x1, y2), Line(x2, y2, x2, y1), x, y);
    SideArea(x1, y1, y2, x, y);
    SideArea(x2, y2, y1, x, y);
    OverlapIsClamped(y1, y2, y);
    BothSides(x1, x2, Overlap(y1, y2, y), x);
  }

  lemma AlphaOfArea(cells: seq<Cell>, evenOdd: bool, x: int, y: int, area: int)
    requires 512 * Left(cells, x, y) - Area(cells, x, y) == 2 * area && 0 <= area <= 65536
    ensures PixelAlpha(cells, evenOdd, x, y) == TrueAlpha(cells, evenOdd, x, y)
            == if area / 256 > 255 then 255 else area / 256
  {
    hide Left, Area;
    assert 2 * area / 512 == area / 256;
  }

  /** The alpha of every pixel is the share of it that the rectangle covers, under either rule. */
  lemma RectangleCoverage(x1: int, y1: int, x2: int, y2: int, evenOdd: bool, x: int, y: int)
    requires x1 <= x2 && y1 <= y2
    ensures PixelAlpha(PathCells(Rectangle(x1, y1, x2, y2)), evenOdd, x, y) == Share(x1, y1, x2, y2, x, y)
    ensures TrueAlpha(PathCells(Rectangle(x1, y1, x2, y2)), evenOdd, x, y) == Share(x1, y1, x2, y2, x, y)
  {
    hide Left, Area, PathCells, Overlap, PixelAlpha, TrueAlpha, Rectangle;
    RectangleArea(x1, y1, x2, y2, x, y);
    AreaBound(Overlap(x1, x2, x), Overlap(y1, y2, y));
    AlphaOfArea(PathCells(Rectangle(x1, y1, x2, y2)), evenOdd, x, y, Overlap(x1, x2, x) * Overlap(y1, y2, y));
  }

  lemma RectangleLength(x1: int, y1: int, x2: int, y2: int)
    requires FitsPoint(x1, y1) && FitsPoint(x1, y2)
    ensures |PathCells(Rectangle(x1, y1, x2, y2))| <= 0x2_0000
  {
    hide Line, PathCells;
    RectangleCells(x1, y1, x2, y2);
    SideSums(x1, y1, y2, 0, 0);
    SideSums(x2, y2, y1, 0, 0);
  }

  lemma ScanOrder(px: seq<Pixel>)
    requires Increasing(px)
    ensures forall i, j :: 0 <= i < j < |px| ==> px[i].y < px[j].y || (px[i].y == px[j].y && px[i].x < px[j].x)
  {
  }

  /** Clipping and moving keep scan order. */
  lemma {:induction false} ClipIncreasing(ps: seq<Pixel>, dx: int, dy: int, width: nat, height: nat)
    requires Increasing(ps)
    ensures Increasing(Clip(ps, dx, dy, width, height))
  {
    if ps != [] {
      var some, last := ps[..|ps| - 1], ps[|ps| - 1];
      ClipIncreasing(some, dx, dy, width, height);
      var c := Clip(some, dx, dy, width, height);
      forall i | 0 <= i < |c| ensures Before(c[i].x, c[i].y, last.x + dx, last.y + dy) {
        ClipMembers(some, dx, dy, width, height, c[i]);
        assert c[i] in c;
        assert Pixel(c[i].x - dx, c[i].y - dy, c[i].cover) in some;
      }
    }
  }

  /**
   A rectangle is drawn in a buffer, moved by (dx, dy): every pixel inside the buffer of which it covers at least one
   256th, in scan order, with the level of its share, and no other.
   */
  method DrawRectangle(x1: int, y1: int, x2: int, y2: int, evenOdd: bool, gamma: Gamma, r: Renderer, dx: int, dy: int)
    returns (ghost px: seq<Pixel>)
    requires -0x80_0000 <= x1 <= x2 <= 0x7F_FFFF && -0x80_0000 <= y1 <= y2 <= 0x7F_FFFF
    requires x2 - x1 < 0x7F_FE00 && (x1 >= 0 || y1 >= -0x7F_FF00)
    modifies r`drawn
    ensures r.drawn == old(r.drawn) + px
    ensures forall x, y, cover :: Pixel(x, y, cover) in px <==>
      var share := Share(x1, y1, x2, y2, x - dx, y - dy);
      0 <= x < r.width && 0 <= y < r.height && share != 0 && cover == gamma[share]
    ensures forall i, j :: 0 <= i < j < |px| ==> px[i].y < px[j].y || (px[i].y == px[j].y && px[i].x < px[j].x)
  {
    hide PathCells, PixelAlpha, Clip, Increasing, SweepOrder, Share, Misplaced;
    RectangleLength(x1, y1, x2, y2);
    ghost var all := DrawPath(Rectangle(x1, y1, x2, y2), evenOdd, gamma, r, dx, dy, Whole(x1));
    px := Clip(all, dx, dy, r.width, r.height);
    ClipIncreasing(all, dx, dy, r.width, r.height);
    ScanOrder(px);
    ghost var shade := PixelShade(PathCells(Rectangle(x1, y1, x2, y2)), evenOdd);
    forall x, y, cover
      ensures Pixel(x, y, cover) in px <==>
        var share := Share(x1, y1, x2, y2, x - dx, y - dy);
        0 <= x < r.width && 0 <= y < r.height && share != 0 && cover == gamma[share]
    {
      ClipMembers(all, dx, dy, r.width, r.height, Pixel(x, y, cover));
      RectangleCoverage(x1, y1, x2, y2, evenOdd, x - dx, y - dy);
      assert Delivered(all, shade, gamma, x - dx, y - dy);
      if Pixel(x - dx, y - dy, cover) in all { assert Right(Pixel(x - dx, y - dy, cover), shade, gamma); }
    }
  }
}
