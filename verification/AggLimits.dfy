/** How much a path can deposit, and so how long it can be before overflowing sums spoil its drawing. */
module AggLimits {
  import opened AggCoverage
  import opened AggGeometry
  import opened Int32

  // What one deposit adds at most to the sum behind the coverage of a pixel.
  const SHARE: int := 0x2_0000

  /** A deposit is at most the full height of a cell, and its area at most the whole cell. */
  predicate Slight(c: Cell) {
    Abs(512 * c.cover) <= SHARE && Abs(512 * c.cover - 2 * c.area) <= SHARE
  }

  ghost predicate AllSlight(cs: seq<Cell>) {
    forall i :: 0 <= i < |cs| ==> Slight(cs[i])
  }

  lemma DepositSlight(x: int, y: int, cover: int, sum: int)
    requires Abs(cover) <= BASE && 0 <= sum <= 2 * BASE
    ensures AllSlight(Deposit(x, y, cover, sum * cover))
  {
    Scale(sum, cover, 2 * BASE);
  }

  lemma {:induction false} ScanSlight(ey: int, w: Walk, n: nat)
    requires 0 <= w.start <= BASE && 0 <= w.stop <= BASE
    ensures AllSlight(ScanCells(ey, w, n))
  {
    if n > 0 {
      hide Walk.At, Slight, Deposit;
      ScanSlight(ey, w, n - 1);
      AtBetween(w, n - 1);
      AtBetween(w, n);
      DepositSlight(Whole(w.from) + w.Direction() * (n - 1), ey, w.At(n) - w.At(n - 1),
                    w.Enter(n - 1) + w.Leave(n - 1));
    }
  }

  lemma {:induction false} LineSlight(w: Walk, n: nat)
    ensures AllSlight(LineCells(w, n))
  {
    if n > 0 {
      hide Walk.At, Slight;
      LineSlight(w, n - 1);
      var row := RowWalk(w, n - 1);
      ScanSlight(RowOf(w, n - 1), row, row.Cells() + 1);
    }
  }

  lemma LineToSlight(p: Pen, x: int, y: int)
    requires AllSlight(p.cells)
    ensures AllSlight(p.LineTo(x, y).cells)
  {
    hide Slight, LineCells;
    var w := Walk(p.y, y, p.x, x);
    LineSlight(w, w.Cells() + 1);
  }

  lemma {:induction false} FollowSlight(p: Pen, commands: seq<Command>)
    requires AllSlight(p.cells)
    ensures AllSlight(Follow(p, commands).cells)
  {
    if commands != [] {
      hide AllSlight, Pen.LineTo;
      var before, last := Follow(p, commands[..|commands| - 1]), commands[|commands| - 1];
      FollowSlight(p, commands[..|commands| - 1]);
      LineToSlight(before, last.x, last.y);
      LineToSlight(before, before.homeX, before.homeY);
    }
  }

  /** What lies left of a pixel, and in part at it, against what lies right of it. */
  function Tilt(cs: seq<Cell>, x: int, y: int): int {
    2 * (512 * Left(cs, x, y) - Area(cs, x, y)) - 512 * RowCover(cs, y)
  }

  lemma TiltOfOne(c: Cell, x: int, y: int)
    requires Slight(c)
    ensures -SHARE <= Tilt([c], x, y) <= SHARE
  {
    SumsOfOne(c, x, y);
  }

  lemma TiltAdds(a: seq<Cell>, b: seq<Cell>, x: int, y: int)
    ensures Tilt(a + b, x, y) == Tilt(a, x, y) + Tilt(b, x, y)
  {
    hide Left, Area, RowCover;
    SumsConcat(a, b, x, y);
  }

  /** How far cells can tip the balance. */
  lemma {:induction false} TiltBound(cs: seq<Cell>, x: int, y: int)
    requires AllSlight(cs)
    ensures -SHARE * |cs| <= Tilt(cs, x, y) <= SHARE * |cs|
  {
    if cs == [] {
    } else {
      var rest, last := cs[..|cs| - 1], cs[|cs| - 1];
      TiltBound(rest, x, y);
      TiltOfOne(last, x, y);
      TiltAdds(rest, [last], x, y);
      hide Slight, Tilt;
      assert rest + [last] == cs;
    }
  }

  /** Since every row is balanced, half the deposits bound the sum behind the coverage of a pixel. */
  lemma PathSums(commands: seq<Command>, x: int, y: int)
    requires commands != []
    ensures Abs(512 * Left(PathCells(commands), x, y) - Area(PathCells(commands), x, y))
            <= SHARE / 2 * |PathCells(commands)|
  {
    hide Pen.LineTo, Left, Area, RowCover;
    var pen := Start(commands[0].x, commands[0].y);
    FollowSlight(pen, commands[1..]);
    var last := Follow(pen, commands[1..]);
    LineToSlight(last, last.homeX, last.homeY);
    TiltBound(PathCells(commands), x, y);
    PathConservation(commands, y);
  }

  /** What is left of an area that overflows by no more than this is still at least 255 high. */
  lemma StillHigh(area: int)
    requires Abs(area) <= WORD32 - SHARE
    ensures IsInt32(area) || Abs(AsInt32(area) / 512) >= 255
  {
    if !IsInt32(area) {
      var m := if area > 0 then -1 else 1;
      SameTurned(area, m);
      SameWrapped(area + WORD32 * m);
    }
  }

  /**
   With the even-odd rule, and with the other for paths of fewer than 65535 deposits, 32-bit sums give the true
   coverage of every pixel.
   */
  lemma CoverageIsTrue(commands: seq<Command>, evenOdd: bool)
    requires commands != [] && (evenOdd || |PathCells(commands)| < 65535)
    ensures forall x, y ::
      PixelAlpha(PathCells(commands), evenOdd, x, y) == TrueAlpha(PathCells(commands), evenOdd, x, y)
  {
    hide PathCells, Alpha, AsInt32, Left, Area;
    forall x, y
      ensures PixelAlpha(PathCells(commands), evenOdd, x, y) == TrueAlpha(PathCells(commands), evenOdd, x, y)
    {
      var area := 512 * Left(PathCells(commands), x, y) - Area(PathCells(commands), x, y);
      WhenOverflowing(evenOdd, area);
      if !evenOdd {
        PathSums(commands, x, y);
        StillHigh(area);
      }
    }
  }
}
