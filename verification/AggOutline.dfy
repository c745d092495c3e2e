/** `outline` of pixmapgraphics.mod/agg.cpp: a path is broken into lines, and lines into cells. */
module AggOutline {
  import opened AggGeometry
  import opened AggSort
  import Arithmetic
  import opened Int32

  const BLOCK_MASK: nat := 4095
  const BLOCK_LIMIT: nat := 1024
  const CAPACITY: nat := 4096 * 1024

  /** Cell coordinates that fit a signed 16-bit integer. */
  predicate Fits(x: int, y: int) {
    -0x8000 <= x <= 0x7FFF && -0x8000 <= y <= 0x7FFF
  }

  /** The same for 24.8 fixed-point coordinates. */
  predicate FitsPoint(x: int, y: int) {
    Fits(Whole(x), Whole(y))
  }

  /** The cells whose packed coordinate wraps in a signed 32-bit integer. */
  predicate Wraps(x: int, y: int) {
    y == -0x8000 && x < 0
  }

  lemma PackedValue(c: Cell)
    requires Fits(c.x, c.y)
    ensures c.Packed() == c.y * 65536 + c.x + if Wraps(c.x, c.y) then 0x1_0000_0000 else 0
  {
    var v := c.y * 65536 + c.x + 0x8000_0000;
    if Wraps(c.x, c.y) {
      Arithmetic.Quotient(v, 0x1_0000_0000, -1, v + 0x1_0000_0000);
    } else {
      Arithmetic.Quotient(v, 0x1_0000_0000, 0, v);
    }
  }

  /**
   Packed coordinates identify cells. They order two cells by row, then column, exactly when both wrap or neither
   does; a cell that wraps comes before every cell that does not, but is sorted behind it.
   */
  lemma PackedFits(c: Cell, d: Cell)
    requires Fits(c.x, c.y) && Fits(d.x, d.y)
    ensures IsInt32(c.Packed())
    ensures c.Packed() == d.Packed() <==> c.x == d.x && c.y == d.y
    ensures Wraps(c.x, c.y) == Wraps(d.x, d.y) ==>
      (c.Packed() < d.Packed() <==> c.y < d.y || (c.y == d.y && c.x < d.x))
    ensures Wraps(c.x, c.y) && !Wraps(d.x, d.y) ==>
      d.Packed() < c.Packed() && (c.y < d.y || (c.y == d.y && c.x < d.x))
  {
    hide Cell.Packed;
    PackedValue(c);
    PackedValue(d);
  }

  function Min(a: int, b: int): int { if b < a then b else a }

  function Max(a: int, b: int): int { if b > a then b else a }

  /** How the division starts, in both directions: the product before the first boundary fits 32 bits. */
  method FirstProduct(from: int, to: int, start: int, stop: int) returns (p: int, first: int, incr: int, d: int)
    requires -0x80_0000 < stop - start < 0x80_0000
    ensures var w := Walk(from, to, start, stop);
            && p == (if w.Forward() then BASE - Fraction(from) else Fraction(from)) * (stop - start) && IsInt32(p)
            && first == (if w.Forward() then BASE else 0) && incr == w.Direction() && d == Abs(to - from)
            && (from != to ==> d > 0)
  {
    ProductsFit(Walk(from, to, start, stop));
    var f := Fraction(from);
    p, first, incr, d := (BASE - f) * (stop - start), BASE, 1, to - from;
    if d < 0 {
      p, first, incr, d := f * (stop - start), 0, -1, -d;
    }
  }

  /** The bounding box of a path, in whole cells. */
  datatype Bounds = Bounds(minX: int, minY: int, maxX: int, maxY: int)
  {
    function With(x: int, y: int): Bounds {
      Bounds(Min(minX, Whole(x)), Min(minY, Whole(y)), Max(maxX, Whole(x) + 1), Max(maxY, Whole(y) + 1))
    }

    predicate Has(x: int, y: int) {
      minX <= Whole(x) < maxX && minY <= Whole(y) < maxY
    }

    /** No cell of the box has a packed coordinate that wraps. */
    predicate InScanOrder() {
      minX >= 0 || minY > -0x8000
    }

    /** At most 32768 columns, so that the products of the incremental divisions fit 32 bits. */
    predicate Narrow() {
      maxX - minX <= 0x8000
    }
  }

  // The box of a path without lines.
  const NOTHING := Bounds(0x7FFF_FFFF, 0x7FFF_FFFF, -0x7FFF_FFFF, -0x7FFF_FFFF)

  /** A box that has the start of a contour, or is at it, has it after a line as well. */
  lemma LineToBox(b: Bounds, x: int, y: int, u: int, v: int, homeX: int, homeY: int)
    requires b.Has(homeX, homeY) || (x == homeX && y == homeY)
    ensures b.With(x, y).With(u, v).Has(u, v) && b.With(x, y).With(u, v).Has(homeX, homeY)
  {
  }

  lemma NarrowLine(b: Bounds, x: int, y: int, u: int, v: int)
    requires b.With(x, y).With(u, v).Narrow()
    ensures -0x80_0000 < u - x < 0x80_0000
  {
  }

  /** What the store holds of the finished cells, when `spare` blocks were there at the start of the path. */
  function Stored(kept: seq<Cell>, spare: nat): seq<Cell> {
    if spare >= BLOCK_LIMIT then [] else if |kept| <= CAPACITY then kept else kept[..CAPACITY]
  }

  function Blocks(n: nat): nat {
    (n + BLOCK_MASK) / 4096
  }

  /** How many blocks there are pointers for: they come 256 at a time. */
  function Pointers(blocks: nat): nat {
    (blocks + 255) / 256 * 256
  }

  /** A further cell needs a further block exactly when the blocks are full. */
  lemma OneMoreStored(n: nat)
    ensures Blocks(n + 1) == Blocks(n) + if n % 4096 == 0 then 1 else 0
    ensures n % 4096 == 0 ==> 4096 * Blocks(n) == n
    ensures n < 0x40_0000 ==> Blocks(n) <= 1024 && (n % 4096 == 0 ==> Blocks(n) < 1024)
    ensures Blocks(0x40_0000) == 1024 && 0x40_0000 % 4096 == 0
  {
    var q, r := n / 4096, n % 4096;
    if r == 0 {
      Arithmetic.Quotient(n + BLOCK_MASK, 4096, q, BLOCK_MASK);
      Arithmetic.Quotient(n + 1 + BLOCK_MASK, 4096, q + 1, 0);
    } else {
      Arithmetic.Quotient(n + BLOCK_MASK, 4096, q + 1, r - 1);
      Arithmetic.Quotient(n + 1 + BLOCK_MASK, 4096, q + 1, r);
    }
  }

  /** The sums of two lists of cells, which are kept in 32-bit integers, look the same. */
  ghost predicate SameSums(a: seq<Cell>, b: seq<Cell>, x: int, y: int) {
    && Same(Left(a, x, y), Left(b, x, y)) && Same(Area(a, x, y), Area(b, x, y))
    && Same(RowCover(a, y), RowCover(b, y))
  }

  /** The finished cells and the current one add up to the same as everything deposited. */
  ghost predicate Balanced(kept: seq<Cell>, cur: Cell, log: seq<Cell>) {
    forall x, y :: SameSums(kept + [cur], log, x, y)
  }

  lemma BalancedStart(cur: Cell)
    requires cur.cover == 0 && cur.area == 0
    ensures Balanced([], cur, [])
  {
    assert [] + [cur] == [cur];
    forall x, y ensures SameSums([] + [cur], [], x, y) {
      SumsOfOne(cur, x, y);
    }
  }

  /** `next` is `cur` with something added in 32-bit arithmetic. */
  predicate Raised(cur: Cell, next: Cell, cover: int, area: int) {
    next.x == cur.x && next.y == cur.y && Same(next.cover, cur.cover + cover) && Same(next.area, cur.area + area)
  }

  /** A cell's part in a sum. */
  function Part(inside: bool, v: int): int { if inside then v else 0 }

  /** What is added to the current cell is added to the sum of all. */
  lemma SumRaised(kept: int, cur: int, next: int, log: int, more: int)
    requires Same(kept + cur, log) && Same(next, cur + more)
    ensures Same(kept + next, log + more)
  {
    hide AsInt32;
    SameSum(kept, kept, next, cur + more);
    SameSum(kept + cur, log, more, more);
    assert kept + (cur + more) == kept + cur + more;
  }

  lemma SumsWithLast(kept: seq<Cell>, cur: Cell, x: int, y: int)
    ensures Left(kept + [cur], x, y) == Left(kept, x, y) + if cur.x <= x && cur.y == y then cur.cover else 0
    ensures Area(kept + [cur], x, y) == Area(kept, x, y) + if cur.x == x && cur.y == y then cur.area else 0
    ensures RowCover(kept + [cur], y) == RowCover(kept, y) + if cur.y == y then cur.cover else 0
  {
    SumsConcat(kept, [cur], x, y);
    SumsOfOne(cur, x, y);
  }

  lemma SumsWithDeposit(log: seq<Cell>, x0: int, y0: int, cover: int, area: int, x: int, y: int)
    requires cover == 0 ==> area == 0
    ensures var after := log + Deposit(x0, y0, cover, area);
            && Left(after, x, y) == Left(log, x, y) + (if x0 <= x && y0 == y then cover else 0)
            && Area(after, x, y) == Area(log, x, y) + (if x0 == x && y0 == y then area else 0)
            && RowCover(after, y) == RowCover(log, y) + if y0 == y then cover else 0
  {
    if cover == 0 {
      assert log + [] == log;
    } else {
      SumsWithLast(log, Cell(x0, y0, cover, area), x, y);
    }
  }

  lemma BalancedAdd(kept: seq<Cell>, cur: Cell, next: Cell, log: seq<Cell>, cover: int, area: int)
    requires Balanced(kept, cur, log) && (cover == 0 ==> area == 0) && Raised(cur, next, cover, area)
    ensures Balanced(kept, next, log + Deposit(cur.x, cur.y, cover, area))
  {
    hide Left, Area, RowCover, Deposit, AsInt32;
    forall x, y ensures SameSums(kept + [next], log + Deposit(cur.x, cur.y, cover, area), x, y) {
      assert SameSums(kept + [cur], log, x, y);
      SumsWithLast(kept, cur, x, y);
      SumsWithLast(kept, next, x, y);
      SumsWithDeposit(log, cur.x, cur.y, cover, area, x, y);
      var left, here, row := cur.x <= x && cur.y == y, cur.x == x && cur.y == y, cur.y == y;
      SumRaised(Left(kept, x, y), Part(left, cur.cover), Part(left, next.cover), Left(log, x, y), Part(left, cover));
      SumRaised(Area(kept, x, y), Part(here, cur.area), Part(here, next.area), Area(log, x, y), Part(here, area));
      SumRaised(RowCover(kept, y), Part(row, cur.cover), Part(row, next.cover), RowCover(log, y), Part(row, cover));
    }
  }

  lemma BalancedMove(kept: seq<Cell>, cur: Cell, log: seq<Cell>, next: Cell)
    requires Balanced(kept, cur, log) && next.cover == 0 && next.area == 0
    ensures Balanced(kept + [cur], next, log)
    ensures cur.cover == 0 && cur.area == 0 ==> Balanced(kept, next, log)
  {
    hide Left, Area, RowCover, AsInt32;
    forall x, y ensures SameSums(kept + [cur] + [next], log, x, y) {
      assert SameSums(kept + [cur], log, x, y);
      SumsWithLast(kept + [cur], next, x, y);
    }
    if cur.cover == 0 && cur.area == 0 {
      forall x, y ensures SameSums(kept + [next], log, x, y) {
        assert SameSums(kept + [cur], log, x, y);
        SumsWithLast(kept, cur, x, y);
        SumsWithLast(kept, next, x, y);
      }
    }
  }

  lemma RunStarts(ey: int, w: Walk)
    ensures ScanCells(ey, w, 0) == [] && ScanCells(ey, w, 1) == ScanCell(ey, w, 0)
    ensures Scanline(ey, w) == ScanCells(ey, w, w.Cells()) + ScanCell(ey, w, w.Cells())
    ensures Whole(w.from) == Whole(w.to) <==> w.Cells() == 0
  {
  }

  /** The finished cells once the current one has been finished, too; empty cells are not kept. */
  function Added(kept: seq<Cell>, cur: Cell): (after: seq<Cell>)
    ensures after == [] ==> kept == [] && cur.cover == 0 && cur.area == 0
    ensures forall c :: c in after ==> c in kept || c == cur
  {
    if cur.cover == 0 && cur.area == 0 then kept else kept + [cur]
  }

  /** Once the current cell has been flushed, the kept cells alone add up to everything deposited. */
  lemma BalancedFlush(kept: seq<Cell>, cur: Cell, log: seq<Cell>)
    requires Balanced(kept, cur, log)
    ensures forall x, y :: SameSums(Added(kept, cur), log, x, y)
  {
    hide Left, Area, RowCover, AsInt32;
    forall x, y ensures SameSums(Added(kept, cur), log, x, y) {
      assert SameSums(kept + [cur], log, x, y);
      SumsWithLast(kept, cur, x, y);
    }
  }

  class Outline {
    // Storage: the cells kept, in blocks of 4096 that are never given back.
    var cells: seq<Cell>
    var numBlocks: nat
    var curBlock: nat
    var cur: Cell
    var curX: int
    var curY: int
    var closeX: int
    var closeY: int
    var minX: int
    var minY: int
    var maxX: int
    var maxY: int
    var notClosed: bool
    var sortRequired: bool
    // Every finished cell, whether or not there was room for it; every deposit; whether move_to has been called.
    ghost var kept: seq<Cell>
    ghost var log: seq<Cell>
    ghost var started: bool
    ghost var pen: Pen
    // How many blocks there were when the path was begun.
    ghost var spare: nat
    // Not in the source: a finished cell was not stored.
    var dropped: bool
    // `m_sorted_cells`, filled by Cells().
    var sorted: array<Cell>

    ghost predicate InBox(x: int, y: int)
      reads this`minX, this`maxX, this`minY, this`maxY
    {
      minX <= x < maxX && minY <= y < maxY && Fits(x, y)
    }

    /** A cell of the path, with 32-bit sums. */
    ghost predicate Holds(c: Cell)
      reads this`minX, this`maxX, this`minY, this`maxY
    {
      InBox(c.x, c.y) && IsInt32(c.cover) && IsInt32(c.area)
    }

    ghost function Box(): Bounds
      reads this`minX, this`maxX, this`minY, this`maxY
    {
      Bounds(minX, minY, maxX, maxY)
    }

    ghost predicate BlocksValid()
      reads this`cells, this`numBlocks, this`curBlock, this`kept, this`spare, this`dropped
    {
      && spare <= BLOCK_LIMIT && cells == Stored(kept, spare) && dropped == (cells != kept)
      && curBlock == Blocks(|cells|) && numBlocks == if spare > curBlock then spare else curBlock
    }

    /** Cells are only kept for something that was deposited. */
    ghost predicate Accounted()
      reads this`kept, this`cur, this`log
    {
      |kept| + (if cur.cover == 0 && cur.area == 0 then 0 else 1) <= |log|
    }

    /** The store takes cells, or none has been turned away. */
    ghost predicate Usable()
      reads this`kept, this`spare
    {
      spare < BLOCK_LIMIT || kept == []
    }

    /** Kept by every operation on cells, whatever the path. */
    ghost predicate CellsValid()
      reads this`cells, this`numBlocks, this`curBlock, this`kept, this`log, this`cur, this`spare, this`dropped
      reads this`minX, this`maxX, this`minY, this`maxY
    {
      && BlocksValid() && (Usable() ==> Accounted() && Balanced(kept, cur, log))
      && (forall c :: c in kept ==> Holds(c))
      && (forall c :: c in cells ==> Holds(c))
      && Fits(cur.x, cur.y) && ((cur.cover == 0 && cur.area == 0) || Holds(cur))
    }

    /**
     `add_cur_cell`, with `allocate_block`. A full block asks for another one even if one is left over from an
     earlier path, so once the limit is reached such a path stores no cell at all.
     */
    method AddCurCell()
      requires BlocksValid()
      modifies this`cells, this`numBlocks, this`curBlock, this`kept, this`dropped
      ensures BlocksValid()
      ensures kept == Added(old(kept), cur)
      ensures cells ==
        if kept == old(kept) || (|old(cells)| % 4096 == 0 && old(numBlocks) >= 1024) then old(cells)
        else old(cells) + [cur]
    {
      if cur.area != 0 || cur.cover != 0 {
        hide Blocks;
        OneMoreStored(|cells|);
        if |cells| < CAPACITY { OneMoreStored(|cells| + 1); }
        kept := kept + [cur];
        if |cells| % 4096 == 0 {
          if numBlocks >= BLOCK_LIMIT {
            dropped := true;
            return;
          }
          if curBlock >= numBlocks { numBlocks := numBlocks + 1; }
          curBlock := curBlock + 1;
        }
        cells := cells + [cur];
      }
    }

    /** `set_cur_cell`. */
    method SetCurCell(x: int, y: int)
      requires CellsValid() && Fits(x, y)
      modifies this`cells, this`numBlocks, this`curBlock, this`kept, this`dropped, this`cur
      ensures CellsValid() && cur.x == x && cur.y == y
      ensures old(cur.x) != x || old(cur.y) != y ==> cur.cover == 0 && cur.area == 0
    {
      hide Balanced, Cell.Packed;
      PackedFits(cur, Cell(x, y, 0, 0));
      if cur.Packed() != Cell(x, y, 0, 0).Packed() {
        if Usable() { BalancedMove(kept, cur, log, Cell(x, y, 0, 0)); }
        AddCurCell();
        cur := Cell(x, y, 0, 0);
      }
    }

    /** `cell::add_cover` on the current cell, in 32-bit arithmetic. */
    method AddCover(cover: int, area: int)
      requires CellsValid() && InBox(cur.x, cur.y) && (cover == 0 ==> area == 0)
      modifies this`cur, this`log
      ensures CellsValid() && cur.x == old(cur.x) && cur.y == old(cur.y)
      ensures log == old(log) + Deposit(cur.x, cur.y, cover, area)
    {
      hide Balanced, BlocksValid, AsInt32, Fits;
      SameWrapped(cur.cover + cover);
      SameWrapped(cur.area + area);
      ghost var next := cur.(cover := AsInt32(cur.cover + cover), area := AsInt32(cur.area + area));
      if Usable() { BalancedAdd(kept, cur, next, log, cover, area); }
      log := log + Deposit(cur.x, cur.y, cover, area);
      cur := cur.(cover := AsInt32(cur.cover + cover), area := AsInt32(cur.area + area));
    }

    lemma BoxIsConvex(a: int, b: int, x: int, y: int)
      requires InBox(a, y) && InBox(b, y) && Between(x, a, b)
      ensures InBox(x, y)
    {
    }

    /** While a path is being built. */
    ghost predicate Drawing()
      reads this
    {
      && sortRequired && CellsValid() && Box().Narrow()
      && (started ==>
            && FitsPoint(curX, curY) && FitsPoint(closeX, closeY)
            && cur.x == Whole(curX) && cur.y == Whole(curY)
            && pen == Pen(curX, curY, closeX, closeY, log) && pen.Conserves()
            && (curX != closeX || curY != closeY ==> Box().Has(curX, curY) && Box().Has(closeX, closeY))
            && (!notClosed ==> curX == closeX && curY == closeY))
      && (!started ==> kept == [] && log == [] && !notClosed && cur.cover == 0 && cur.area == 0)
    }

    /** The bounding box takes in the column of x. */
    method GrowX(x: int)
      requires CellsValid()
      modifies this`minX, this`maxX
      ensures CellsValid() && minX == Min(old(minX), Whole(x)) && maxX == Max(old(maxX), Whole(x) + 1)
    {
      hide Balanced, BlocksValid, Whole;
      var c := Whole(x);
      if c < minX { minX := c; }
      c := c + 1;
      if c > maxX { maxX := c; }
    }

    lemma InBoxFits(x: int, y: int)
      ensures InBox(x, y) ==> Fits(x, y)
    {
    }

    /** Every pixel between two corners is in the box. */
    ghost predicate Room(x1: int, y1: int, x2: int, y2: int)
      reads this`minX, this`maxX, this`minY, this`maxY
    {
      InBox(Whole(x1), Whole(y1)) && InBox(Whole(x2), Whole(y2))
    }

    /** Once `cells()` has sorted what the store holds. */
    ghost predicate Finished()
      reads this, sorted
    {
      && !sortRequired && !notClosed && BlocksValid() && cells != []
      && |cells| <= sorted.Length && SortedRange(sorted[..], 0, |cells|)
      && multiset(sorted[..|cells|]) == multiset(cells)
      && (forall c :: c in cells ==> Holds(c))
    }

    /** Once `cells()` has sorted the whole path. */
    ghost predicate Sorted()
      reads this, sorted
    {
      && Finished() && cells == kept
      && pen.Conserves() && (forall x, y :: SameSums(cells, pen.Closed().cells, x, y))
    }

    lemma PathState()
      requires Drawing() || Finished()
      ensures sortRequired <==> Drawing()
      ensures sortRequired ==> !Sorted() && !Finished()
      ensures !sortRequired ==> Finished() && !notClosed
      ensures numBlocks <= 1024
      ensures Drawing() && notClosed ==> started
      ensures Drawing() && started ==>
        && FitsPoint(closeX, closeY) && pen.homeX == closeX && pen.homeY == closeY && pen.x == curX && pen.y == curY
        && (curX != closeX || curY != closeY ==> Box().With(curX, curY).With(closeX, closeY) == Box())
        && Box().Narrow()
    {
      hide Balanced, FitsPoint, Pen.Conserves, SortedRange, Whole, Blocks;
      OneMoreStored(|cells|);
    }

    lemma SortedFacts()
      ensures Sorted() ==> Finished() && !dropped
    {
    }

    lemma DrawingFacts()
      requires Drawing() && started
      ensures CellsValid() && Box().Narrow() && FitsPoint(curX, curY) && FitsPoint(closeX, closeY)
      ensures cur.x == Whole(curX) && cur.y == Whole(curY)
      ensures pen == Pen(curX, curY, closeX, closeY, log) && pen.Conserves()
      ensures curX != closeX || curY != closeY ==> Box().Has(curX, curY) && Box().Has(closeX, closeY)
      ensures !notClosed ==> curX == closeX && curY == closeY
    {
      hide CellsValid, Pen.Conserves, FitsPoint;
    }

    lemma LineDrawn()
      requires sortRequired && started && CellsValid() && Box().Narrow()
      requires FitsPoint(curX, curY) && FitsPoint(closeX, closeY) && cur.x == Whole(curX) && cur.y == Whole(curY)
      requires pen == Pen(curX, curY, closeX, closeY, log) && pen.Conserves()
      requires curX != closeX || curY != closeY ==> Box().Has(curX, curY) && Box().Has(closeX, closeY)
      requires !notClosed ==> curX == closeX && curY == closeY
      ensures Drawing()
    {
      hide CellsValid, Pen.Conserves, FitsPoint;
    }

    /** The bounding box takes in two rows. */
    method GrowY(ey1: int, ey2: int)
      requires CellsValid()
      modifies this`minY, this`maxY
      ensures CellsValid() && minY == Min(Min(old(minY), ey1), ey2) && maxY == Max(Max(old(maxY), ey1 + 1), ey2 + 1)
    {
      hide Balanced, BlocksValid;
      if ey1 < minY { minY := ey1; }
      if ey1 + 1 > maxY { maxY := ey1 + 1; }
      if ey2 < minY { minY := ey2; }
      if ey2 + 1 > maxY { maxY := ey2 + 1; }
    }

    /** `render_scanline`: the cells of a run within row ey. */
    method RenderScanline(ey: int, x1: int, y1: int, x2: int, y2: int)
      requires CellsValid() && cur.x == Whole(x1) && cur.y == ey && InBox(Whole(x1), ey) && InBox(Whole(x2), ey)
      requires 0 <= y1 <= BASE && 0 <= y2 <= BASE
      modifies this`cells, this`numBlocks, this`curBlock, this`kept, this`dropped, this`cur, this`log
      ensures CellsValid() && cur.x == Whole(x2) && cur.y == ey
      ensures log == old(log) + Scanline(ey, Walk(x1, x2, y1, y2))
    {
      hide CellsValid, Walk.At, Walk.Cells, ScanCells, ScanCell;
      ghost var w := Walk(x1, x2, y1, y2);
      var ex1, ex2, fx1, fx2 := Whole(x1), Whole(x2), Fraction(x1), Fraction(x2);
      RunStarts(ey, w);
      if y1 == y2 {
        FlatScanline(ey, w);
        SetCurCell(ex2, ey);
      } else if ex1 == ex2 {
        SingleCell(ey, w);
        AddCover(y2 - y1, (fx1 + fx2) * (y2 - y1));
      } else {
        RenderRun(ey, x1, y1, x2, y2);
      }
    }

    /** Row k of a line, and its crossings, are in the box. */
    lemma RowInBox(x1: int, y1: int, x2: int, y2: int, k: nat)
      requires Room(x1, y1, x2, y2) && k <= Walk(y1, y2, x1, x2).Cells()
      ensures var w := Walk(y1, y2, x1, x2);
              && InBox(Whole(w.At(k)), RowOf(w, k)) && InBox(Whole(w.At(k + 1)), RowOf(w, k))
              && InBox(Whole(x1), RowOf(w, k))
    {
      hide Walk.At;
      var w := Walk(y1, y2, x1, x2);
      ColumnsBetween(w, k);
      ColumnsBetween(w, k + 1);
      ScanInside(w, k);
    }

    /** `cell::set_cover` on a current cell that is still empty. */
    method SetCover(cover: int, area: int)
      requires CellsValid() && InBox(cur.x, cur.y) && (cover == 0 ==> area == 0)
      requires cur.cover == 0 && cur.area == 0 && IsInt32(cover) && IsInt32(area)
      modifies this`cur, this`log
      ensures CellsValid() && cur.x == old(cur.x) && cur.y == old(cur.y)
      ensures log == old(log) + Deposit(cur.x, cur.y, cover, area)
    {
      hide Balanced, BlocksValid, AsInt32, Fits;
      if Usable() { BalancedAdd(kept, cur, cur.(cover := cover, area := area), log, cover, area); }
      log := log + Deposit(cur.x, cur.y, cover, area);
      cur := cur.(cover := cover, area := area);
    }

    /** The rows of a vertical line. */
    method RenderVertical(x1: int, y1: int, x2: int, y2: int)
      requires CellsValid() && cur.x == Whole(x1) && cur.y == Whole(y1) && Room(x1, y1, x2, y2)
      requires x1 == x2 && Whole(y1) != Whole(y2)
      modifies this`cells, this`numBlocks, this`curBlock, this`kept, this`dropped, this`cur, this`log
      ensures CellsValid() && cur.x == Whole(x2) && cur.y == Whole(y2)
      ensures log == old(log) + Line(x1, y1, x2, y2)
    {
      hide CellsValid, InBox, Walk.At, Walk.Cells, LineCells, Line, Scanline;
      ghost var w := Walk(y1, y2, x1, x2);
      RowsStart(w);
      var ey1, ey2, fy1, fy2 := Whole(y1), Whole(y2), Fraction(y1), Fraction(y2);
      var ex := Whole(x1);
      var twoFx := 2 * (x1 - BASE * ex);
      var first, incr := BASE, 1;
      if y2 - y1 < 0 { first, incr := 0, -1; }
      var delta := first - fy1;
      VerticalRow(w, 0);
      RowInBox(x1, y1, x2, y2, 0);
      AddCover(delta, twoFx * delta);
      ey1 := ey1 + incr;
      ScanInside(w, 1);
      RowInBox(x1, y1, x2, y2, 1);
      InBoxFits(ex, ey1);
      SetCurCell(ex, ey1);
      delta := first + first - BASE;
      var area := twoFx * delta;
      ghost var k := 1;
      while ey1 != ey2
        invariant 1 <= k <= w.Cells() && ey1 == RowOf(w, k) && (ey1 == ey2 <==> k == w.Cells())
        invariant CellsValid() && cur.x == ex && cur.y == ey1 && cur.cover == 0 && cur.area == 0
        invariant log == old(log) + LineCells(w, k) && Room(x1, y1, x2, y2)
        decreases w.Cells() - k
      {
        VerticalRow(w, k);
        OneMoreRow(w, k);
        RowInBox(x1, y1, x2, y2, k);
        RowInBox(x1, y1, x2, y2, k + 1);
        ScanInside(w, k + 1);
        InBoxFits(ex, ey1 + incr);
        SetCover(delta, area);
        ey1 := ey1 + incr;
        SetCurCell(ex, ey1);
        k := k + 1;
      }
      VerticalRow(w, k);
      RowInBox(x1, y1, x2, y2, k);
      delta := fy2 - BASE + first;
      AddCover(delta, twoFx * delta);
    }

    /** The loop of `render_line`. */
    method RenderMiddleRows(x1: int, y1: int, x2: int, y2: int, x0: int, mod0: int,
                            first: int, incr: int, dy: int, ghost log0: seq<Cell>)
      returns (xFrom: int)
      requires CellsValid() && Room(x1, y1, x2, y2) && 1 < Walk(y1, y2, x1, x2).Cells()
      requires incr == Walk(y1, y2, x1, x2).Direction() && first == (if y2 >= y1 then BASE else 0)
      requires -0x80_0000 < x2 - x1 < 0x80_0000
      requires dy == Abs(y2 - y1) > 0 && x0 == Walk(y1, y2, x1, x2).At(1) && mod0 == Residue(Walk(y1, y2, x1, x2), 1)
      requires cur.x == Whole(x0) && cur.y == Whole(y1) + incr && log == log0 + LineCells(Walk(y1, y2, x1, x2), 1)
      modifies this`cells, this`numBlocks, this`curBlock, this`kept, this`dropped, this`cur, this`log
      ensures CellsValid() && cur.x == Whole(xFrom) && cur.y == Whole(y2)
      ensures xFrom == Walk(y1, y2, x1, x2).At(Walk(y1, y2, x1, x2).Cells())
      ensures log == log0 + LineCells(Walk(y1, y2, x1, x2), Walk(y1, y2, x1, x2).Cells())
    {
      hide CellsValid, InBox, Walk.At, Walk.Distance, Walk.Cells, LineCells, Line, Scanline, Residue;
      ghost var w := Walk(y1, y2, x1, x2);
      var ey1, ey2 := Whole(y1) + incr, Whole(y2);
      xFrom := x0;
      assert IsInt32(BASE * (x2 - x1)) by { ProductsFit(w); }
      var lift, rem := FloorDivide(BASE * (x2 - x1), dy);
      var mod := mod0 - dy;
      ghost var k := 1;
      ScanInside(w, 1);
      while ey1 != ey2
        invariant 1 <= k <= w.Cells() && ey1 == RowOf(w, k) && (ey1 == ey2 <==> k == w.Cells())
        invariant CellsValid() && cur.x == Whole(xFrom) && cur.y == ey1
        invariant log == log0 + LineCells(w, k) && Room(x1, y1, x2, y2)
        invariant xFrom == w.At(k) && mod + dy == Residue(w, k)
        decreases w.Cells() - k
      {
        RowInBox(x1, y1, x2, y2, k);
        RowInBox(x1, y1, x2, y2, k + 1);
        ScanInside(w, k + 1);
        NextCrossing(w, k);
        RowsOfLine(w, k);
        OneMoreRow(w, k);
        var delta := lift;
        mod := mod + rem;
        if mod >= 0 {
          mod := mod - dy;
          delta := delta + 1;
        }
        var xTo := xFrom + delta;
        RenderScanline(ey1, xFrom, BASE - first, xTo, first);
        xFrom := xTo;
        ey1 := ey1 + incr;
        InBoxFits(Whole(xFrom), ey1);
        SetCurCell(Whole(xFrom), ey1);
        k := k + 1;
      }
    }

    /** The rows of a slanted line, by incremental division. */
    method RenderRows(x1: int, y1: int, x2: int, y2: int)
      requires CellsValid() && cur.x == Whole(x1) && cur.y == Whole(y1) && Room(x1, y1, x2, y2)
      requires Whole(y1) != Whole(y2) && -0x80_0000 < x2 - x1 < 0x80_0000
      modifies this`cells, this`numBlocks, this`curBlock, this`kept, this`dropped, this`cur, this`log
      ensures CellsValid() && cur.x == Whole(x2) && cur.y == Whole(y2)
      ensures log == old(log) + Line(x1, y1, x2, y2)
    {
      hide CellsValid, InBox, Walk.At, Walk.Distance, Walk.Cells, LineCells, Line, Scanline, Residue;
      ghost var w := Walk(y1, y2, x1, x2);
      RowsStart(w);
      FirstCrossing(w);
      var ey1, ey2, fy1, fy2 := Whole(y1), Whole(y2), Fraction(y1), Fraction(y2);
      var p, first, incr, dy := FirstProduct(y1, y2, x1, x2);
      var delta, mod := FloorDivide(p, dy);
      var xFrom := x1 + delta;
      RowsOfLine(w, 0);
      RowInBox(x1, y1, x2, y2, 0);
      RenderScanline(ey1, x1, fy1, xFrom, first);
      ey1 := ey1 + incr;
      ScanInside(w, 1);
      RowInBox(x1, y1, x2, y2, 1);
      InBoxFits(Whole(xFrom), ey1);
      SetCurCell(Whole(xFrom), ey1);
      if ey1 != ey2 {
        xFrom := RenderMiddleRows(x1, y1, x2, y2, xFrom, mod, first, incr, dy, old(log));
      }
      ScanInside(w, w.Cells());
      RowsOfLine(w, w.Cells());
      RowInBox(x1, y1, x2, y2, w.Cells());
      EndOfWalk(w);
      RenderScanline(ey2, xFrom, BASE - first, x2, fy2);
    }

    /** `render_line`: the rows of a line. */
    method RenderLine(x1: int, y1: int, x2: int, y2: int)
      requires CellsValid() && cur.x == Whole(x1) && cur.y == Whole(y1)
      requires FitsPoint(x1, y1) && FitsPoint(x2, y2)
      requires minX <= Whole(x1) < maxX && minX <= Whole(x2) < maxX && -0x80_0000 < x2 - x1 < 0x80_0000
      modifies this`cells, this`numBlocks, this`curBlock, this`kept, this`dropped, this`cur, this`log
      modifies this`minY, this`maxY
      ensures CellsValid() && cur.x == Whole(x2) && cur.y == Whole(y2)
      ensures log == old(log) + Line(x1, y1, x2, y2)
      ensures minY == Min(Min(old(minY), Whole(y1)), Whole(y2))
      ensures maxY == Max(Max(old(maxY), Whole(y1) + 1), Whole(y2) + 1)
    {
      hide CellsValid, Walk.At, Walk.Cells, LineCells, Line, Scanline, Fraction;
      ghost var w := Walk(y1, y2, x1, x2);
      var ey1, ey2, fy1, fy2 := Whole(y1), Whole(y2), Fraction(y1), Fraction(y2);
      GrowY(ey1, ey2);
      RowsStart(w);
      if ey1 == ey2 {
        RenderScanline(ey1, x1, fy1, x2, fy2);
      } else if x2 == x1 {
        RenderVertical(x1, y1, x2, y2);
      } else {
        RenderRows(x1, y1, x2, y2);
      }
    }

    /** The box takes in both ends, then the line is rendered. */
    method DrawTo(x: int, y: int)
      requires CellsValid() && cur.x == Whole(curX) && cur.y == Whole(curY)
      requires FitsPoint(curX, curY) && FitsPoint(x, y) && Box().With(curX, curY).With(x, y).Narrow()
      modifies this`cells, this`numBlocks, this`curBlock, this`kept, this`dropped, this`cur, this`log
      modifies this`minX, this`maxX, this`minY, this`maxY
      ensures CellsValid() && cur.x == Whole(x) && cur.y == Whole(y)
      ensures log == old(log) + Line(curX, curY, x, y) && Box() == old(Box()).With(curX, curY).With(x, y)
    {
      hide CellsValid, Line, Whole, FitsPoint;
      NarrowLine(Box(), curX, curY, x, y);
      GrowX(curX);
      GrowX(x);
      RenderLine(curX, curY, x, y);
    }

    method Advance(x: int, y: int)
      modifies this`curX, this`curY, this`notClosed, this`pen
      ensures curX == x && curY == y && notClosed && pen == old(pen).LineTo(x, y)
    {
      hide Line;
      curX, curY := x, y;
      notClosed := true;
      pen := pen.LineTo(x, y);
    }

    /**
     `line_to`: the line is drawn and the box takes in exactly its two ends. Nothing happens at the current point,
     nor once the path has been sorted.
     */
    method LineTo(x: int, y: int)
      requires if sortRequired then Drawing() && started && FitsPoint(x, y) else Finished()
      requires sortRequired && (curX != x || curY != y) ==> Box().With(curX, curY).With(x, y).Narrow()
      modifies this
      ensures sortRequired == old(sortRequired) && sorted == old(sorted) && spare == old(spare)
      ensures if sortRequired then
                && Drawing() && started && pen == old(pen).LineTo(x, y) && curX == x && curY == y
                && closeX == old(closeX) && closeY == old(closeY)
                && Box() == if old(curX) == x && old(curY) == y then old(Box())
                            else old(Box()).With(old(curX), old(curY)).With(x, y)
              else
                && Finished() && (old(Sorted()) ==> Sorted()) && pen == old(pen) && Box() == old(Box())
                && cells == old(cells)
    {
      hide Drawing, CellsValid, Line, Pen.Conserves, Whole, FitsPoint, BlocksValid, SortedRange, Finished;
      hide Bounds.With, Bounds.Has, Bounds.Narrow;
      if sortRequired {
        DrawingFacts();
        LineToConserves(pen, x, y);
        if curX != x || curY != y {
          ghost var b := Box();
          DrawTo(x, y);
          LineToBox(b, curX, curY, x, y, closeX, closeY);
          Advance(x, y);
        } else {
          NoLine(x, y);
          pen := pen.LineTo(x, y);
        }
        LineDrawn();
      }
    }

    /** A contour without lines is closed as it stands. */
    lemma AlreadyClosed()
      requires Drawing() && started && !notClosed
      ensures pen.Closed() == pen && curX == closeX && curY == closeY
    {
      NoLine(curX, curY);
    }

    /** The closing half of `cells`. A sorted path is closed already. */
    method ClosePath()
      requires Drawing()
      modifies this
      ensures Drawing() && !notClosed && started == old(started) && sorted == old(sorted) && spare == old(spare)
      ensures started ==> pen.Closed() == old(pen).Closed() && log == old(pen).Closed().cells
      ensures Box() == old(Box())
      ensures !started ==> pen == old(pen)
    {
      hide CellsValid, Line, Pen.Conserves, Whole, FitsPoint;
      PathState();
      if notClosed {
        LineTo(closeX, closeY);
        NoLine(closeX, closeY);
        notClosed := false;
      } else if started {
        AlreadyClosed();
      }
    }

    /** What is known before the last flush. */
    lemma FlushFacts()
      requires Drawing() && !notClosed
      ensures sortRequired && BlocksValid()
      ensures Usable() ==> Balanced(kept, cur, log) && |Added(kept, cur)| <= |log|
      ensures forall c :: c in Added(kept, cur) ==> Holds(c)
      ensures started ==> pen.Conserves() && pen.Closed().cells == log
      ensures !started ==> kept == [] && log == [] && cur.cover == 0 && cur.area == 0
    {
      hide BlocksValid, Balanced, Pen.Conserves, Line, FitsPoint, Whole, Bounds.Has, Bounds.Narrow;
      if started { AlreadyClosed(); }
    }

    /** Nothing has been stored, because there was nothing to store or no room at all: the path goes on. */
    twostate lemma NoneStored()
      requires old(Drawing()) && !old(notClosed) && !notClosed && sortRequired && started == old(started)
      requires cells == [] && BlocksValid() && kept == Added(old(kept), cur)
      requires cur == old(cur) && log == old(log) && pen == old(pen) && spare == old(spare)
      requires curX == old(curX) && curY == old(curY) && closeX == old(closeX) && closeY == old(closeY)
      requires Box() == old(Box())
      ensures Drawing()
    {
      hide Blocks, Pen.Conserves, Line, FitsPoint, Whole, Balanced, Holds;
    }

    /** The last cell joins the others. */
    method Flush()
      requires Drawing() && !notClosed
      modifies this`cells, this`numBlocks, this`curBlock, this`kept, this`dropped
      ensures BlocksValid() && (Usable() ==> |kept| <= |log| && forall x, y :: SameSums(kept, log, x, y))
      ensures (forall c :: c in kept ==> Holds(c)) && (!started ==> kept == [])
      ensures cells == [] ==> Drawing()
    {
      hide Drawing, Balanced, BlocksValid, SameSums, Added, InBox, Pen.Conserves, Pen.Closed;
      FlushFacts();
      if Usable() { BalancedFlush(kept, cur, log); }
      AddCurCell();
      if cells == [] { NoneStored(); }
    }

    /** Cells are lost exactly when a path finds all blocks taken, or is longer than all blocks together. */
    lemma WhenDropped()
      requires BlocksValid()
      ensures dropped <==> (spare == 1024 && kept != []) || |kept| > 0x40_0000
      ensures spare == 1024 ==> cells == []
      ensures !dropped <==> cells == kept
      ensures !dropped ==> Usable()
      ensures |cells| <= 0x40_0000 && forall c :: c in cells ==> c in kept
    {
    }

    /** The loop of `sort_cells` over one block: `count` cells from number `k` on. */
    method CopyBlock(k: nat, count: nat)
      requires k + count <= |cells| <= sorted.Length && sorted[..k] == cells[..k]
      modifies sorted
      ensures sorted[..k + count] == cells[..k + count]
    {
      for i := 0 to count
        invariant sorted[..k + i] == cells[..k + i]
      {
        sorted[k + i] := cells[k + i];
      }
    }

    /** The cells of the blocks, one after the other. `past`: the pointer behind the last one has been read. */
    method CopyBlocks() returns (past: bool)
      requires BlocksValid() && |cells| <= sorted.Length
      modifies sorted
      ensures sorted[..|cells|] == cells
      ensures past <==> |cells| == 4096 * Pointers(numBlocks)
    {
      var nb := |cells| / 4096;
      assert |cells| == 4096 * nb + |cells| % 4096;
      for block := 0 to nb
        invariant sorted[..4096 * block] == cells[..4096 * block]
      {
        CopyBlock(4096 * block, 4096);
      }
      past := nb == Pointers(numBlocks);
      CopyBlock(4096 * nb, |cells| % 4096);
      assert cells[..|cells|] == cells;
    }

    /**
     `sort_cells`: the cells of all blocks, in packed order. When they fill all blocks there are pointers for, the
     source loads one pointer too many, without following it.
     */
    method SortCells() returns (past: bool)
      requires BlocksValid()
      modifies this`sorted, sorted
      ensures |cells| <= sorted.Length && SortedRange(sorted[..], 0, |cells|)
      ensures multiset(sorted[..|cells|]) == multiset(cells)
      ensures sorted == old(sorted) || fresh(sorted)
      ensures past <==> |cells| == 4096 * Pointers(numBlocks)
    {
      hide SortedRange, BlocksValid, Pointers;
      WhenDropped();
      if |cells| > sorted.Length {
        sorted := new Cell[|cells|](_ => Cell(0, 0, 0, 0));
      }
      past := CopyBlocks();
      ghost var before := sorted[..];
      QSortCells(sorted, |cells|);
      assert before[0..|cells|] == cells && sorted[..][0..|cells|] == sorted[..|cells|];
    }

    lemma AllSorted()
      requires !sortRequired && !notClosed && BlocksValid() && cells != []
      requires |cells| <= sorted.Length && SortedRange(sorted[..], 0, |cells|)
      requires multiset(sorted[..|cells|]) == multiset(cells)
      requires forall c :: c in kept ==> Holds(c)
      requires !dropped ==> forall x, y :: SameSums(kept, log, x, y)
      requires started ==> pen.Conserves() && pen.Closed().cells == log
      ensures Finished() && (!dropped && started ==> Sorted())
    {
      hide BlocksValid, SortedRange, SameSums, Pen.Conserves, Line, Holds;
      WhenDropped();
    }

    /** The last cell joins the others, and they are sorted if there are any. */
    method FlushAndSort() returns (any: bool)
      requires Drawing() && !notClosed
      modifies this`cells, this`numBlocks, this`curBlock, this`kept, this`dropped, this`sortRequired
      modifies this`sorted, sorted
      ensures any <==> cells != []
      ensures sorted == old(sorted) || fresh(sorted)
      ensures spare < 1024 && |log| <= 0x40_0000 ==> !dropped
      ensures spare == 1024 ==> !any
      ensures if any then Finished() else Drawing()
      ensures !dropped && any ==> Sorted() && old(started)
      ensures !dropped && !any ==> forall x, y :: SameSums([], log, x, y)
    {
      hide Drawing, Sorted, Finished, BlocksValid, SameSums, SortedRange, CellsValid, InBox, Pen.Closed, Pen.Conserves;
      FlushFacts();
      Flush();
      WhenDropped();
      any := |cells| != 0;
      if any {
        var _ := SortCells();
        sortRequired := false;
        AllSorted();
      }
    }

    /**
     `cells`: the path is closed and its cells are sorted, unless there are none. Where no cell is lost, the sorted
     ones add up to everything the closed path deposits. A path begun with all blocks taken has no cell.
     */
    method Cells() returns (any: bool)
      requires Drawing() || Finished()
      modifies this, sorted
      ensures sorted == old(sorted) || fresh(sorted)
      ensures old(started && sortRequired) && old(spare) < 1024 && |old(pen).Closed().cells| <= 0x40_0000 ==>
        !dropped
      ensures old(sortRequired) && old(spare) == 1024 ==> !any
      ensures if any then Finished() else Drawing() && cells == [] && old(sortRequired)
      ensures !dropped && any && old(sortRequired) ==> Sorted()
      ensures old(sortRequired) ==> spare == old(spare)
      ensures !dropped && !any && old(started) ==> forall x, y :: SameSums([], old(pen).Closed().cells, x, y)
      ensures old(started && sortRequired) ==> pen.Closed() == old(pen).Closed()
      ensures !old(sortRequired) ==>
        && any && dropped == old(dropped) && pen == old(pen) && (old(Sorted()) ==> Sorted())
        && cells == old(cells) && sorted == old(sorted) && sorted[..] == old(sorted[..])
      ensures Box() == old(Box())
    {
      hide Drawing, Sorted, CellsValid, BlocksValid, Line, SortedRange, Left, Area, RowCover;
      SortedFacts();
      PathState();
      any := true;
      if sortRequired {
        ClosePath();
        ghost var closed := log;
        any := FlushAndSort();
        assert log == closed;
        assert !dropped && !any ==> forall x, y :: SameSums([], log, x, y);
      }
    }

    /** The loop of `render_scanline`. */
    method RenderMiddle(ey: int, x1: int, y1: int, x2: int, y2: int,
                        y0: int, delta0: int, mod0: int, incr: int, dx: int, ghost log0: seq<Cell>)
      returns (y: int)
      requires CellsValid() && InBox(Whole(x1), ey) && InBox(Whole(x2), ey)
      requires 1 < Walk(x1, x2, y1, y2).Cells() && incr == Walk(x1, x2, y1, y2).Direction()
      requires dx == Abs(x2 - x1) > 0 && y0 == Walk(x1, x2, y1, y2).At(1) == y1 + delta0
      requires mod0 == Residue(Walk(x1, x2, y1, y2), 1) && 0 <= y1 <= BASE && 0 <= y2 <= BASE
      requires cur.x == Whole(x1) + incr && cur.y == ey && log == log0 + ScanCells(ey, Walk(x1, x2, y1, y2), 1)
      modifies this`cells, this`numBlocks, this`curBlock, this`kept, this`dropped, this`cur, this`log
      ensures CellsValid() && cur.x == Whole(x2) && cur.y == ey
      ensures y == Walk(x1, x2, y1, y2).At(Walk(x1, x2, y1, y2).Cells())
      ensures log == log0 + ScanCells(ey, Walk(x1, x2, y1, y2), Walk(x1, x2, y1, y2).Cells())
    {
      hide CellsValid, Walk.At, Walk.Distance, Walk.Cells, ScanCells, ScanCell, Residue;
      ghost var w := Walk(x1, x2, y1, y2);
      var ex1, ex2 := Whole(x1) + incr, Whole(x2);
      y := y0;
      assert IsInt32(BASE * (y2 - y + delta0)) by { ProductsFit(w); }
      var lift, rem := FloorDivide(BASE * (y2 - y + delta0), dx);
      var mod := mod0 - dx;
      ghost var k := 1;
      ScanInside(w, 1);
      while ex1 != ex2
        invariant 1 <= k <= w.Cells() && ex1 == Whole(x1) + w.Direction() * k && (ex1 == ex2 <==> k == w.Cells())
        invariant CellsValid() && cur.x == ex1 && cur.y == ey && log == log0 + ScanCells(ey, w, k)
        invariant InBox(Whole(x1), ey) && InBox(Whole(x2), ey)
        invariant y == w.At(k) && mod + dx == Residue(w, k)
        decreases w.Cells() - k
      {
        ScanInside(w, k);
        ScanInside(w, k + 1);
        BoxIsConvex(Whole(x1), Whole(x2), ex1, ey);
        BoxIsConvex(Whole(x1), Whole(x2), ex1 + incr, ey);
        NextCrossing(w, k);
        CellsOfRun(ey, w, k);
        OneMoreCell(ey, w, k);
        var delta := lift;
        mod := mod + rem;
        if mod >= 0 {
          mod := mod - dx;
          delta := delta + 1;
        }
        AddCover(delta, BASE * delta);
        y := y + delta;
        ex1 := ex1 + incr;
        SetCurCell(ex1, ey);
        k := k + 1;
      }
    }

    /** A run of several cells, by incremental division. */
    method RenderRun(ey: int, x1: int, y1: int, x2: int, y2: int)
      requires CellsValid() && cur.x == Whole(x1) && cur.y == ey && InBox(Whole(x1), ey) && InBox(Whole(x2), ey)
      requires Whole(x1) != Whole(x2) && 0 <= y1 <= BASE && 0 <= y2 <= BASE
      modifies this`cells, this`numBlocks, this`curBlock, this`kept, this`dropped, this`cur, this`log
      ensures CellsValid() && cur.x == Whole(x2) && cur.y == ey
      ensures log == old(log) + Scanline(ey, Walk(x1, x2, y1, y2))
    {
      hide CellsValid, Walk.At, Walk.Distance, Walk.Cells, ScanCells, ScanCell, Scanline, Residue, Deposit, InBox;
      hide IsInt32, Walk.Forward, Walk.Direction, Abs, Fraction, Whole, Between, Fits;
      ghost var w := Walk(x1, x2, y1, y2);
      RunStarts(ey, w);
      FirstCrossing(w);
      var ex1, ex2, fx1, fx2 := Whole(x1), Whole(x2), Fraction(x1), Fraction(x2);
      var p, first, incr, dx := FirstProduct(x1, x2, y1, y2);
      var delta, mod := FloorDivide(p, dx);
      CellsOfRun(ey, w, 0);
      AddCover(delta, (fx1 + first) * delta);
      ex1 := ex1 + incr;
      ScanInside(w, 1);
      BoxIsConvex(Whole(x1), Whole(x2), ex1, ey);
      InBoxFits(ex1, ey);
      SetCurCell(ex1, ey);
      var y := y1 + delta;
      if ex1 != ex2 {
        y := RenderMiddle(ey, x1, y1, x2, y2, y, delta, mod, incr, dx, old(log));
      }
      ScanInside(w, w.Cells());
      CellsOfRun(ey, w, w.Cells());
      delta := y2 - y;
      AddCover(delta, (fx2 + BASE - first) * delta);
    }

    lemma NothingDrawn()
      requires cells == kept == log == [] && curBlock == 0 && numBlocks == spare <= BLOCK_LIMIT && !dropped
      requires Box() == NOTHING
      requires cur == Cell(0x7FFF, 0x7FFF, 0, 0) && sortRequired && !notClosed && !started
      ensures Drawing()
    {
      hide Balanced;
      BalancedStart(cur);
    }

    constructor ()
      ensures Drawing() && !started && numBlocks == 0 && spare == 0 && fresh(sorted)
      ensures Box() == NOTHING && !dropped
    {
      cells, numBlocks, curBlock := [], 0, 0;
      cur := Cell(0x7FFF, 0x7FFF, 0, 0);
      curX, curY, closeX, closeY := 0, 0, 0, 0;
      minX, minY, maxX, maxY := 0x7FFF_FFFF, 0x7FFF_FFFF, -0x7FFF_FFFF, -0x7FFF_FFFF;
      notClosed, sortRequired := false, true;
      kept, log, started, pen, spare, dropped := [], [], false, Start(0, 0), 0, false;
      sorted := new Cell[0];
      new;
      NothingDrawn();
    }

    method ResetCells()
      modifies this`cells, this`curBlock, this`cur, this`dropped, this`kept, this`log, this`spare
      ensures cells == kept == log == [] && curBlock == 0 && spare == numBlocks && !dropped
      ensures cur == Cell(0x7FFF, 0x7FFF, 0, 0)
    {
      cells, curBlock := [], 0;
      cur := Cell(0x7FFF, 0x7FFF, 0, 0);
      kept, log, spare, dropped := [], [], numBlocks, false;
    }

    method ResetBox()
      modifies this`minX, this`maxX, this`minY, this`maxY
      ensures Box() == NOTHING
    {
      minX, minY, maxX, maxY := 0x7FFF_FFFF, 0x7FFF_FFFF, -0x7FFF_FFFF, -0x7FFF_FFFF;
    }

    /** `reset`: blocks stay allocated. */
    method Reset()
      requires numBlocks <= BLOCK_LIMIT
      modifies this
      ensures Drawing() && !started && spare == numBlocks == old(numBlocks) && sorted == old(sorted) && Box() == NOTHING
    {
      hide Drawing;
      ResetCells();
      sortRequired, notClosed, started := true, false, false;
      ResetBox();
      NothingDrawn();
    }

    lemma WholeFits(x: int, y: int)
      requires FitsPoint(x, y)
      ensures Fits(Whole(x), Whole(y))
    {
    }

    lemma BeforePutDown()
      requires Drawing()
      ensures CellsValid() && sortRequired && Box().Narrow() && (!started ==> log == [])
      ensures started ==> pen == Pen(curX, curY, closeX, closeY, log) && pen.Conserves()
    {
      hide CellsValid, Pen.Conserves;
    }

    lemma AfterPutDown(x: int, y: int)
      requires CellsValid() && Box().Narrow() && sortRequired && started && FitsPoint(x, y) && pen.Conserves()
      requires curX == closeX == x && curY == closeY == y && cur.x == Whole(x) && cur.y == Whole(y)
      requires pen == Pen(x, y, x, y, log)
      ensures Drawing()
    {
      hide CellsValid, Pen.Conserves, FitsPoint;
    }

    method Home(x: int, y: int)
      modifies this`closeX, this`curX, this`closeY, this`curY, this`pen, this`started
      ensures closeX == curX == x && closeY == curY == y && pen == Pen(x, y, x, y, log) && started
    {
      closeX, curX := x, x;
      closeY, curY := y, y;
      pen := Pen(x, y, x, y, log);
      started := true;
    }

    /** The rest of `move_to`: the pen is put down at the start of a new contour. */
    method PutDown(x: int, y: int)
      requires Drawing() && FitsPoint(x, y) && (started ==> curX == closeX && curY == closeY)
      modifies this
      ensures Drawing() && started && pen == Pen(x, y, x, y, if old(started) then old(pen).cells else [])
      ensures Box() == old(Box()) && sorted == old(sorted) && curX == x && curY == y && spare == old(spare)
    {
      hide Drawing, CellsValid, Line, Pen.Conserves, Whole, FitsPoint, Fits;
      StartConserves(x, y);
      WholeFits(x, y);
      BeforePutDown();
      if started { NextContour(pen, x, y); }
      SetCurCell(Whole(x), Whole(y));
      Home(x, y);
      AfterPutDown(x, y);
    }

    /** `move_to`: a finished path is followed by a new one, otherwise the contour is closed first. */
    method MoveTo(x: int, y: int)
      requires (Drawing() || Finished()) && FitsPoint(x, y)
      modifies this
      ensures Drawing() && started
      ensures pen == if old(started && sortRequired) then old(pen).MoveTo(x, y) else Start(x, y)
      ensures old(sortRequired) ==> Box() == old(Box()) && spare == old(spare)
      ensures !old(sortRequired) ==>
        spare == old(numBlocks) && Box() == NOTHING
      ensures sorted == old(sorted) && curX == x && curY == y
    {
      hide Drawing, CellsValid, Line, Pen.Conserves, SortedRange, SameSums, BlocksValid, Whole, FitsPoint;
      PathState();
      if !sortRequired { Reset(); }
      if notClosed {
        PathState();
        LineTo(closeX, closeY);
      } else if started {
        AlreadyClosed();
      }
      PathState();
      PutDown(x, y);
    }
  }
}
