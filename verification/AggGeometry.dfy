/**
 What the polygon rasterizer should deposit, without its incremental arithmetic: every crossing of a line
 with a cell boundary is the floor of the exact rational crossing (pixmapgraphics.mod/agg.cpp).
 Coordinates carry 8 fractional bits.
 */
module AggGeometry {
  import opened Arithmetic
  import opened Int32

  const BASE: int := 256

  /** A cell of the pixel grid: signed height covered, and twice the area left of the outline, within the cell. */
  datatype Cell = Cell(x: int, y: int, cover: int, area: int)
  {
    /** `(y << 16) + x`. */
    function Packed(): int { AsInt32(y * 65536 + x) }
  }

  /** `v >> poly_base_shift`. */
  function Whole(v: int): int { v / BASE }

  /** `v & poly_base_mask`. */
  function Fraction(v: int): (f: int)
    ensures 0 <= f < BASE
  {
    v % BASE
  }

  function Abs(v: int): nat { if v < 0 then -v else v }

  /** A contribution, unless it is empty. */
  function Deposit(x: int, y: int, cover: int, area: int): seq<Cell> {
    if cover == 0 then [] else [Cell(x, y, cover, area)]
  }

  // ------------------------------------------------------------------ crossings

  /**
   A walk along one axis from `from` to `to` while the other coordinate goes from `start` to `stop`:
   cell boundary number k (1 <= k <= Cells()) is met at At(k).
   */
  datatype Walk = Walk(from: int, to: int, start: int, stop: int)
  {
    /** How many boundaries are crossed. */
    function Cells(): nat { Abs(Whole(to) - Whole(from)) }

    function Forward(): bool { to >= from }

    function Direction(): int { if Forward() then 1 else -1 }

    /** The distance from `from` to boundary number k. */
    function Distance(k: int): int {
      (if Forward() then BASE - Fraction(from) else Fraction(from)) + BASE * (k - 1)
    }

    /** The other coordinate at boundary number k: the floor of the exact crossing. */
    function At(k: int): int {
      if k <= 0 || from == to then (if k <= Cells() then start else stop)
      else if k > Cells() then stop
      else start + Distance(k) * (stop - start) / Abs(to - from)
    }

    /** The position within its cell where the walk enters cell k, and where it leaves it. */
    function Enter(k: int): int {
      if k <= 0 then Fraction(from) else if Forward() then 0 else BASE
    }

    function Leave(k: int): int {
      if k >= Cells() then Fraction(to) else if Forward() then BASE else 0
    }
  }

  /** Boundary k lies between the ends of the walk. */
  lemma DistanceInside(w: Walk, k: int)
    requires 1 <= k <= w.Cells()
    ensures 0 <= w.Distance(k) <= Abs(w.to - w.from)
    ensures w.from != w.to
  {
  }

  lemma Scale(d: int, n: int, whole: int)
    requires 0 <= d <= whole
    ensures n >= 0 ==> 0 <= d * n <= whole * n
    ensures n <= 0 ==> whole * n <= d * n <= 0
  {
    if n >= 0 {
      NonNegative(d, n);
      Ordered(d, whole, n);
    } else {
      NonNegative(d, -n);
      Ordered(d, whole, -n);
      assert d * -n == -(d * n) && whole * -n == -(whole * n);
    }
  }

  lemma QuotientAtMost(w: int, q: int, r: int, n: int)
    requires w > 0 && 0 <= r < w && w * q + r <= w * n
    ensures q <= n
  {
    Apart(w, q, n);
  }

  lemma QuotientAtLeast(w: int, q: int, r: int, n: int)
    requires w > 0 && 0 <= r < w && w * q + r >= w * n
    ensures q >= n
  {
    Apart(w, n, q);
  }

  lemma FloorWithin(value: int, whole: int, lo: int, hi: int)
    requires whole > 0 && whole * lo <= value <= whole * hi
    ensures lo <= value / whole <= hi
  {
    var q, r := value / whole, value % whole;
    assert value == whole * q + r;
    QuotientAtMost(whole, q, r, hi);
    QuotientAtLeast(whole, q, r, lo);
  }

  /** The crossings of a line stay between its ends. */
  lemma FloorBetween(d: int, n: int, whole: int)
    requires 0 <= d <= whole && whole > 0
    ensures n >= 0 ==> 0 <= d * n / whole <= n
    ensures n <= 0 ==> n <= d * n / whole <= 0
  {
    Scale(d, n, whole);
    if n >= 0 {
      FloorWithin(d * n, whole, 0, n);
    } else {
      FloorWithin(d * n, whole, n, 0);
    }
  }

  /** Every crossing lies between the line's ends. */
  lemma AtBetween(w: Walk, k: int)
    ensures w.start <= w.stop ==> w.start <= w.At(k) <= w.stop
    ensures w.stop <= w.start ==> w.stop <= w.At(k) <= w.start
  {
    if 1 <= k <= w.Cells() {
      DistanceInside(w, k);
      FloorBetween(w.Distance(k), w.stop - w.start, Abs(w.to - w.from));
    }
  }

  lemma FloorMonotone(a: int, b: int, whole: int)
    requires whole > 0
    ensures a <= b ==> a / whole <= b / whole
  {
    if a <= b {
      var q := b / whole;
      assert b == whole * q + b % whole;
      assert a == whole * (a / whole) + a % whole;
      Apart(whole, a / whole, q);
    }
  }

  lemma FloorOrder(d: int, n: int, whole: int)
    requires whole > 0
    ensures n >= 0 ==> d * n / whole <= (d + BASE) * n / whole
    ensures n <= 0 ==> (d + BASE) * n / whole <= d * n / whole
  {
    assert (d + BASE) * n == d * n + BASE * n;
    FloorMonotone(d * n, (d + BASE) * n, whole);
    FloorMonotone((d + BASE) * n, d * n, whole);
  }

  /** Consecutive crossings never turn back: all the covers of a line share the sign of its height. */
  lemma AtMonotone(w: Walk, k: nat)
    requires k <= w.Cells()
    ensures w.start <= w.stop ==> w.At(k) <= w.At(k + 1)
    ensures w.stop <= w.start ==> w.At(k + 1) <= w.At(k)
  {
    AtBetween(w, k);
    AtBetween(w, k + 1);
    if 1 <= k < w.Cells() {
      var n, whole := w.stop - w.start, Abs(w.to - w.from);
      DistanceInside(w, k);
      assert w.Distance(k + 1) == w.Distance(k) + BASE;
      FloorOrder(w.Distance(k), n, whole);
    }
  }

  /** One step of the incremental division: quotients add, with a carry when the remainders overflow. */
  lemma FloorStep(a: int, b: int, whole: int)
    requires whole > 0
    ensures var carry := if a % whole + b % whole >= whole then 1 else 0;
            && (a + b) / whole == a / whole + b / whole + carry
            && (a + b) % whole == a % whole + b % whole - carry * whole
  {
    var carry := if a % whole + b % whole >= whole then 1 else 0;
    var q, r := a / whole + b / whole + carry, a % whole + b % whole - carry * whole;
    assert whole * q == whole * (a / whole) + whole * (b / whole) + whole * carry;
    Quotient(a + b, whole, q, r);
  }

  /** C's `/` and `%`, which round toward zero. */
  function TruncDiv(a: int, b: int): int
    requires b > 0
  {
    if a >= 0 then a / b else -(-a / b)
  }

  function TruncMod(a: int, b: int): int
    requires b > 0
  {
    a - b * TruncDiv(a, b)
  }

  /** The source's correction of a negative remainder turns truncation into floor. */
  lemma TruncToFloor(a: int, b: int)
    requires b > 0
    ensures TruncMod(a, b) < 0 ==> TruncDiv(a, b) - 1 == a / b && TruncMod(a, b) + b == a % b
    ensures TruncMod(a, b) >= 0 ==> TruncDiv(a, b) == a / b && TruncMod(a, b) == a % b
  {
    if a < 0 {
      var q, r := -a / b, -a % b;
      assert -a == b * q + r;
      assert b * -q == -(b * q);
      assert b * (-q - 1) == -(b * q) - b;
      if r == 0 {
        Quotient(a, b, -q, 0);
      } else {
        Quotient(a, b, -q - 1, b - r);
      }
    } else {
      assert a == b * (a / b) + a % b;
    }
  }

  /** The remainder the incremental division carries from boundary k to the next. */
  function Residue(w: Walk, k: int): int
    requires w.from != w.to
  {
    w.Distance(k) * (w.stop - w.start) % Abs(w.to - w.from)
  }

  /** What the division before the first boundary yields. */
  lemma FirstCrossing(w: Walk)
    requires 1 <= w.Cells()
    ensures w.from != w.to
    ensures var p := (if w.Forward() then BASE - Fraction(w.from) else Fraction(w.from)) * (w.stop - w.start);
            w.At(1) == w.start + p / Abs(w.to - w.from) && Residue(w, 1) == p % Abs(w.to - w.from)
  {
    DistanceInside(w, 1);
  }

  lemma DistanceStep(w: Walk, k: int)
    requires 1 <= k < w.Cells()
    ensures w.Distance(k + 1) == w.Distance(k) + BASE && w.from != w.to
  {
    hide Fraction;
  }

  /** What one turn of the incremental division yields. */
  lemma NextCrossing(w: Walk, k: nat)
    requires 1 <= k < w.Cells()
    ensures w.from != w.to
    ensures var d, n := Abs(w.to - w.from), w.stop - w.start;
            var carry := if Residue(w, k) + BASE * n % d >= d then 1 else 0;
            && w.At(k + 1) == w.At(k) + BASE * n / d + carry
            && Residue(w, k + 1) == Residue(w, k) + BASE * n % d - carry * d
  {
    hide Whole, Fraction, Walk.Distance, Walk.Cells;
    DistanceStep(w, k);
    var d, n := Abs(w.to - w.from), w.stop - w.start;
    assert w.Distance(k + 1) * n == w.Distance(k) * n + BASE * n;
    FloorStep(w.Distance(k) * n, BASE * n, d);
  }

  /** `delta = p / d; mod = p % d; if(mod < 0) { delta--; mod += d; }`. */
  method FloorDivide(p: int, d: int) returns (delta: int, mod: int)
    requires d > 0
    ensures delta == p / d && mod == p % d
  {
    TruncToFloor(p, d);
    delta, mod := TruncDiv(p, d), TruncMod(p, d);
    if mod < 0 {
      delta, mod := delta - 1, mod + d;
    }
  }

  // ------------------------------------------------------------------ what a line deposits

  /** Cell k of a run along one scanline: x walks, y follows. */
  function ScanCell(ey: int, w: Walk, k: nat): seq<Cell> {
    var cover := w.At(k + 1) - w.At(k);
    Deposit(Whole(w.from) + w.Direction() * k, ey, cover, (w.Enter(k) + w.Leave(k)) * cover)
  }

  function ScanCells(ey: int, w: Walk, n: nat): seq<Cell> {
    if n == 0 then [] else ScanCells(ey, w, n - 1) + ScanCell(ey, w, n - 1)
  }

  function Scanline(ey: int, w: Walk): seq<Cell> {
    ScanCells(ey, w, w.Cells() + 1)
  }

  /** Row k of a line: y walks, x follows. */
  function RowWalk(w: Walk, k: nat): Walk {
    Walk(w.At(k), w.At(k + 1), w.Enter(k), w.Leave(k))
  }

  function RowOf(w: Walk, k: nat): int {
    Whole(w.from) + w.Direction() * k
  }

  function LineCells(w: Walk, n: nat): seq<Cell> {
    if n == 0 then [] else LineCells(w, n - 1) + Scanline(RowOf(w, n - 1), RowWalk(w, n - 1))
  }

  /** Everything the line from (x1, y1) to (x2, y2) deposits. */
  function Line(x1: int, y1: int, x2: int, y2: int): seq<Cell> {
    var w := Walk(y1, y2, x1, x2);
    LineCells(w, w.Cells() + 1)
  }

  // ------------------------------------------------------------------ sums

  /** The sum of the covers of the cells of row y at or left of x. */
  function Left(cs: seq<Cell>, x: int, y: int): int {
    if cs == [] then 0
    else Left(cs[..|cs| - 1], x, y) + if cs[|cs| - 1].x <= x && cs[|cs| - 1].y == y then cs[|cs| - 1].cover else 0
  }

  /** The sum of the areas of the cells at (x, y). */
  function Area(cs: seq<Cell>, x: int, y: int): int {
    if cs == [] then 0
    else Area(cs[..|cs| - 1], x, y) + if cs[|cs| - 1].x == x && cs[|cs| - 1].y == y then cs[|cs| - 1].area else 0
  }

  /** The sum of the covers of the cells of row y. */
  function RowCover(cs: seq<Cell>, y: int): int {
    if cs == [] then 0
    else RowCover(cs[..|cs| - 1], y) + if cs[|cs| - 1].y == y then cs[|cs| - 1].cover else 0
  }

  lemma {:induction false} SumsConcat(a: seq<Cell>, b: seq<Cell>, x: int, y: int)
    ensures Left(a + b, x, y) == Left(a, x, y) + Left(b, x, y)
    ensures Area(a + b, x, y) == Area(a, x, y) + Area(b, x, y)
    ensures RowCover(a + b, y) == RowCover(a, y) + RowCover(b, y)
  {
    if b == [] {
      assert a + b == a;
    } else {
      SumsConcat(a, b[..|b| - 1], x, y);
      assert (a + b)[..|a + b| - 1] == a + b[..|b| - 1];
    }
  }

  lemma SumsOfOne(c: Cell, x: int, y: int)
    ensures Left([c], x, y) == if c.x <= x && c.y == y then c.cover else 0
    ensures Area([c], x, y) == if c.x == x && c.y == y then c.area else 0
    ensures RowCover([c], y) == if c.y == y then c.cover else 0
  {
    assert [c][..0] == [];
  }

  lemma DepositSums(x: int, y: int, cover: int, area: int, row: int)
    ensures RowCover(Deposit(x, y, cover, area), row) == if row == y then cover else 0
  {
    if cover != 0 { assert [Cell(x, y, cover, area)][..0] == []; }
  }

  /** How much of row y (0..256) lies below the coordinate v. */
  function Clamp(v: int, y: int): int {
    if v <= BASE * y then 0 else if v >= BASE * y + BASE then BASE else v - BASE * y
  }

  lemma ScanCellCover(ey: int, w: Walk, k: nat, row: int)
    ensures RowCover(ScanCell(ey, w, k), row) == if row == ey then w.At(k + 1) - w.At(k) else 0
  {
    hide Walk.At, Walk.Enter, Walk.Leave, RowCover, Deposit;
    var cover := w.At(k + 1) - w.At(k);
    DepositSums(Whole(w.from) + w.Direction() * k, ey, cover, (w.Enter(k) + w.Leave(k)) * cover, row);
  }

  lemma NoCells(y: int)
    ensures RowCover([], y) == 0
  {
  }

  lemma StartOfScan(ey: int, w: Walk)
    ensures ScanCells(ey, w, 0) == [] && w.At(0) == w.start
  {
  }

  lemma OneMoreCell(ey: int, w: Walk, k: nat)
    ensures ScanCells(ey, w, k + 1) == ScanCells(ey, w, k) + ScanCell(ey, w, k)
  {
  }

  /** The covers along one scanline telescope. */
  lemma {:induction false} ScanCover(ey: int, w: Walk, n: nat, row: int)
    requires n <= w.Cells() + 1
    ensures RowCover(ScanCells(ey, w, n), row) == if row == ey then w.At(n) - w.start else 0
  {
    hide Walk.At, ScanCell, ScanCells, RowCover;
    if n == 0 {
      StartOfScan(ey, w);
      NoCells(row);
    } else {
      ScanCover(ey, w, n - 1, row);
      OneMoreCell(ey, w, n - 1);
      SumsConcat(ScanCells(ey, w, n - 1), ScanCell(ey, w, n - 1), 0, row);
      ScanCellCover(ey, w, n - 1, row);
    }
  }

  /** Where the walk stands after n rows. */
  function Position(w: Walk, n: nat): int {
    if n == 0 then w.from
    else if n > w.Cells() then w.to
    else if w.Forward() then BASE * (Whole(w.from) + n)
    else BASE * (Whole(w.from) - n + 1)
  }

  lemma RowAdvance(w: Walk, k: nat, row: int)
    requires k <= w.Cells()
    ensures Clamp(Position(w, k + 1), row) - Clamp(Position(w, k), row)
            == if row == RowOf(w, k) then w.Leave(k) - w.Enter(k) else 0
  {
  }

  lemma PositionAtStart(w: Walk)
    ensures Position(w, 0) == w.from && Position(w, w.Cells() + 1) == w.to
  {
  }

  lemma {:induction false} LineCover(w: Walk, n: nat, row: int)
    requires n <= w.Cells() + 1
    ensures RowCover(LineCells(w, n), row) == Clamp(Position(w, n), row) - Clamp(w.from, row)
  {
    hide Clamp, Position, RowCover, ScanCells, Walk.Cells, Walk.Leave, Walk.Enter;
    if n == 0 {
      assert LineCells(w, 0) == [] && Position(w, 0) == w.from by { PositionAtStart(w); }
      NoCells(row);
    } else {
      LineCover(w, n - 1, row);
      var step := RowWalk(w, n - 1);
      SumsConcat(LineCells(w, n - 1), Scanline(RowOf(w, n - 1), step), 0, row);
      ScanCover(RowOf(w, n - 1), step, step.Cells() + 1, row);
      RowAdvance(w, n - 1, row);
    }
  }

  /** A line covers, in every row, exactly the part of its height that lies in that row. */
  lemma LineConservation(x1: int, y1: int, x2: int, y2: int, row: int)
    ensures RowCover(Line(x1, y1, x2, y2), row) == Clamp(y2, row) - Clamp(y1, row)
  {
    var w := Walk(y1, y2, x1, x2);
    LineCover(w, w.Cells() + 1, row);
  }

  // ------------------------------------------------------------------ where a line's cells lie

  predicate Between(v: int, a: int, b: int) {
    a <= v <= b || b <= v <= a
  }

  /** A run along a scanline stays between its end cells. */
  lemma ScanInside(w: Walk, k: nat)
    requires k <= w.Cells()
    ensures Between(Whole(w.from) + w.Direction() * k, Whole(w.from), Whole(w.to))
    ensures k == w.Cells() ==> Whole(w.from) + w.Direction() * k == Whole(w.to)
    ensures k < w.Cells() ==> Whole(w.from) + w.Direction() * k != Whole(w.to)
  {
  }

  /** The cells of a run as the source computes them: the first, the ones between, and the last. */
  lemma CellsOfRun(ey: int, w: Walk, k: nat)
    requires 1 <= w.Cells() && k <= w.Cells()
    ensures var cover, first := w.At(k + 1) - w.At(k), if w.Forward() then BASE else 0;
            ScanCell(ey, w, k) ==
              if k == 0 then
                Deposit(Whole(w.from), ey, w.At(1) - w.start, (Fraction(w.from) + first) * (w.At(1) - w.start))
              else if k < w.Cells() then Deposit(Whole(w.from) + w.Direction() * k, ey, cover, BASE * cover)
              else Deposit(Whole(w.to), ey, w.stop - w.At(k), (Fraction(w.to) + BASE - first) * (w.stop - w.At(k)))
  {
    ScanInside(w, k);
  }

  /** A run of no height deposits nothing. */
  lemma {:induction false} FlatScan(ey: int, w: Walk, n: nat)
    requires w.start == w.stop && n <= w.Cells() + 1
    ensures ScanCells(ey, w, n) == []
  {
    if n > 0 {
      FlatScan(ey, w, n - 1);
      AtBetween(w, n - 1);
      AtBetween(w, n);
    }
  }

  lemma FlatScanline(ey: int, w: Walk)
    requires w.start == w.stop
    ensures Scanline(ey, w) == []
  {
    FlatScan(ey, w, w.Cells() + 1);
  }

  /** A run within one cell is a single deposit. */
  lemma SingleCell(ey: int, w: Walk)
    requires w.Cells() == 0
    ensures Scanline(ey, w)
            == Deposit(Whole(w.from), ey, w.stop - w.start, (Fraction(w.from) + Fraction(w.to)) * (w.stop - w.start))
  {
    assert ScanCells(ey, w, 1) == ScanCells(ey, w, 0) + ScanCell(ey, w, 0);
    assert w.At(0) == w.start && w.At(1) == w.stop;
  }

  /** The rows of a line as the source walks them: the first, the ones between, and the last. */
  lemma RowsOfLine(w: Walk, k: nat)
    requires 1 <= w.Cells() && k <= w.Cells()
    ensures var first := if w.Forward() then BASE else 0;
            RowWalk(w, k) ==
              if k == 0 then Walk(w.start, w.At(1), Fraction(w.from), first)
              else if k < w.Cells() then Walk(w.At(k), w.At(k + 1), BASE - first, first)
              else Walk(w.At(k), w.stop, BASE - first, Fraction(w.to))
  {
  }

  /** A row of a vertical line is a single deposit. */
  lemma VerticalRow(w: Walk, k: nat)
    requires w.start == w.stop && k <= w.Cells()
    ensures Scanline(RowOf(w, k), RowWalk(w, k))
            == Deposit(Whole(w.start), RowOf(w, k), w.Leave(k) - w.Enter(k),
                       2 * Fraction(w.start) * (w.Leave(k) - w.Enter(k)))
  {
    AtBetween(w, k);
    AtBetween(w, k + 1);
    SingleCell(RowOf(w, k), RowWalk(w, k));
    assert Fraction(w.start) + Fraction(w.start) == 2 * Fraction(w.start);
  }

  /** The crossings of a line lie in the columns between its ends. */
  lemma ColumnsBetween(w: Walk, k: int)
    ensures Between(Whole(w.At(k)), Whole(w.start), Whole(w.stop))
  {
    AtBetween(w, k);
  }

  lemma RowsStart(w: Walk)
    ensures LineCells(w, 0) == [] && LineCells(w, 1) == Scanline(RowOf(w, 0), RowWalk(w, 0))
    ensures RowOf(w, 0) == Whole(w.from)
    ensures Line(w.start, w.from, w.stop, w.to)
            == LineCells(w, w.Cells()) + Scanline(RowOf(w, w.Cells()), RowWalk(w, w.Cells()))
    ensures w.Cells() == 0 <==> Whole(w.from) == Whole(w.to)
    ensures w.Cells() == 0 ==> RowWalk(w, 0) == Walk(w.start, w.stop, Fraction(w.from), Fraction(w.to))
  {
  }

  lemma EndOfWalk(w: Walk)
    ensures w.At(w.Cells() + 1) == w.stop
  {
  }

  lemma OneMoreRow(w: Walk, k: nat)
    ensures LineCells(w, k + 1) == LineCells(w, k) + Scanline(RowOf(w, k), RowWalk(w, k))
  {
  }

  /** 32-bit arithmetic suffices for every product of the incremental division. */
  lemma ProductsFit(w: Walk)
    requires -0x80_0000 < w.stop - w.start < 0x80_0000
    ensures IsInt32((BASE - Fraction(w.from)) * (w.stop - w.start))
    ensures IsInt32(Fraction(w.from) * (w.stop - w.start))
    ensures IsInt32(BASE * (w.stop - w.start))
  {
    Scale(BASE - Fraction(w.from), w.stop - w.start, BASE);
    Scale(Fraction(w.from), w.stop - w.start, BASE);
  }

  // ------------------------------------------------------------------ paths

  /** Where a path stands: the current point, the start of the contour, and everything deposited so far. */
  datatype Pen = Pen(x: int, y: int, homeX: int, homeY: int, cells: seq<Cell>)
  {
    /** `line_to`. */
    function LineTo(px: int, py: int): Pen {
      Pen(px, py, homeX, homeY, cells + Line(x, y, px, py))
    }

    /** The line back to the start of the contour. */
    function Closed(): Pen { LineTo(homeX, homeY) }

    /** `move_to` closes the contour first. */
    function MoveTo(px: int, py: int): Pen {
      Pen(px, py, px, py, Closed().cells)
    }

    /** In every row the covers add up to the height from the start of the contour to the current point. */
    ghost predicate Conserves() {
      forall row :: RowCover(cells, row) == Clamp(y, row) - Clamp(homeY, row)
    }
  }

  function Start(px: int, py: int): Pen {
    Pen(px, py, px, py, [])
  }

  lemma StartConserves(px: int, py: int)
    ensures Start(px, py).Conserves()
  {
    forall row ensures RowCover(Start(px, py).cells, row) == Clamp(py, row) - Clamp(py, row) {
      NoCells(row);
    }
  }

  lemma LineToConserves(p: Pen, px: int, py: int)
    requires p.Conserves()
    ensures p.LineTo(px, py).Conserves()
  {
    hide Clamp, Line, RowCover;
    forall row ensures RowCover(p.LineTo(px, py).cells, row) == Clamp(py, row) - Clamp(p.homeY, row) {
      SumsConcat(p.cells, Line(p.x, p.y, px, py), 0, row);
      LineConservation(p.x, p.y, px, py, row);
    }
  }

  /** A closed contour has no net cover in any row. */
  lemma ClosedHasNoCover(p: Pen, row: int)
    requires p.Conserves()
    ensures RowCover(p.Closed().cells, row) == 0
  {
    LineToConserves(p, p.homeX, p.homeY);
  }

  /** A closed contour conserves wherever the next one starts. */
  lemma NextContour(p: Pen, px: int, py: int)
    requires p.Conserves() && p.y == p.homeY
    ensures Pen(px, py, px, py, p.cells).Conserves()
  {
  }

  lemma MoveToConserves(p: Pen, px: int, py: int)
    requires p.Conserves()
    ensures p.MoveTo(px, py).Conserves()
  {
    forall row ensures RowCover(p.MoveTo(px, py).cells, row) == 0 {
      ClosedHasNoCover(p, row);
    }
  }

  /** A line to the current point deposits nothing. */
  lemma NoLine(x: int, y: int)
    ensures Line(x, y, x, y) == []
  {
    var w := Walk(y, y, x, x);
    RowsStart(w);
    FlatScanline(Whole(y), RowWalk(w, 0));
  }

  datatype Command = MoveTo(x: int, y: int) | LineTo(x: int, y: int)

  /** The pen after a list of commands. */
  function Follow(p: Pen, commands: seq<Command>): Pen {
    if commands == [] then p
    else
      var before, last := Follow(p, commands[..|commands| - 1]), commands[|commands| - 1];
      if last.MoveTo? then before.MoveTo(last.x, last.y) else before.LineTo(last.x, last.y)
  }

  /** Everything a path deposits, from its first move_to to the closing of its last contour. */
  function PathCells(commands: seq<Command>): seq<Cell>
    requires commands != []
  {
    Follow(Start(commands[0].x, commands[0].y), commands[1..]).Closed().cells
  }

  lemma {:induction false} FollowConserves(p: Pen, commands: seq<Command>)
    requires p.Conserves()
    ensures Follow(p, commands).Conserves()
  {
    hide Pen.Conserves, Pen.LineTo, Pen.MoveTo;
    if commands != [] {
      var before, last := Follow(p, commands[..|commands| - 1]), commands[|commands| - 1];
      FollowConserves(p, commands[..|commands| - 1]);
      MoveToConserves(before, last.x, last.y);
      LineToConserves(before, last.x, last.y);
    }
  }

  /** Closed-contour conservation: whatever the path, the covers of every row add up to zero. */
  lemma PathConservation(commands: seq<Command>, row: int)
    requires commands != []
    ensures RowCover(PathCells(commands), row) == 0
  {
    hide Pen.Conserves;
    StartConserves(commands[0].x, commands[0].y);
    FollowConserves(Start(commands[0].x, commands[0].y), commands[1..]);
    ClosedHasNoCover(Follow(Start(commands[0].x, commands[0].y), commands[1..]), row);
  }
}
