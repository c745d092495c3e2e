/**
 What the sweep over sorted cells finds at every pixel (`rasterizer::render` of pixmapgraphics.mod/agg.h), and when
 that is the coverage of the pixel.
 */
module AggSweep {
  import opened AggCoverage
  import opened AggGeometry
  import opened AggOutline
  import opened AggSort
  import opened Int32

  // ------------------------------------------------------------------ order

  predicate Before(x1: int, y1: int, x2: int, y2: int) {
    y1 < y2 || (y1 == y2 && x1 < x2)
  }

  /** Cells in scan order. */
  ghost predicate InOrder(s: seq<Cell>) {
    forall i, j :: 0 <= i < j < |s| ==> !Before(s[j].x, s[j].y, s[i].x, s[i].y)
  }

  ghost predicate AllFit(cs: seq<Cell>) {
    forall i :: 0 <= i < |cs| ==> Fits(cs[i].x, cs[i].y)
  }

  /** The packed order puts the cells that wrap behind all others, as if they were in a row of their own. */
  function SweepRow(x: int, y: int): int {
    if Wraps(x, y) then 0x8000 else y
  }

  /** The row that is meant. */
  function LowerRow(row: int): int {
    if row == 0x8000 then -0x8000 else row
  }

  function Lift(c: Cell): Cell { c.(y := SweepRow(c.x, c.y)) }

  /** Cells as the packed order sees them. */
  function Lifted(cs: seq<Cell>): (s: seq<Cell>)
    ensures |s| == |cs| && forall i :: 0 <= i < |cs| ==> s[i] == Lift(cs[i])
  {
    if cs == [] then [] else Lifted(cs[..|cs| - 1]) + [Lift(cs[|cs| - 1])]
  }

  /** Packed order is scan order once the cells are lifted. */
  lemma PackedOrder(cs: seq<Cell>)
    requires SortedRange(cs, 0, |cs|) && AllFit(cs)
    ensures InOrder(Lifted(cs))
  {
    hide Cell.Packed;
    var s := Lifted(cs);
    forall i, j | 0 <= i < j < |s| ensures !Before(s[j].x, s[j].y, s[i].x, s[i].y) {
      assert !Less(cs[j], cs[i]);
      PackedFits(cs[j], cs[i]);
      PackedFits(cs[i], cs[j]);
    }
  }

  // ------------------------------------------------------------------ sums

  function Total(cs: seq<Cell>): int {
    if cs == [] then 0 else Total(cs[..|cs| - 1]) + cs[|cs| - 1].cover
  }

  /** Covers in rows above y. */
  function Above(cs: seq<Cell>, y: int): int {
    if cs == [] then 0 else Above(cs[..|cs| - 1], y) + if cs[|cs| - 1].y < y then cs[|cs| - 1].cover else 0
  }

  lemma {:induction false} AboveNextRow(cs: seq<Cell>, y: int)
    ensures Above(cs, y + 1) == Above(cs, y) + RowCover(cs, y)
  {
    if cs != [] { AboveNextRow(cs[..|cs| - 1], y); }
  }

  lemma {:induction false} NothingAbove(cs: seq<Cell>, y: int)
    requires forall c :: c in cs ==> y <= c.y
    ensures Above(cs, y) == 0
  {
    if cs != [] {
      assert cs[|cs| - 1] in cs;
      NothingAbove(cs[..|cs| - 1], y);
    }
  }

  /** In 32-bit arithmetic no row has net cover. */
  ghost predicate Flat(cs: seq<Cell>) {
    forall row :: Same(RowCover(cs, row), 0)
  }

  /** Then neither have all the rows above a row together. */
  lemma {:induction false} AboveIsZero(cs: seq<Cell>, y: int)
    requires Flat(cs) && AllFit(cs) && y >= -0x8000
    ensures Same(Above(cs, y), 0)
    decreases y + 0x8000
  {
    hide AsInt32;
    if y == -0x8000 {
      NothingAbove(cs, y);
    } else {
      AboveIsZero(cs, y - 1);
      AboveNextRow(cs, y - 1);
      SameSum(Above(cs, y - 1), 0, RowCover(cs, y - 1), 0);
    }
  }

  /** Cells outside a pixel's scope contribute nothing to its sums. */
  lemma {:induction false} DropTail(s: seq<Cell>, k: nat, x: int, y: int)
    requires k <= |s| && forall i :: k <= i < |s| ==> Before(x, y, s[i].x, s[i].y)
    ensures Left(s, x, y) == Left(s[..k], x, y) && Area(s, x, y) == Area(s[..k], x, y)
    ensures Above(s, y) == Above(s[..k], y)
    decreases |s|
  {
    if k < |s| {
      assert s[..|s| - 1][..k] == s[..k];
      DropTail(s[..|s| - 1], k, x, y);
    } else {
      assert s[..k] == s;
    }
  }

  /** Cells at or before (x, y): their covers are those above and those to the left. */
  lemma {:induction false} TotalSplits(cs: seq<Cell>, x: int, y: int)
    requires forall i :: 0 <= i < |cs| ==> !Before(x, y, cs[i].x, cs[i].y)
    ensures Total(cs) == Above(cs, y) + Left(cs, x, y)
  {
    if cs != [] { TotalSplits(cs[..|cs| - 1], x, y); }
  }

  lemma {:induction false} TotalAbove(cs: seq<Cell>, row: int)
    requires forall i :: 0 <= i < |cs| ==> cs[i].y < row
    ensures Total(cs) == Above(cs, row)
  {
    if cs != [] { TotalAbove(cs[..|cs| - 1], row); }
  }

  lemma {:induction false} NothingLeft(cs: seq<Cell>, x: int, y: int)
    requires forall i :: 0 <= i < |cs| ==> !(cs[i].y == y && cs[i].x <= x)
    ensures Left(cs, x, y) == 0
  {
    if cs != [] { NothingLeft(cs[..|cs| - 1], x, y); }
  }

  lemma {:induction false} AllLeft(cs: seq<Cell>, x: int, y: int)
    requires forall i :: 0 <= i < |cs| ==> cs[i].y == y ==> cs[i].x <= x
    ensures Left(cs, x, y) == RowCover(cs, y)
  {
    if cs != [] { AllLeft(cs[..|cs| - 1], x, y); }
  }

  lemma {:induction false} NoArea(cs: seq<Cell>, x: int, y: int)
    requires forall i :: 0 <= i < |cs| ==> !(cs[i].y == y && cs[i].x == x)
    ensures Area(cs, x, y) == 0
  {
    if cs != [] { NoArea(cs[..|cs| - 1], x, y); }
  }

  lemma CancelOne(m: multiset<Cell>, n: multiset<Cell>, c: Cell)
    requires m + multiset{c} == n + multiset{c}
    ensures m == n
  {
    assert m == m + multiset{c} - multiset{c};
    assert n == n + multiset{c} - multiset{c};
  }

  /** Sums do not depend on the order of the cells. */
  lemma {:induction false} SumsPermute(a: seq<Cell>, b: seq<Cell>, x: int, y: int)
    requires multiset(a) == multiset(b)
    ensures Left(a, x, y) == Left(b, x, y) && Area(a, x, y) == Area(b, x, y) && RowCover(a, y) == RowCover(b, y)
  {
    if a == [] {
      assert |multiset(b)| == |b|;
    } else {
      var c, rest := a[|a| - 1], a[..|a| - 1];
      assert a == rest + [c];
      assert c in multiset(b);
      var i :| 0 <= i < |b| && b[i] == c;
      assert b == b[..i] + [c] + b[i + 1..];
      assert multiset(a) == multiset(rest) + multiset{c};
      assert multiset(b) == multiset(b[..i]) + multiset{c} + multiset(b[i + 1..]);
      CancelOne(multiset(rest), multiset(b[..i]) + multiset(b[i + 1..]), c);
      SumsPermute(rest, b[..i] + b[i + 1..], x, y);
      SumsConcat(b[..i], b[i + 1..], x, y);
      SumsConcat(b[..i] + [c], b[i + 1..], x, y);
      SumsConcat(b[..i], [c], x, y);
      SumsConcat(rest, [c], x, y);
    }
  }

  // ------------------------------------------------------------------ the running cover

  /** The covers that the packed order misplaces: those of the cells that wrap. */
  function Misplaced(cs: seq<Cell>): int {
    Left(cs, -1, -0x8000)
  }

  lemma {:induction false} LiftedSums(cs: seq<Cell>, x: int, y: int)
    requires AllFit(cs) && Fits(x, y)
    ensures Left(Lifted(cs), x, SweepRow(x, y)) == Left(cs, x, y) - if y == -0x8000 && x >= 0 then Misplaced(cs) else 0
    ensures Area(Lifted(cs), x, SweepRow(x, y)) == Area(cs, x, y)
  {
    if cs != [] {
      LiftedSums(cs[..|cs| - 1], x, y);
      assert Lifted(cs)[..|cs| - 1] == Lifted(cs[..|cs| - 1]);
    }
  }

  lemma {:induction false} LiftedAbove(cs: seq<Cell>, row: int)
    requires AllFit(cs) && row >= -0x8000
    ensures Above(Lifted(cs), row) == Above(cs, row) - if -0x8000 < row <= 0x8000 then Misplaced(cs) else 0
  {
    if cs != [] {
      LiftedAbove(cs[..|cs| - 1], row);
      assert Lifted(cs)[..|cs| - 1] == Lifted(cs[..|cs| - 1]);
    }
  }

  /** The cells are cut at (x, row): the first k are at or before it, the others after it. */
  ghost predicate CutAt(s: seq<Cell>, k: nat, x: int, row: int) {
    && k <= |s| && (forall i :: 0 <= i < k ==> !Before(x, row, s[i].x, s[i].y))
    && forall i :: k <= i < |s| ==> Before(x, row, s[i].x, s[i].y)
  }

  lemma SumOfZero(zero: int, v: int)
    requires Same(zero, 0)
    ensures Same(zero + v, v)
  {
    SameSum(zero, 0, v, v);
  }

  /**
   The running sum that the sweep never resets: at every position it is the cover at or left of that position in
   its own row, less what the packed order misplaces.
   */
  lemma RunningCover(cs: seq<Cell>, k: nat, x: int, y: int)
    requires AllFit(cs) && Flat(cs) && Fits(x, y) && CutAt(Lifted(cs), k, x, SweepRow(x, y))
    ensures Same(Total(Lifted(cs)[..k]), Left(cs, x, y) - Misplaced(cs))
  {
    hide Left, Area, Above, Total, RowCover, AsInt32, Same;
    var s, row := Lifted(cs), SweepRow(x, y);
    TotalSplits(s[..k], x, row);
    DropTail(s, k, x, row);
    LiftedSums(cs, x, y);
    LiftedAbove(cs, row);
    AboveIsZero(cs, row);
    assert Total(s[..k]) == Above(cs, row) + (Left(cs, x, y) - Misplaced(cs));
    SumOfZero(Above(cs, row), Left(cs, x, y) - Misplaced(cs));
  }

  /** So the running cover is right exactly when the misplaced covers add up to zero. */
  lemma RunningCoverIff(cs: seq<Cell>, k: nat, x: int, y: int)
    requires AllFit(cs) && Flat(cs) && Fits(x, y) && CutAt(Lifted(cs), k, x, SweepRow(x, y))
    ensures Same(Total(Lifted(cs)[..k]), Left(cs, x, y)) <==> Same(Misplaced(cs), 0)
  {
    hide Left, Area, Above, Total, RowCover, AsInt32;
    RunningCover(cs, k, x, y);
    var left, lost, run := Left(cs, x, y), Misplaced(cs), Total(Lifted(cs)[..k]);
    if Same(lost, 0) { SameSum(left, left, lost, 0); }
    if Same(run, left) { SameSum(left, left, left - lost, left); }
  }

  lemma NoSum(a: int, b: int)
    requires Same(a, 0) && Same(b, 0)
    ensures Same(a - b, 0)
  {
    SameSum(a, 0, b, 0);
  }

  lemma CutRows(cs: seq<Cell>, k: nat, row: int)
    requires AllFit(cs) && k <= |cs|
    requires forall i :: 0 <= i < k ==> Lifted(cs)[i].y < row
    requires forall i :: k <= i < |cs| ==> Lifted(cs)[i].y >= row
    ensures Total(Lifted(cs)[..k]) == Above(Lifted(cs), row)
  {
    hide Left, Area, Above, Total;
    var s := Lifted(cs);
    TotalAbove(s[..k], row);
    DropTail(s, k, -0x8001, row);
  }

  /** Between the rows it is zero, if nothing is misplaced. */
  lemma RowDone(cs: seq<Cell>, k: nat, row: int)
    requires AllFit(cs) && Flat(cs) && Same(Misplaced(cs), 0) && k <= |cs| && row >= -0x8000
    requires forall i :: 0 <= i < k ==> Lifted(cs)[i].y < row
    requires forall i :: k <= i < |cs| ==> Lifted(cs)[i].y >= row
    ensures Same(Total(Lifted(cs)[..k]), 0)
  {
    hide Left, Above, Total, RowCover, AsInt32, Same, Misplaced, AllFit, Flat, Lifted;
    CutRows(cs, k, row);
    LiftedAbove(cs, row);
    AboveIsZero(cs, row);
    NoSum(Above(cs, row), Misplaced(cs));
  }

  // ------------------------------------------------------------------ what the sweep finds

  /** How many cells lie at or before (x, y). */
  function Upto(s: seq<Cell>, x: int, y: int): (k: nat)
    ensures k <= |s| && (k > 0 ==> !Before(x, y, s[k - 1].x, s[k - 1].y))
    ensures forall i :: k <= i < |s| ==> Before(x, y, s[i].x, s[i].y)
  {
    if s == [] then 0
    else if Before(x, y, s[|s| - 1].x, s[|s| - 1].y) then Upto(s[..|s| - 1], x, y)
    else |s|
  }

  lemma UptoIs(s: seq<Cell>, k: nat, x: int, y: int)
    requires InOrder(s) && k <= |s| && (k > 0 ==> !Before(x, y, s[k - 1].x, s[k - 1].y))
    requires k < |s| ==> Before(x, y, s[k].x, s[k].y)
    ensures Upto(s, x, y) == k && CutAt(s, k, x, y)
  {
    forall i | 0 <= i < k ensures !Before(x, y, s[i].x, s[i].y) {
      if i < k - 1 { assert !Before(s[k - 1].x, s[k - 1].y, s[i].x, s[i].y); }
    }
    forall i | k <= i < |s| ensures Before(x, y, s[i].x, s[i].y) {
      if i > k { assert !Before(s[i].x, s[i].y, s[k].x, s[k].y); }
    }
  }

  lemma UptoCuts(s: seq<Cell>, x: int, y: int)
    requires InOrder(s)
    ensures CutAt(s, Upto(s, x, y), x, y)
  {
    UptoIs(s, Upto(s, x, y), x, y);
  }

  /**
   The alpha of a pixel in the sweep over s. A group of cells with an area covers its own pixel in part. From there
   to the next cell all pixels of the row are covered equally, whatever row the next cell is in.
   */
  function RunAlpha(s: seq<Cell>, evenOdd: bool, x: int, y: int): Level {
    var k := Upto(s, x, y);
    if k == 0 then 0
    else if s[k - 1].x == x && s[k - 1].y == y && AsInt32(Area(s, x, y)) != 0 then
      Alpha(evenOdd, AsInt32(512 * Total(s[..k]) - Area(s, x, y)))
    else if k < |s| && s[k - 1].y == y && x < s[k].x then
      Alpha(evenOdd, AsInt32(512 * Total(s[..k])))
    else 0
  }

  function RunShade(s: seq<Cell>, evenOdd: bool): Shade {
    (x: int, y: int) => RunAlpha(s, evenOdd, x, y)
  }

  /** The same for cells as they are, in packed order. */
  function SweptAlpha(cs: seq<Cell>, evenOdd: bool, x: int, y: int): Level {
    if Fits(x, y) then RunAlpha(Lifted(cs), evenOdd, x, SweepRow(x, y)) else 0
  }

  function SweptShade(cs: seq<Cell>, evenOdd: bool): Shade {
    (x: int, y: int) => SweptAlpha(cs, evenOdd, x, y)
  }

  /** Outside the 16-bit range nothing is covered. */
  lemma NothingOutside(cs: seq<Cell>, evenOdd: bool, x: int, y: int)
    requires AllFit(cs) && Flat(cs) && !Fits(x, y)
    ensures PixelAlpha(cs, evenOdd, x, y) == 0
  {
    hide AsInt32;
    SameWrapped(0);
    NoArea(cs, x, y);
    if x > 0x7FFF { AllLeft(cs, x, y); } else { NothingLeft(cs, x, y); }
    SameSum(Left(cs, x, y), 0, 0, 0);
  }

  /** Where the sweep finds nothing, nothing is covered. */
  lemma RunIsOver(cs: seq<Cell>, k: nat, x: int, row: int)
    requires AllFit(cs) && Flat(cs) && Same(Misplaced(cs), 0) && InOrder(Lifted(cs)) && -0x8000 <= row <= 0x8000
    requires var s := Lifted(cs);
             CutAt(s, k, x, row) && (k == 0 || s[k - 1].y != row || k == |s| || x >= s[k].x)
    ensures Same(Total(Lifted(cs)[..k]), 0)
  {
    hide Total, RowCover, AsInt32, Left;
    var s := Lifted(cs);
    var next := if k == 0 || s[k - 1].y != row then row else if k == |s| then 0x8001 else s[k].y;
    forall i | 0 <= i < k ensures s[i].y < next {
      if i < k - 1 { assert !Before(s[k - 1].x, s[k - 1].y, s[i].x, s[i].y); }
    }
    forall i | k <= i < |s| ensures s[i].y >= next {
      if i > k { assert !Before(s[i].x, s[i].y, s[k].x, s[k].y); }
    }
    RowDone(cs, k, next);
  }

  lemma NoAreaAt(s: seq<Cell>, k: nat, x: int, y: int)
    requires InOrder(s) && CutAt(s, k, x, y) && (k == 0 || s[k - 1].x != x || s[k - 1].y != y)
    ensures Area(s, x, y) == 0
  {
    forall i | 0 <= i < |s| ensures !(s[i].y == y && s[i].x == x) {
      if i < k - 1 { assert !Before(s[k - 1].x, s[k - 1].y, s[i].x, s[i].y); }
    }
    NoArea(s, x, y);
  }

  /** Sums that look the same give the same alpha. */
  lemma AlphaSame(evenOdd: bool, run: int, left: int, area: int)
    requires Same(run, left)
    ensures AsInt32(512 * run - area) == AsInt32(512 * left - area)
    ensures Same(area, 0) <==> AsInt32(area) == 0
    ensures Same(area, 0) ==> AsInt32(512 * run) == AsInt32(512 * left - area)
    ensures Same(area, 0) && Same(run, 0) ==> Alpha(evenOdd, AsInt32(512 * left - area)) == 0
  {
    hide AsInt32, Alpha;
    SameWrapped(0);
    SameSum(run, left, 0, 0);
    SameSum(512 * run, 512 * left, area, area);
    if Same(area, 0) {
      SameSum(512 * run, 512 * left, 0, area);
      if Same(run, 0) { SameSum(run, 0, 0, 0); }
    }
  }

  /** What the sweep finds is the coverage, if nothing is misplaced. */
  lemma SweptIsCovered(cs: seq<Cell>, evenOdd: bool, x: int, y: int)
    requires AllFit(cs) && Flat(cs) && Same(Misplaced(cs), 0) && InOrder(Lifted(cs))
    ensures SweptAlpha(cs, evenOdd, x, y) == PixelAlpha(cs, evenOdd, x, y)
  {
    hide Left, Area, Total, RowCover, AsInt32, Alpha, Lifted, Before, CutAt, InOrder, Flat, AllFit, Misplaced;
    if Fits(x, y) {
      var s, row := Lifted(cs), SweepRow(x, y);
      var k := Upto(s, x, row);
      UptoCuts(s, x, row);
      LiftedSums(cs, x, y);
      RunningCoverIff(cs, k, x, y);
      AlphaSame(evenOdd, Total(s[..k]), Left(cs, x, y), Area(cs, x, y));
      if k == 0 || s[k - 1].x != x || s[k - 1].y != row { NoAreaAt(s, k, x, row); }
      if k == 0 || s[k - 1].y != row || k == |s| || x >= s[k].x { RunIsOver(cs, k, x, row); }
    } else {
      NothingOutside(cs, evenOdd, x, y);
    }
  }

  /** At the last wrapping column the sweep has lost everything to the left, so without an area it finds nothing. */
  lemma LastWrapping(cs: seq<Cell>, evenOdd: bool)
    requires AllFit(cs) && Flat(cs) && InOrder(Lifted(cs)) && Same(Area(cs, -1, -0x8000), 0)
    ensures SweptAlpha(cs, evenOdd, -1, -0x8000) == 0
  {
    hide Left, Area, Total, RowCover, AsInt32, Alpha, CutAt, InOrder, Flat, AllFit, Lifted;
    var s := Lifted(cs);
    var k := Upto(s, -1, 0x8000);
    UptoCuts(s, -1, 0x8000);
    LiftedSums(cs, -1, -0x8000);
    RunningCover(cs, k, -1, -0x8000);
    SameWrapped(0);
    SameSum(Total(s[..k]), 0, 0, 0);
  }

  // ------------------------------------------------------------------ the groups of the sweep

  /** One more cell of a group. */
  lemma PrefixStep(s: seq<Cell>, k: nat, x: int, y: int)
    requires k < |s|
    ensures Total(s[..k + 1]) == Total(s[..k]) + s[k].cover
    ensures Area(s[..k + 1], x, y) == Area(s[..k], x, y) + if s[k].x == x && s[k].y == y then s[k].area else 0
  {
    assert s[..k + 1][..k] == s[..k];
  }

  /** Nothing of a group lies before its first cell. */
  lemma GroupStarts(s: seq<Cell>, k: nat)
    requires InOrder(s) && k < |s| && (k == 0 || Before(s[k - 1].x, s[k - 1].y, s[k].x, s[k].y))
    ensures Area(s[..k], s[k].x, s[k].y) == 0
    ensures forall i :: 0 <= i < k ==> Before(s[i].x, s[i].y, s[k].x, s[k].y)
  {
    forall i | 0 <= i < k ensures Before(s[i].x, s[i].y, s[k].x, s[k].y) {
      if i < k - 1 { assert !Before(s[k - 1].x, s[k - 1].y, s[i].x, s[i].y); }
    }
    NoArea(s[..k], s[k].x, s[k].y);
  }

  /** A group ends before index k. */
  ghost predicate GroupEnd(s: seq<Cell>, k: nat) {
    InOrder(s) && 0 < k <= |s| && (k == |s| || Before(s[k - 1].x, s[k - 1].y, s[k].x, s[k].y))
  }

  /** Then its area is complete, and its pixel is at the end of the first k cells. */
  lemma GroupEnds(s: seq<Cell>, k: nat)
    requires GroupEnd(s, k)
    ensures Area(s, s[k - 1].x, s[k - 1].y) == Area(s[..k], s[k - 1].x, s[k - 1].y)
    ensures Upto(s, s[k - 1].x, s[k - 1].y) == k
  {
    hide Area;
    var g := s[k - 1];
    UptoIs(s, k, g.x, g.y);
    DropTail(s, k, g.x, g.y);
  }

  /** The pixel of a group that has an area. */
  lemma GroupPixel(s: seq<Cell>, evenOdd: bool, k: nat)
    requires GroupEnd(s, k) && AsInt32(Area(s, s[k - 1].x, s[k - 1].y)) != 0
    ensures var g := s[k - 1];
            RunAlpha(s, evenOdd, g.x, g.y) == Alpha(evenOdd, AsInt32(512 * Total(s[..k]) - Area(s, g.x, g.y)))
  {
    hide Area, Total, AsInt32, Alpha;
    GroupEnds(s, k);
  }

  /** Before the first cell nothing is found. */
  lemma BeforeFirst(s: seq<Cell>, evenOdd: bool, u: int, v: int)
    requires InOrder(s) && s != [] && Before(u, v, s[0].x, s[0].y)
    ensures RunAlpha(s, evenOdd, u, v) == 0
  {
    UptoIs(s, 0, u, v);
  }

  /** The pixels just after a group, or at it if it has no area, up to the next cell. */
  lemma GapPixels(s: seq<Cell>, evenOdd: bool, k: nat, x: int, u: int, v: int)
    requires GroupEnd(s, k) && k < |s|
    requires x == s[k - 1].x + 1 || (x == s[k - 1].x && AsInt32(Area(s, x, s[k - 1].y)) == 0)
    requires !Before(u, v, x, s[k - 1].y) && Before(u, v, s[k].x, s[k].y)
    ensures RunAlpha(s, evenOdd, u, v)
            == if v == s[k - 1].y && u < s[k].x then Alpha(evenOdd, AsInt32(512 * Total(s[..k]))) else 0
  {
    hide Area, Total, AsInt32, Alpha;
    UptoIs(s, k, u, v);
  }

  lemma AfterLast(s: seq<Cell>, evenOdd: bool, x: int, u: int, v: int)
    requires InOrder(s) && s != []
    requires var g := s[|s| - 1];
             (x == g.x + 1 || (x == g.x && AsInt32(Area(s, x, g.y)) == 0)) && !Before(u, v, x, g.y)
    ensures RunAlpha(s, evenOdd, u, v) == 0
  {
    hide Area, Total, AsInt32, Alpha;
    UptoIs(s, |s|, u, v);
  }

  /** What is found lies in the columns of the cells, and in rows that the order has. */
  lemma FoundInside(cs: seq<Cell>, evenOdd: bool, u: int, v: int)
    requires AllFit(cs) && RunAlpha(Lifted(cs), evenOdd, u, v) != 0
    ensures Fits(u, LowerRow(v)) && SweepRow(u, LowerRow(v)) == v
    ensures exists i :: 0 <= i < |cs| && Lifted(cs)[i].y == v
  {
    hide Area, Total, AsInt32, Alpha;
    var s := Lifted(cs);
    var k := Upto(s, u, v);
    assert s[k - 1].y == v;
    if k < |s| { assert s[k] == Lift(cs[k]); }
  }
}
