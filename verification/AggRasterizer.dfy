/** `rasterizer` of pixmapgraphics.mod/agg.h: a path is swept into pixels. */
module AggRasterizer {
  import opened AggCoverage
  import opened AggDelivery
  import opened AggGeometry
  import opened AggLimits
  import opened AggOutline
  import opened AggScanline
  import opened AggSort
  import opened AggSweep
  import opened Int32

  /** Every column that row y of the scanline takes up lies before (x, row) in packed order. */
  ghost predicate TakenBefore(minX: int, y: int, taken: set<nat>, x: int, row: int) {
    forall c :: c in taken ==> Before(minX + c, SweepRow(minX + c, y), x, row)
  }

  /**
   Where the sweep stands, at column x of a row as the packed order counts them: what is still in the scanline and
   what has been drawn is everything delivered so far.
   */
  ghost predicate Flowing(sl: Scanline, r: Renderer, drawn0: seq<Pixel>, done: seq<Pixel>, px: seq<Pixel>,
                          x: int, row: int)
    reads sl, sl.covers, sl.starts, sl.counts, r
  {
    && sl.Valid() && Lower(px) == done + sl.Pixels()
    && r.drawn == drawn0 + Clip(done, sl.dx, sl.dy, r.width, r.height)
    && TakenBefore(sl.minX, sl.lastY, sl.taken, x, row)
  }

  /** Moving on changes nothing of it. */
  lemma FlowsOn(sl: Scanline, r: Renderer, drawn0: seq<Pixel>, done: seq<Pixel>, px: seq<Pixel>,
                x: int, row: int, x': int, row': int)
    requires Flowing(sl, r, drawn0, done, px, x, row) && !Before(x', row', x, row)
    ensures Flowing(sl, r, drawn0, done, px, x', row')
  {
    hide Clip, LaidOut, Lower;
  }

  /** `if(is_ready(y)) { r.render(...); reset_spans(); }`. */
  method FlushRow(sl: Scanline, r: Renderer, y: int,
                  ghost drawn0: seq<Pixel>, ghost done0: seq<Pixel>, ghost px: seq<Pixel>, ghost x: int, ghost row: int)
    returns (ghost done: seq<Pixel>)
    requires Flowing(sl, r, drawn0, done0, px, x, row)
    modifies sl`lastX, sl`lastY, sl`numSpans, sl`spans, sl`taken, r`drawn
    ensures Flowing(sl, r, drawn0, done, px, x, row) && (sl.numSpans > 0 ==> sl.lastY == y)
  {
    hide Clip, LaidOut, Lower;
    done := done0;
    if sl.IsReady(y) {
      ClipConcat(done0, sl.Pixels(), sl.dx, sl.dy, r.width, r.height);
      r.Render(sl);
      sl.ResetSpans();
      done := Lower(px);
    }
  }

  /** A run of one row, as the packed order counts them. */
  ghost predicate OneRow(x: int, y: int, num: nat, row: int) {
    LowerRow(row) == y && forall u :: x <= u < x + num ==> SweepRow(u, y) == row
  }

  /** The columns of the next run are free. */
  lemma RunIsFree(sl: Scanline, r: Renderer, drawn0: seq<Pixel>, done: seq<Pixel>, px: seq<Pixel>,
                  x: int, y: int, num: nat, row: int)
    requires Flowing(sl, r, drawn0, done, px, x, row) && OneRow(x, y, num, row) && sl.minX <= x
    requires sl.numSpans > 0 ==> sl.lastY == y
    ensures sl.taken !! Columns(x - sl.minX, num)
  {
    hide Clip, Columns, Lower;
  }

  /** After a run every column taken lies before the next position. */
  lemma RunTaken(minX: int, lastY: int, taken: set<nat>, x: int, y: int, num: nat, row: int)
    requires TakenBefore(minX, lastY, taken, x, row)
    requires (taken == {} || lastY == y) && OneRow(x, y, num, row) && minX <= x
    ensures TakenBefore(minX, y, taken + Columns(x - minX, num), x + num, row)
  {
    hide Columns;
  }

  /** The taken columns of a scanline without spans. */
  lemma NoneTaken(sl: Scanline)
    requires sl.Valid()
    ensures sl.numSpans == 0 ==> sl.taken == {}
  {
  }

  /** The delivery of one cell. */
  method PutCell(sl: Scanline, r: Renderer, x: int, y: int, cover: nat, ghost row: int,
                 ghost drawn0: seq<Pixel>, ghost done0: seq<Pixel>, ghost px: seq<Pixel>)
    returns (ghost done: seq<Pixel>)
    requires Flowing(sl, r, drawn0, done0, px, x, row) && OneRow(x, y, 1, row)
    requires sl.minX <= x && x - sl.minX + 1 < sl.maxLen && x - sl.minX <= NOWHERE
    modifies sl`lastX, sl`lastY, sl`numSpans, sl`spans, sl`taken, sl.covers, sl.starts, sl.counts, r`drawn
    ensures Flowing(sl, r, drawn0, done, px + Fill(x, row, 1, cover), x + 1, row)
  {
    hide Clip, Fill, Lower, LaidOut, Columns, TakenBefore;
    done := FlushRow(sl, r, y, drawn0, done0, px, x, row);
    RunIsFree(sl, r, drawn0, done, px, x, y, 1, row);
    assert x - sl.minX in Columns(x - sl.minX, 1);
    NoneTaken(sl);
    RunTaken(sl.minX, sl.lastY, sl.taken, x, y, 1, row);
    LowerConcat(px, Fill(x, row, 1, cover));
    LowerFill(x, row, 1, cover);
    sl.AddCell(x, y, cover);
  }

  /** The delivery of a run. */
  method PutSpan(sl: Scanline, r: Renderer, x: int, y: int, num: nat, cover: nat, ghost row: int,
                 ghost drawn0: seq<Pixel>, ghost done0: seq<Pixel>, ghost px: seq<Pixel>)
    returns (ghost done: seq<Pixel>)
    requires Flowing(sl, r, drawn0, done0, px, x, row) && num > 0 && OneRow(x, y, num, row)
    requires sl.minX <= x && x - sl.minX + num < sl.maxLen && x - sl.minX <= NOWHERE
    modifies sl`lastX, sl`lastY, sl`numSpans, sl`spans, sl`taken, sl.covers, sl.starts, sl.counts, r`drawn
    ensures Flowing(sl, r, drawn0, done, px + Fill(x, row, num, cover), x + num, row)
  {
    hide Clip, Fill, Lower, LaidOut, Columns, TakenBefore;
    done := FlushRow(sl, r, y, drawn0, done0, px, x, row);
    RunIsFree(sl, r, drawn0, done, px, x, y, num, row);
    NoneTaken(sl);
    RunTaken(sl.minX, sl.lastY, sl.taken, x, y, num, row);
    LowerConcat(px, Fill(x, row, num, cover));
    LowerFill(x, row, num, cover);
    sl.AddSpan(x, y, num, cover);
  }

  /** The cells at one position: their sums in 32-bit arithmetic, and the running cover. */
  method Accumulate(sorted: array<Cell>, n: nat, k0: nat, cover0: int) returns (k: nat, area: int, cover: int)
    requires k0 < n <= sorted.Length && AllFit(sorted[..n]) && InOrder(Lifted(sorted[..n]))
    requires IsInt32(sorted[k0].area) && cover0 == AsInt32(Total(Lifted(sorted[..n])[..k0]))
    requires k0 == 0 || GroupEnd(Lifted(sorted[..n]), k0)
    ensures k0 < k <= n && GroupEnd(Lifted(sorted[..n]), k) && Lifted(sorted[..n])[k - 1] == Lift(sorted[k - 1])
    ensures sorted[k - 1].x == sorted[k0].x && sorted[k - 1].y == sorted[k0].y
    ensures area == AsInt32(Area(Lifted(sorted[..n]), sorted[k0].x, SweepRow(sorted[k0].x, sorted[k0].y)))
    ensures cover == AsInt32(Total(Lifted(sorted[..n])[..k]))
  {
    hide Total, Area, Cell.Packed, AsInt32, Lifted;
    ghost var s := Lifted(sorted[..n]);
    var coord, x, y := sorted[k0].Packed(), sorted[k0].x, sorted[k0].y;
    ghost var row := SweepRow(x, y);
    GroupStarts(s, k0);
    PrefixStep(s, k0, x, row);
    SameWrapped(sorted[k0].area);
    Added32(Total(s[..k0]), sorted[k0].cover);
    area, cover, k := sorted[k0].area, AsInt32(cover0 + sorted[k0].cover), k0 + 1;
    while k < n
      invariant k0 < k <= n && sorted[k - 1].x == x && sorted[k - 1].y == y
      invariant area == AsInt32(Area(s[..k], x, row)) && cover == AsInt32(Total(s[..k]))
    {
      PackedFits(sorted[k], sorted[k0]);
      if sorted[k].Packed() != coord {
        assert !Before(s[k].x, s[k].y, s[k0].x, s[k0].y);
        break;
      }
      PrefixStep(s, k, x, row);
      Added32(Area(s[..k], x, row), sorted[k].area);
      Added32(Total(s[..k]), sorted[k].cover);
      area, cover, k := AsInt32(area + sorted[k].area), AsInt32(cover + sorted[k].cover), k + 1;
    }
    GroupEnds(s, k);
  }

  /** The columns of the scanline take in every cell. */
  ghost predicate Wide(sl: Scanline, s: seq<Cell>)
    reads sl`minX, sl`maxLen
  {
    forall i :: 0 <= i < |s| ==> sl.minX <= s[i].x && s[i].x - sl.minX + 1 < sl.maxLen && s[i].x - sl.minX <= NOWHERE
  }

  /** The pixel of a group of cells, if the cells have any area; the position moves past it. */
  method SweepCell(sl: Scanline, r: Renderer, evenOdd: bool, gamma: Gamma, x0: int, y: int, area: int, cover: int,
                   ghost s: seq<Cell>, ghost k: nat, ghost drawn0: seq<Pixel>, ghost done0: seq<Pixel>,
                   ghost px0: seq<Pixel>)
    returns (x: int, ghost done: seq<Pixel>, ghost px: seq<Pixel>)
    requires GroupEnd(s, k) && s[k - 1].x == x0 && s[k - 1].y == SweepRow(x0, y) && Fits(x0, y)
    requires Flowing(sl, r, drawn0, done0, px0, x0, s[k - 1].y)
    requires ExactBefore(px0, RunShade(s, evenOdd), gamma, x0, s[k - 1].y)
    requires area == AsInt32(Area(s, x0, s[k - 1].y)) && cover == AsInt32(Total(s[..k]))
    requires sl.minX <= x0 && x0 - sl.minX + 1 < sl.maxLen && x0 - sl.minX <= NOWHERE
    modifies sl`lastX, sl`lastY, sl`numSpans, sl`spans, sl`taken, sl.covers, sl.starts, sl.counts, r`drawn
    ensures Flowing(sl, r, drawn0, done, px, x, s[k - 1].y)
    ensures ExactBefore(px, RunShade(s, evenOdd), gamma, x, s[k - 1].y)
    ensures x == if area != 0 then x0 + 1 else x0
  {
    hide Area, Alpha, ExactBefore, Flowing, Total, AsInt32, Fill, RunAlpha, InOrder;
    x, done, px := x0, done0, px0;
    if area != 0 {
      ghost var row, shade := s[k - 1].y, RunShade(s, evenOdd);
      GroupPixel(s, evenOdd, k);
      Coverage32(Total(s[..k]), Area(s, x0, row));
      var alpha := Alpha(evenOdd, AsInt32(AsInt32(cover * 512) - area));
      assert shade(x0, row) == alpha;
      if alpha != 0 {
        DeliverRun(px, shade, gamma, x, row, 1, alpha);
        done := PutCell(sl, r, x, y, gamma[alpha], row, drawn0, done, px);
        px := px + Fill(x, row, 1, gamma[alpha]);
      } else {
        MoveOn(px, shade, gamma, x, row, x + 1, row);
        FlowsOn(sl, r, drawn0, done, px, x, row, x + 1, row);
      }
      x := x + 1;
    }
  }

  /** The run of pixels up to the next cell. */
  method SweepGap(sl: Scanline, r: Renderer, evenOdd: bool, gamma: Gamma, x: int, y: int, nextX: int, cover: int,
                  ghost s: seq<Cell>, ghost k: nat, ghost drawn0: seq<Pixel>, ghost done0: seq<Pixel>,
                  ghost px0: seq<Pixel>)
    returns (ghost done: seq<Pixel>, ghost px: seq<Pixel>)
    requires GroupEnd(s, k) && k < |s| && nextX == s[k].x && cover == AsInt32(Total(s[..k]))
    requires Flowing(sl, r, drawn0, done0, px0, x, s[k - 1].y)
    requires ExactBefore(px0, RunShade(s, evenOdd), gamma, x, s[k - 1].y)
    requires x == s[k - 1].x + 1 || (x == s[k - 1].x && AsInt32(Area(s, x, s[k - 1].y)) == 0)
    requires OneRow(x, y, if nextX > x then nextX - x else 0, s[k - 1].y)
    requires Wide(sl, s)
    modifies sl`lastX, sl`lastY, sl`numSpans, sl`spans, sl`taken, sl.covers, sl.starts, sl.counts, r`drawn
    ensures Flowing(sl, r, drawn0, done, px, s[k].x, s[k].y)
    ensures ExactBefore(px, RunShade(s, evenOdd), gamma, s[k].x, s[k].y)
  {
    hide Area, Alpha, ExactBefore, Flowing, Total, AsInt32, Fill, RunAlpha;
    done, px := done0, px0;
    ghost var row, shade := s[k - 1].y, RunShade(s, evenOdd);
    var alpha := Alpha(evenOdd, AsInt32(cover * 512));
    forall u, v | !Before(u, v, x, row) && Before(u, v, s[k].x, s[k].y)
      ensures shade(u, v) == if v == row && u < nextX then alpha else 0
    {
      Coverage32(Total(s[..k]), 0);
      GapPixels(s, evenOdd, k, x, u, v);
    }
    if nextX > x {
      if alpha != 0 {
        DeliverRun(px, shade, gamma, x, row, nextX - x, alpha);
        done := PutSpan(sl, r, x, y, nextX - x, gamma[alpha], row, drawn0, done, px);
        px := px + Fill(x, row, nextX - x, gamma[alpha]);
      } else {
        MoveOn(px, shade, gamma, x, row, nextX, row);
      }
    }
    MoveOn(px, shade, gamma, if nextX > x then nextX else x, row, s[k].x, s[k].y);
    FlowsOn(sl, r, drawn0, done, px, if nextX > x && alpha != 0 then nextX else x, row, s[k].x, s[k].y);
  }

  /** The pixels between a group and the next cell are in one row. */
  lemma GapIsOneRow(cs: seq<Cell>, k: nat, x: int)
    requires AllFit(cs) && GroupEnd(Lifted(cs), k) && k < |cs| && x >= cs[k - 1].x
    ensures OneRow(x, cs[k - 1].y, if cs[k].x > x then cs[k].x - x else 0, Lifted(cs)[k - 1].y)
  {
    hide Lifted, InOrder;
  }

  lemma WideLifted(sl: Scanline, cs: seq<Cell>)
    requires Wide(sl, cs)
    ensures Wide(sl, Lifted(cs))
  {
  }

  lemma SweepStarts(sl: Scanline, r: Renderer, s: seq<Cell>, evenOdd: bool, gamma: Gamma)
    requires s != [] && InOrder(s) && sl.Valid() && sl.taken == {} && sl.Pixels() == []
    ensures Flowing(sl, r, r.drawn, [], [], s[0].x, s[0].y)
    ensures ExactBefore([], RunShade(s, evenOdd), gamma, s[0].x, s[0].y)
    ensures AsInt32(Total(s[..0])) == 0
  {
    hide LaidOut, ExactBefore;
    NothingBefore(s, evenOdd, gamma);
    SameWrapped(0);
  }

  lemma WideAt(sl: Scanline, s: seq<Cell>, k: nat)
    requires Wide(sl, s) && k < |s|
    ensures sl.minX <= s[k].x && s[k].x - sl.minX + 1 < sl.maxLen && s[k].x - sl.minX <= NOWHERE
  {
  }

  /** Past the last cell, everything has been delivered. */
  lemma SweepEnds(px: seq<Pixel>, cs: seq<Cell>, evenOdd: bool, gamma: Gamma, x: int)
    requires cs != [] && AllFit(cs) && InOrder(Lifted(cs))
    requires ExactBefore(px, RunShade(Lifted(cs), evenOdd), gamma, x, Lifted(cs)[|cs| - 1].y)
    requires var g := Lifted(cs)[|cs| - 1]; x == g.x + 1 || (x == g.x && AsInt32(Area(Lifted(cs), x, g.y)) == 0)
    ensures Exact(Lower(px), SweptShade(cs, evenOdd), gamma)
    ensures (forall i :: 0 <= i < |cs| ==> !Wraps(cs[i].x, cs[i].y)) ==> Increasing(Lower(px))
  {
    hide Area, ExactBefore, Exact, RunAlpha, AsInt32, Increasing;
    var s := Lifted(cs);
    var g, shade := s[|s| - 1], RunShade(s, evenOdd);
    forall u, v | !Before(u, v, x, g.y) && Before(u, v, 0, 0x8001) ensures shade(u, v) == 0 {
      AfterLast(s, evenOdd, x, u, v);
    }
    MoveOn(px, shade, gamma, x, g.y, 0, 0x8001);
    LowerExact(px, cs, evenOdd, gamma);
  }

  /** What the final flush will draw. */
  lemma Emptied(sl: Scanline, r: Renderer, drawn0: seq<Pixel>, done: seq<Pixel>, px: seq<Pixel>, x: int, row: int)
    requires Flowing(sl, r, drawn0, done, px, x, row)
    ensures sl.Valid()
    ensures r.drawn + Clip(sl.Pixels(), sl.dx, sl.dy, r.width, r.height)
            == drawn0 + Clip(Lower(px), sl.dx, sl.dy, r.width, r.height)
    ensures sl.numSpans == 0 ==> Clip(sl.Pixels(), sl.dx, sl.dy, r.width, r.height) == []
  {
    hide LaidOut;
    ClipConcat(done, sl.Pixels(), sl.dx, sl.dy, r.width, r.height);
  }

  /**
   The loop of `rasterizer::render`, for any cells in packed order, whatever their sums: the pixels delivered are
   exactly those of the sweep over these cells, each once.
   */
  method Sweep(sorted: array<Cell>, n: nat, sl: Scanline, r: Renderer, evenOdd: bool, gamma: Gamma)
    returns (ghost px: seq<Pixel>)
    requires 0 < n <= sorted.Length && AllFit(sorted[..n]) && InOrder(Lifted(sorted[..n]))
    requires forall i :: 0 <= i < n ==> IsInt32(sorted[i].area)
    requires sl.Valid() && sl.numSpans == 0 && sl.taken == {} && sl.Pixels() == [] && Wide(sl, sorted[..n])
    modifies sl`lastX, sl`lastY, sl`numSpans, sl`spans, sl`taken, sl.covers, sl.starts, sl.counts, r`drawn
    ensures r.drawn == old(r.drawn) + Clip(px, sl.dx, sl.dy, r.width, r.height)
    ensures Exact(px, SweptShade(sorted[..n], evenOdd), gamma)
    ensures (forall i :: 0 <= i < n ==> !Wraps(sorted[i].x, sorted[i].y)) ==> Increasing(px)
  {
    hide Area, Alpha, ExactBefore, RunAlpha, Exact, Flowing, Wide, Total, AsInt32, IsInt32, InOrder, Increasing;
    hide GroupEnd, Wraps, Fits, SweepRow, OneRow, Lifted, Clip, SweptShade, RunShade;
    ghost var cs := sorted[..n];
    ghost var s, drawn0, done := Lifted(cs), r.drawn, [];
    px := [];
    var k, cover := 0, 0;
    SweepStarts(sl, r, s, evenOdd, gamma);
    while true
      invariant 0 <= k < n && sorted[..n] == cs && cover == AsInt32(Total(s[..k])) && Wide(sl, cs)
      invariant k == 0 || GroupEnd(s, k)
      invariant Flowing(sl, r, drawn0, done, px, s[k].x, s[k].y)
      invariant ExactBefore(px, RunShade(s, evenOdd), gamma, s[k].x, s[k].y)
      decreases n - k
    {
      var x, y, area, k0 := sorted[k].x, sorted[k].y, 0, k;
      WideAt(sl, cs, k);
      k, area, cover := Accumulate(sorted, n, k, cover);
      x, done, px := SweepCell(sl, r, evenOdd, gamma, x, y, area, cover, s, k, drawn0, done, px);
      if k == n {
        SweepEnds(px, cs, evenOdd, gamma, x);
        Emptied(sl, r, drawn0, done, px, x, s[k - 1].y);
        break;
      }
      GapIsOneRow(cs, k, x);
      WideLifted(sl, cs);
      done, px := SweepGap(sl, r, evenOdd, gamma, x, y, sorted[k].x, cover, s, k, drawn0, done, px);
    }
    if sl.numSpans != 0 {
      r.Render(sl);
    }
    px := Lower(px);
  }

  /** Sums that look the same give the same coverage. */
  lemma CoverageSame(a: seq<Cell>, b: seq<Cell>, evenOdd: bool, x: int, y: int)
    requires SameSums(a, b, x, y)
    ensures PixelAlpha(a, evenOdd, x, y) == PixelAlpha(b, evenOdd, x, y)
  {
    hide AsInt32, Alpha;
    SameSum(Left(a, x, y), Left(b, x, y), 0, 0);
    SameSum(512 * Left(a, x, y), 512 * Left(b, x, y), Area(a, x, y), Area(b, x, y));
  }

  /** Cells in packed order with the sums of a closed path draw the path, if none of its covers is misplaced. */
  lemma SweptIsDrawn(px: seq<Pixel>, cs: seq<Cell>, spec: seq<Cell>, evenOdd: bool, gamma: Gamma)
    requires AllFit(cs) && InOrder(Lifted(cs)) && Exact(px, SweptShade(cs, evenOdd), gamma)
    requires (forall x, y :: SameSums(cs, spec, x, y)) && (forall row :: RowCover(spec, row) == 0)
    requires Same(Misplaced(spec), 0)
    ensures Exact(px, PixelShade(spec, evenOdd), gamma)
  {
    hide Left, Area, RowCover, SweptAlpha, PixelAlpha, AsInt32, Lifted, InOrder, Exact;
    forall row ensures Same(RowCover(cs, row), 0) {
      assert SameSums(cs, spec, 0, row);
    }
    assert SameSums(cs, spec, -1, -0x8000);
    forall x, y ensures SweptAlpha(cs, evenOdd, x, y) == PixelAlpha(spec, evenOdd, x, y) {
      SweptIsCovered(cs, evenOdd, x, y);
      assert SameSums(cs, spec, x, y);
      CoverageSame(cs, spec, evenOdd, x, y);
    }
    ExactTransfer(px, SweptShade(cs, evenOdd), PixelShade(spec, evenOdd), gamma);
  }

  /** Nothing is misplaced among cells that do not wrap. */
  lemma NothingMisplaced(cs: seq<Cell>, spec: seq<Cell>)
    requires AllFit(cs) && forall i :: 0 <= i < |cs| ==> !Wraps(cs[i].x, cs[i].y)
    requires forall x, y :: SameSums(cs, spec, x, y)
    ensures Same(Misplaced(spec), 0)
  {
    NothingLeft(cs, -1, -0x8000);
    assert SameSums(cs, spec, -1, -0x8000);
  }

  /** A path as the documentation asks for it: it starts with move_to, is within range, and is not too wide. */
  ghost predicate Drawable(commands: seq<Command>, left: int) {
    && commands != [] && commands[0].MoveTo?
    && forall i :: 0 <= i < |commands| ==>
         FitsPoint(commands[i].x, commands[i].y) && left <= Whole(commands[i].x) < left + 0x7FFF
  }

  /** In 24.8 coordinates: 24 bits each, and less than 32767 columns. */
  lemma DrawableRange(commands: seq<Command>, left: int)
    ensures Drawable(commands, left) <==>
      && commands != [] && commands[0].MoveTo?
      && forall i :: 0 <= i < |commands| ==>
           && -0x80_0000 <= commands[i].x <= 0x7F_FFFF && -0x80_0000 <= commands[i].y <= 0x7F_FFFF
           && 256 * left <= commands[i].x < 256 * left + 0x7F_FF00
  {
  }

  /** No cell of the path can have a packed coordinate that wraps. */
  ghost predicate NoneWraps(commands: seq<Command>, left: int) {
    left >= 0 || forall i :: 0 <= i < |commands| ==> Whole(commands[i].y) > -0x8000
  }

  /** The box lies in the columns of the path, from row `top` on. */
  ghost predicate PathBox(b: Bounds, left: int, top: int) {
    b.minX >= left && b.maxX <= left + NOWHERE && b.minY >= top
  }

  lemma StaysInside(b: Bounds, x: int, y: int, left: int, top: int)
    requires PathBox(b, left, top) && left <= Whole(x) < left + NOWHERE && top <= Whole(y)
    ensures PathBox(b.With(x, y), left, top) && b.With(x, y).Narrow()
  {
  }

  ghost function Top(commands: seq<Command>, left: int): (top: int)
    requires Drawable(commands, left)
    ensures forall i :: 0 <= i < |commands| ==> top <= Whole(commands[i].y)
    ensures NoneWraps(commands, left) ==> left >= 0 || top > -0x8000
  {
    if forall i :: 0 <= i < |commands| ==> Whole(commands[i].y) > -0x8000 then -0x7FFF else -0x8000
  }

  lemma AtStart(commands: seq<Command>, left: int, top: int)
    requires Drawable(commands, left) && top <= 0x7FFF
    ensures PathBox(NOTHING, left, top)
  {
    assert FitsPoint(commands[0].x, commands[0].y);
  }

  lemma InsideIsNarrow(b: Bounds, left: int, top: int)
    requires PathBox(b, left, top)
    ensures b.maxX - b.minX <= NOWHERE
    ensures left >= 0 || top > -0x8000 ==> b.InScanOrder()
  {
  }

  class Rasterizer {
    const outline: Outline
    const scanline: Scanline
    var evenOdd: bool
    var gamma: Gamma

    constructor (evenOdd: bool, gamma: Gamma)
      ensures outline.Drawing() && !outline.started && outline.numBlocks == outline.spare == 0 && scanline.Buffers()
      ensures this.evenOdd == evenOdd && this.gamma == gamma
      ensures fresh(outline) && fresh(outline.sorted) && fresh(scanline)
      ensures fresh(scanline.covers) && fresh(scanline.starts) && fresh(scanline.counts)
      ensures outline.Box() == NOTHING
    {
      outline := new Outline();
      scanline := new Scanline();
      this.evenOdd, this.gamma := evenOdd, gamma;
    }

    /** Sorted cells are fit to be swept. */
    lemma ReadyToSweep()
      requires outline.Finished()
      ensures 0 < |outline.cells| <= outline.sorted.Length
      ensures var cs := outline.sorted[..|outline.cells|];
              && AllFit(cs) && InOrder(Lifted(cs)) && multiset(cs) == multiset(outline.cells)
              && forall i :: 0 <= i < |cs| ==> outline.Holds(cs[i])
      ensures outline.minX < outline.maxX
    {
      hide Lifted, InOrder;
      var cs := outline.sorted[..|outline.cells|];
      forall i | 0 <= i < |cs| ensures outline.Holds(cs[i]) {
        assert cs[i] in multiset(cs);
        assert cs[i] in outline.cells;
      }
      forall i, j | 0 <= i < j < |cs| ensures !Less(cs[j], cs[i]) {
        assert outline.sorted[..][i] == cs[i] && outline.sorted[..][j] == cs[j];
      }
      PackedOrder(cs);
      assert outline.Holds(cs[0]);
    }

    /** The sorted cells of a whole path add up to what it deposits. */
    lemma SortedSums()
      requires outline.Sorted()
      ensures var spec := outline.pen.Closed().cells;
              && (forall x, y :: SameSums(outline.sorted[..|outline.cells|], spec, x, y))
              && forall row :: RowCover(spec, row) == 0
    {
      hide Left, Area, RowCover, Line, Pen.Conserves;
      var cs, spec := outline.sorted[..|outline.cells|], outline.pen.Closed().cells;
      forall x, y ensures SameSums(cs, spec, x, y) {
        SumsPermute(cs, outline.cells, x, y);
        assert SameSums(outline.cells, spec, x, y);
      }
      forall row ensures RowCover(spec, row) == 0 {
        ClosedHasNoCover(outline.pen, row);
      }
    }

    lemma PathIsFlat()
      requires (outline.Drawing() && outline.started) || outline.Sorted()
      ensures forall row :: RowCover(outline.pen.Closed().cells, row) == 0
    {
      hide Pen.Conserves, RowCover, Line, Outline.CellsValid;
      forall row ensures RowCover(outline.pen.Closed().cells, row) == 0 {
        ClosedHasNoCover(outline.pen, row);
      }
    }

    /** The columns of the scanline take in every cell of the path. */
    lemma InBoxWide(cs: seq<Cell>)
      requires forall i :: 0 <= i < |cs| ==> outline.Holds(cs[i])
      requires scanline.minX == outline.minX && outline.maxX - outline.minX <= NOWHERE
      requires outline.maxX - outline.minX + 2 <= scanline.maxLen
      ensures Wide(scanline, cs) && forall i :: 0 <= i < |cs| ==> IsInt32(cs[i].area)
      ensures outline.Box().InScanOrder() ==> forall i :: 0 <= i < |cs| ==> !Wraps(cs[i].x, cs[i].y)
    {
    }

    lemma NothingDrawn(dx: int, dy: int, r: Renderer)
      ensures Clip([], dx, dy, r.width, r.height) == [] && Exact([], SweptShade([], evenOdd), gamma)
      ensures InOrder(Lifted([])) && AllFit([]) && Increasing([])
    {
      NothingToDeliver(SweptShade([], evenOdd), gamma);
      ClipNothing(dx, dy, r.width, r.height);
    }

    /** The sweep over what has been sorted. */
    method SweepSorted(r: Renderer, dx: int, dy: int) returns (ghost px: seq<Pixel>, ghost cells: seq<Cell>)
      requires outline.Finished() && outline.maxX - outline.minX <= NOWHERE && scanline.Buffers()
      modifies r`drawn, scanline, scanline.covers, scanline.starts, scanline.counts
      ensures scanline.Buffers() && |outline.cells| <= outline.sorted.Length
      ensures cells == outline.sorted[..|outline.cells|] && AllFit(cells) && InOrder(Lifted(cells))
      ensures r.drawn == old(r.drawn) + Clip(px, dx, dy, r.width, r.height)
      ensures Exact(px, SweptShade(cells, evenOdd), gamma)
      ensures outline.Box().InScanOrder() ==>
        Increasing(px) && forall i :: 0 <= i < |cells| ==> !Wraps(cells[i].x, cells[i].y)
    {
      hide Outline.Finished, Exact, Clip, Scanline.Valid, AllFit, Lifted, InOrder, Increasing, Wide, Outline.Holds;
      ReadyToSweep();
      cells := outline.sorted[..|outline.cells|];
      scanline.Reset(outline.minX, outline.maxX, dx, dy);
      InBoxWide(cells);
      px := Sweep(outline.sorted, |outline.cells|, scanline, r, evenOdd, gamma);
    }

    /** What has been drawn of a path that has lost no cell. */
    lemma WhatIsDrawn(px: seq<Pixel>, cells: seq<Cell>, spec: seq<Cell>)
      requires AllFit(cells) && InOrder(Lifted(cells)) && Exact(px, SweptShade(cells, evenOdd), gamma)
      requires (forall x, y :: SameSums(cells, spec, x, y)) && forall row :: RowCover(spec, row) == 0
      ensures (forall i :: 0 <= i < |cells| ==> !Wraps(cells[i].x, cells[i].y)) ==> Same(Misplaced(spec), 0)
      ensures Same(Misplaced(spec), 0) ==> Exact(px, PixelShade(spec, evenOdd), gamma)
    {
      hide SameSums, Misplaced, Exact, AllFit, InOrder, Lifted;
      if forall i :: 0 <= i < |cells| ==> !Wraps(cells[i].x, cells[i].y) { NothingMisplaced(cells, spec); }
      if Same(Misplaced(spec), 0) { SweptIsDrawn(px, cells, spec, evenOdd, gamma); }
    }

    /**
     `render`: what reaches the renderer is exactly what the sweep finds in `cells`, the stored cells in packed order.
     When the store held every cell, and the covers of cells that wrap add up to zero, these are exactly the pixels
     whose coverage, in 32-bit arithmetic, is not zero, each once and with its gamma-corrected value.
     */
    method Render(r: Renderer, dx: int, dy: int) returns (ghost px: seq<Pixel>, ghost cells: seq<Cell>)
      requires (outline.Drawing() && outline.started) || outline.Finished()
      requires outline.maxX - outline.minX <= NOWHERE && scanline.Buffers()
      modifies outline, outline.sorted, r`drawn
      modifies scanline, scanline.covers, scanline.starts, scanline.counts
      ensures outline.Box() == old(outline.Box()) && scanline.Buffers()
      ensures outline.Drawing() || outline.Finished()
      ensures outline.sorted == old(outline.sorted) || fresh(outline.sorted)
      ensures r.drawn == old(r.drawn) + Clip(px, dx, dy, r.width, r.height)
      ensures AllFit(cells) && InOrder(Lifted(cells)) && Exact(px, SweptShade(cells, evenOdd), gamma)
      ensures evenOdd == old(evenOdd) && gamma == old(gamma)
      ensures outline.Box().InScanOrder() ==> Increasing(px)
      ensures old(outline.Drawing()) ==> outline.spare == old(outline.spare)
      ensures old(outline.Drawing() && outline.spare < 1024) && |old(outline.pen).Closed().cells| <= 0x40_0000 ==>
        !outline.dropped
      ensures old(outline.Drawing() && outline.spare == 1024) ==> px == [] && r.drawn == old(r.drawn)
      ensures old(outline.Drawing() || outline.Sorted()) && !outline.dropped ==>
        var spec := old(outline.pen).Closed().cells;
        && (forall x, y :: SameSums(cells, spec, x, y))
        && (outline.Box().InScanOrder() ==> Same(Misplaced(spec), 0))
        && (Same(Misplaced(spec), 0) ==> Exact(px, PixelShade(spec, evenOdd), gamma))
    {
      hide Outline.Drawing, Outline.Sorted, Outline.Finished, SameSums, Exact, Clip, Line, Scanline.Valid, AllFit;
      hide Lifted, InOrder, Misplaced, RowCover, Increasing, Wide, Outline.Holds, SweptShade, PixelShade, Pen.Closed;
      ghost var spec := outline.pen.Closed().cells;
      outline.SortedFacts();
      outline.PathState();
      if outline.Drawing() || outline.Sorted() { PathIsFlat(); }
      px, cells := [], [];
      var any := outline.Cells();
      if any {
        px, cells := SweepSorted(r, dx, dy);
        if outline.Sorted() { SortedSums(); }
      } else {
        NothingDrawn(dx, dy, r);
      }
      if old(outline.Drawing() || outline.Sorted()) && !outline.dropped {
        WhatIsDrawn(px, cells, spec);
      }
    }

    /** Once all blocks are taken they stay so. */
    lemma BlocksStay()
      requires (outline.Drawing() || outline.Finished()) && outline.spare == BLOCK_LIMIT
      ensures outline.numBlocks == 1024
    {
      hide Pen.Conserves, SortedRange, Balanced;
    }

    /**
     A whole run on a rasterizer in any state: reset, the commands of a path, `render`. A path that finds room for
     what it deposits loses nothing; one that finds all blocks taken draws nothing, and so does every later one.
     */
    method Draw(commands: seq<Command>, r: Renderer, dx: int, dy: int, ghost left: int)
      returns (ghost px: seq<Pixel>, ghost cells: seq<Cell>)
      requires (outline.Drawing() || outline.Finished()) && scanline.Buffers() && Drawable(commands, left)
      modifies outline, outline.sorted, r`drawn
      modifies scanline, scanline.covers, scanline.starts, scanline.counts
      ensures (outline.Drawing() || outline.Finished()) && scanline.Buffers()
      ensures evenOdd == old(evenOdd) && gamma == old(gamma)
      ensures r.drawn == old(r.drawn) + Clip(px, dx, dy, r.width, r.height)
      ensures AllFit(cells) && InOrder(Lifted(cells)) && Exact(px, SweptShade(cells, evenOdd), gamma)
      ensures NoneWraps(commands, left) ==> Increasing(px)
      ensures old(outline.numBlocks) < 1024 && |PathCells(commands)| <= 0x40_0000 ==> !outline.dropped
      ensures old(outline.numBlocks) == 1024 ==>
        px == [] && r.drawn == old(r.drawn) && outline.numBlocks == 1024
      ensures !outline.dropped ==>
        && (forall x, y :: SameSums(cells, PathCells(commands), x, y))
        && (NoneWraps(commands, left) ==> Same(Misplaced(PathCells(commands)), 0))
        && (Same(Misplaced(PathCells(commands)), 0) ==> Exact(px, PixelShade(PathCells(commands), evenOdd), gamma))
    {
      hide Outline.Drawing, Outline.Sorted, Outline.Finished, Exact, Clip, Line, Whole, FitsPoint, Bounds.With, PathBox;
      hide SameSums, Misplaced, Increasing, PixelShade, SweptShade, InOrder, Lifted, AllFit;
      ghost var top := Top(commands, left);
      var start := commands[0];
      AtStart(commands, left, top);
      outline.PathState();
      outline.Reset();
      outline.MoveTo(start.x, start.y);
      ghost var rest := commands[1..];
      var i := 1;
      while i < |commands|
        invariant 1 <= i <= |commands| && outline.Drawing() && outline.started
        invariant outline.pen == Follow(Start(start.x, start.y), rest[..i - 1])
        invariant outline.spare == old(outline.numBlocks) && outline.sorted == old(outline.sorted)
        invariant scanline.Buffers() && evenOdd == old(evenOdd) && gamma == old(gamma) && r.drawn == old(r.drawn)
        invariant PathBox(outline.Box(), left, top)
        invariant left <= Whole(outline.curX) < left + NOWHERE && top <= Whole(outline.curY)
        modifies outline
      {
        assert rest[..i][..i - 1] == rest[..i - 1] && rest[i - 1] == commands[i];
        outline.PathState();
        ghost var box := outline.Box();
        StaysInside(box, outline.curX, outline.curY, left, top);
        StaysInside(box.With(outline.curX, outline.curY), commands[i].x, commands[i].y, left, top);
        if commands[i].MoveTo? {
          outline.MoveTo(commands[i].x, commands[i].y);
        } else {
          outline.LineTo(commands[i].x, commands[i].y);
        }
        i := i + 1;
      }
      assert rest[..i - 1] == rest;
      InsideIsNarrow(outline.Box(), left, top);
      outline.PathState();
      px, cells := Render(r, dx, dy);
      if outline.spare == BLOCK_LIMIT { BlocksStay(); }
    }
  }

  /**
   A whole run on a new rasterizer. If the path deposits no more than the store holds, and the covers that the packed
   order misplaces add up to zero, which they do when no cell can wrap, exactly the pixels are drawn whose coverage in
   32-bit arithmetic is not zero. That is the true coverage under the even-odd rule, and for paths of fewer than 65535
   deposits under either rule. On the way every product of the incremental divisions fits 32 bits.
   */
  method DrawPath(commands: seq<Command>, evenOdd: bool, gamma: Gamma, r: Renderer, dx: int, dy: int, ghost left: int)
    returns (ghost px: seq<Pixel>)
    requires Drawable(commands, left)
    modifies r`drawn
    ensures r.drawn == old(r.drawn) + Clip(px, dx, dy, r.width, r.height)
    ensures NoneWraps(commands, left) ==> Increasing(px)
    ensures |PathCells(commands)| <= 0x40_0000 ==>
      && (NoneWraps(commands, left) ==> Same(Misplaced(PathCells(commands)), 0))
      && (Same(Misplaced(PathCells(commands)), 0) ==>
            && Exact(px, PixelShade(PathCells(commands), evenOdd), gamma)
            && (evenOdd || |PathCells(commands)| < 65535 ==>
                  Exact(px, TrueShade(PathCells(commands), evenOdd), gamma)))
  {
    hide Outline.Drawing, Outline.Finished, Exact, Clip, Line, SameSums, Misplaced, Increasing, PixelAlpha, TrueAlpha;
    var ras := new Rasterizer(evenOdd, gamma);
    ghost var cells;
    px, cells := ras.Draw(commands, r, dx, dy, left);
    if |PathCells(commands)| <= 0x40_0000 && Same(Misplaced(PathCells(commands)), 0) {
      if evenOdd || |PathCells(commands)| < 65535 {
        CoverageIsTrue(commands, evenOdd);
        ExactTransfer(px, PixelShade(PathCells(commands), evenOdd), TrueShade(PathCells(commands), evenOdd), gamma);
      }
    }
  }
}
