/** What it means to have delivered exactly the pixels of a shade (pixmapgraphics.mod/agg.h). */
module AggDelivery {
  import opened AggCoverage
  import opened AggGeometry
  import opened AggOutline
  import opened AggScanline
  import opened AggSweep

  // One level for each alpha.
  type Gamma = g: seq<nat> | |g| == 256 witness seq(256, _ => 0)

  /** A pixel delivered with the right value. */
  ghost predicate Right(p: Pixel, shade: Shade, gamma: Gamma) {
    shade(p.x, p.y) != 0 && p.cover == gamma[shade(p.x, p.y)]
  }

  ghost predicate Delivered(px: seq<Pixel>, shade: Shade, gamma: Gamma, x: int, y: int) {
    shade(x, y) != 0 ==> Pixel(x, y, gamma[shade(x, y)]) in px
  }

  /** In scan order, no pixel twice. */
  ghost predicate Increasing(px: seq<Pixel>) {
    forall i, j :: 0 <= i < j < |px| ==> Before(px[i].x, px[i].y, px[j].x, px[j].y)
  }

  /** In packed order, no pixel twice. */
  ghost predicate SweepOrder(px: seq<Pixel>) {
    forall i, j :: 0 <= i < j < |px| ==>
      Before(px[i].x, SweepRow(px[i].x, px[i].y), px[j].x, SweepRow(px[j].x, px[j].y))
  }

  /** Exactly the covered pixels before (x, y) have been delivered, each once, in scan order. */
  ghost predicate ExactBefore(px: seq<Pixel>, shade: Shade, gamma: Gamma, x: int, y: int) {
    && Increasing(px)
    && (forall p :: p in px ==> Before(p.x, p.y, x, y) && Right(p, shade, gamma))
    && (forall u, v :: Before(u, v, x, y) ==> Delivered(px, shade, gamma, u, v))
  }

  /** Exactly the covered pixels have been delivered, each once, in packed order. */
  ghost predicate Exact(px: seq<Pixel>, shade: Shade, gamma: Gamma) {
    && SweepOrder(px)
    && (forall p :: p in px ==> Right(p, shade, gamma))
    && (forall u, v :: Delivered(px, shade, gamma, u, v))
  }

  /** Moving on over pixels that are not covered. */
  lemma MoveOn(px: seq<Pixel>, shade: Shade, gamma: Gamma, x: int, y: int, x': int, y': int)
    requires ExactBefore(px, shade, gamma, x, y) && !Before(x', y', x, y)
    requires forall u, v :: !Before(u, v, x, y) && Before(u, v, x', y') ==> shade(u, v) == 0
    ensures ExactBefore(px, shade, gamma, x', y')
  {
    forall u, v | Before(u, v, x', y') ensures Delivered(px, shade, gamma, u, v) {
      if Before(u, v, x, y) { assert Delivered(px, shade, gamma, u, v); }
    }
    forall p | p in px ensures Before(p.x, p.y, x', y') && Right(p, shade, gamma) {
    }
  }

  /** Delivering a run of equally covered pixels. */
  lemma DeliverRun(px: seq<Pixel>, shade: Shade, gamma: Gamma, x: int, y: int, num: nat, alpha: Level)
    requires ExactBefore(px, shade, gamma, x, y) && alpha != 0
    requires forall u :: x <= u < x + num ==> shade(u, y) == alpha
    ensures ExactBefore(px + Fill(x, y, num, gamma[alpha]), shade, gamma, x + num, y)
  {
    var run := Fill(x, y, num, gamma[alpha]);
    var all := px + run;
    forall p | p in all ensures Before(p.x, p.y, x + num, y) && Right(p, shade, gamma) {
      if p in px {
      } else {
        assert p in run;
        assert x <= p.x < x + num && p.y == y;
      }
    }
    forall u, v | Before(u, v, x + num, y) ensures Delivered(all, shade, gamma, u, v) {
      if Before(u, v, x, y) {
        assert Delivered(px, shade, gamma, u, v);
      } else {
        assert v == y && x <= u < x + num;
        assert run[u - x] == Pixel(u, y, gamma[alpha]);
      }
    }
    forall i, j | 0 <= i < j < |all| ensures Before(all[i].x, all[i].y, all[j].x, all[j].y) {
      if i < |px| && j >= |px| {
        assert px[i] in px;
      }
    }
  }

  lemma NothingBefore(s: seq<Cell>, evenOdd: bool, gamma: Gamma)
    requires InOrder(s) && s != []
    ensures ExactBefore([], RunShade(s, evenOdd), gamma, s[0].x, s[0].y)
  {
    hide RunAlpha;
    forall u, v | Before(u, v, s[0].x, s[0].y) ensures Delivered([], RunShade(s, evenOdd), gamma, u, v) {
      BeforeFirst(s, evenOdd, u, v);
    }
  }

  lemma NothingToDeliver(shade: Shade, gamma: Gamma)
    requires forall u, v :: shade(u, v) == 0
    ensures Exact([], shade, gamma)
  {
    forall u, v ensures Delivered([], shade, gamma, u, v) {
    }
  }

  /** Delivery is exact for every shade with the same levels. */
  lemma ExactTransfer(px: seq<Pixel>, a: Shade, b: Shade, gamma: Gamma)
    requires Exact(px, a, gamma) && forall x, y :: a(x, y) == b(x, y)
    ensures Exact(px, b, gamma)
  {
    forall u, v ensures Delivered(px, b, gamma, u, v) {
      assert Delivered(px, a, gamma, u, v);
    }
  }

  // ------------------------------------------------------------------ back to the rows that are meant

  function LowerPixel(p: Pixel): Pixel { p.(y := LowerRow(p.y)) }

  function Lower(px: seq<Pixel>): (r: seq<Pixel>)
    ensures |r| == |px| && forall i :: 0 <= i < |px| ==> r[i] == LowerPixel(px[i])
  {
    seq(|px|, i requires 0 <= i < |px| => LowerPixel(px[i]))
  }

  lemma LowerConcat(a: seq<Pixel>, b: seq<Pixel>)
    ensures Lower(a + b) == Lower(a) + Lower(b)
  {
  }

  lemma LowerFill(x: int, row: int, num: nat, cover: nat)
    ensures Lower(Fill(x, row, num, cover)) == Fill(x, LowerRow(row), num, cover)
  {
  }

  /** What is exact for the lifted cells is exact for the cells. */
  lemma {:induction false} LowerExact(px: seq<Pixel>, cs: seq<Cell>, evenOdd: bool, gamma: Gamma)
    requires AllFit(cs) && ExactBefore(px, RunShade(Lifted(cs), evenOdd), gamma, 0, 0x8001)
    ensures Exact(Lower(px), SweptShade(cs, evenOdd), gamma)
    ensures (forall i :: 0 <= i < |cs| ==> !Wraps(cs[i].x, cs[i].y)) ==> Increasing(Lower(px))
  {
    hide RunAlpha, Alpha, Lifted;
    var run, swept, low := RunShade(Lifted(cs), evenOdd), SweptShade(cs, evenOdd), Lower(px);
    forall i | 0 <= i < |px|
      ensures SweepRow(low[i].x, low[i].y) == px[i].y && Right(low[i], swept, gamma)
      ensures (forall k :: 0 <= k < |cs| ==> !Wraps(cs[k].x, cs[k].y)) ==> low[i].y == px[i].y
    {
      assert px[i] in px && Right(px[i], run, gamma);
      FoundInside(cs, evenOdd, px[i].x, px[i].y);
    }
    forall u, v ensures Delivered(low, swept, gamma, u, v) {
      if swept(u, v) != 0 {
        var row := SweepRow(u, v);
        assert Before(u, row, 0, 0x8001) && LowerRow(row) == v;
        assert Delivered(px, run, gamma, u, row);
        var i :| 0 <= i < |px| && px[i] == Pixel(u, row, gamma[run(u, row)]);
        assert low[i] == LowerPixel(px[i]);
      }
    }
  }
}
