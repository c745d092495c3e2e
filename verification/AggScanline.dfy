/** `scanline` and `renderer::render` of pixmapgraphics.mod/agg.h: spans of one row, delivered with clipping. */
module AggScanline {
  const NOWHERE: int := 0x7FFF

  datatype Pixel = Pixel(x: int, y: int, cover: nat)

  /** A run of `count` cover values starting at `start`, as pixels of row y. */
  function Run(covers: seq<nat>, minX: int, y: int, start: nat, count: nat): (r: seq<Pixel>)
    requires start + count <= |covers|
    ensures |r| == count
  {
    seq(count, i requires 0 <= i < count => Pixel(minX + start + i, y, covers[start + i]))
  }

  /** The pixels of all spans in order. */
  function Concat(spans: seq<seq<Pixel>>): seq<Pixel> {
    if spans == [] then [] else Concat(spans[..|spans| - 1]) + spans[|spans| - 1]
  }

  lemma ConcatLast(spans: seq<seq<Pixel>>, last: seq<Pixel>, more: seq<Pixel>)
    ensures Concat(spans + [last]) == Concat(spans) + last
    ensures Concat(spans + [last + more]) == Concat(spans + [last]) + more
  {
    assert (spans + [last])[..|spans|] == spans && (spans + [last + more])[..|spans|] == spans;
  }

  /** A run does not depend on what is stored outside it. */
  lemma RunSame(covers: seq<nat>, covers': seq<nat>, minX: int, y: int, start: nat, count: nat)
    requires start + count <= |covers| == |covers'|
    requires forall j :: start <= j < start + count ==> covers[j] == covers'[j]
    ensures Run(covers, minX, y, start, count) == Run(covers', minX, y, start, count)
  {
  }

  /** `num` pixels of one cover value. */
  function Fill(x: int, y: int, num: nat, cover: nat): (r: seq<Pixel>)
    ensures |r| == num
  {
    seq(num, i requires 0 <= i < num => Pixel(x + i, y, cover))
  }

  lemma RunGrows(covers: seq<nat>, minX: int, y: int, start: nat, count: nat, num: nat, cover: nat)
    requires start + count + num <= |covers|
    requires forall i :: start + count <= i < start + count + num ==> covers[i] == cover
    ensures Run(covers, minX, y, start, count + num)
            == Run(covers, minX, y, start, count) + Fill(minX + start + count, y, num, cover)
  {
  }

  lemma RunFilled(covers: seq<nat>, minX: int, y: int, rel: nat, num: nat, cover: nat)
    requires rel + num <= |covers| && forall i :: rel <= i < rel + num ==> covers[i] == cover
    ensures Run(covers, minX, y, rel, num) == Fill(minX + rel, y, num, cover)
  {
  }

  /** The columns of a run. */
  function Columns(start: nat, count: nat): (s: set<nat>)
    ensures forall c :: c in s <==> start <= c < start + count
  {
    if count == 0 then {} else Columns(start, count - 1) + {start + count - 1}
  }

  /** There are only so many columns. */
  lemma {:induction false} FewColumns(s: set<nat>, n: nat)
    requires forall c :: c in s ==> c < n
    ensures |s| <= n
  {
    if n == 0 {
      assert s == {};
    } else {
      FewColumns(s - {n - 1}, n - 1);
      assert s <= s - {n - 1} + {n - 1};
    }
  }

  lemma {:induction false} SubsetSize(a: set<nat>, b: set<nat>)
    requires a <= b
    ensures |a| <= |b|
    decreases a
  {
    if a != {} {
      var c :| c in a;
      SubsetSize(a - {c}, b - {c});
    }
  }

  /** A further run takes at least one further column. */
  lemma MoreColumns(s: set<nat>, start: nat, count: nat)
    requires count > 0 && s !! Columns(start, count)
    ensures |s + Columns(start, count)| >= |s| + 1
  {
    var all := s + Columns(start, count);
    assert s <= all - {start};
    assert |all| == |all - {start}| + 1;
    SubsetSize(s, all - {start});
  }

  /** How spans lie in the buffers: span i has its place and length at index i + 1. */
  ghost predicate LaidOut(values: seq<nat>, starts: seq<nat>, counts: seq<nat>, spans: seq<seq<Pixel>>, taken: set<nat>,
                          minX: int, y: int, last: int) {
    && |values| == |starts| == |counts| && |spans| < |values|
    && |spans| <= |taken| && (forall c :: c in taken ==> c + 1 < |values|)
    && (spans == [] ==> last == NOWHERE && taken == {})
    && (spans != [] ==> starts[|spans|] + counts[|spans|] == last + 1)
    && (forall i :: 1 <= i <= |spans| ==> 0 < counts[i] && Columns(starts[i], counts[i]) <= taken)
    && (forall i :: 1 <= i <= |spans| ==>
          starts[i] + counts[i] < |values| && spans[i - 1] == Run(values, minX, y, starts[i], counts[i]))
  }

  /** One more span. */
  lemma LaidNext(values: seq<nat>, starts: seq<nat>, counts: seq<nat>, spans: seq<seq<Pixel>>, taken: set<nat>,
                 minX: int, y0: int, last: int, y: int, rel: nat, num: nat, cover: nat)
    requires LaidOut(values, starts, counts, spans, taken, minX, y0, last) && (spans == [] || y == y0)
    requires num > 0 && rel + num < |values| && taken !! Columns(rel, num)
    requires forall i :: rel <= i < rel + num ==> values[i] == cover
    ensures |spans| + 1 < |values|
    ensures LaidOut(values, starts[|spans| + 1 := rel], counts[|spans| + 1 := num],
                    spans + [Fill(minX + rel, y, num, cover)], taken + Columns(rel, num), minX, y, rel + num - 1)
  {
    hide Run, Columns, Fill;
    RunFilled(values, minX, y, rel, num, cover);
    MoreColumns(taken, rel, num);
    FewColumns(taken + Columns(rel, num), |values| - 1);
  }

  /** The last span goes on. */
  lemma LaidOn(values: seq<nat>, starts: seq<nat>, counts: seq<nat>, spans: seq<seq<Pixel>>, taken: set<nat>,
               minX: int, y: int, rel: nat, num: nat, cover: nat)
    requires LaidOut(values, starts, counts, spans, taken, minX, y, rel - 1) && spans != []
    requires num > 0 && rel + num < |values|
    requires forall i :: rel <= i < rel + num ==> values[i] == cover
    ensures |spans| < |values|
    ensures var n := |spans|;
            LaidOut(values, starts, counts[n := counts[n] + num],
                    spans[..n - 1] + [spans[n - 1] + Fill(minX + rel, y, num, cover)], taken + Columns(rel, num),
                    minX, y, rel + num - 1)
  {
    hide Run, Columns, Fill;
    var n := |spans|;
    RunGrows(values, minX, y, starts[n], counts[n], num, cover);
    SubsetSize(taken, taken + Columns(rel, num));
    assert Columns(starts[n], counts[n]) <= taken;
    forall c | c in Columns(starts[n], counts[n] + num) ensures c in taken + Columns(rel, num) {
      if c < rel { assert c in Columns(starts[n], counts[n]); }
    }
  }

  /** Writing to columns that no span takes up leaves the spans alone. */
  lemma LaidStill(before: seq<nat>, after: seq<nat>, starts: seq<nat>, counts: seq<nat>, spans: seq<seq<Pixel>>,
                  taken: set<nat>, minX: int, y: int, last: int)
    requires LaidOut(before, starts, counts, spans, taken, minX, y, last) && |after| == |before|
    requires forall c :: c in taken && c < |before| ==> before[c] == after[c]
    ensures LaidOut(after, starts, counts, spans, taken, minX, y, last)
  {
    hide Run, Columns;
    forall i | 1 <= i <= |spans| ensures spans[i - 1] == Run(after, minX, y, starts[i], counts[i]) {
      assert forall c :: starts[i] <= c < starts[i] + counts[i] ==> c in Columns(starts[i], counts[i]);
      RunSame(before, after, minX, y, starts[i], counts[i]);
    }
  }

  class Scanline {
    var minX: int
    var maxLen: nat
    var dx: int
    var dy: int
    var lastX: int
    var lastY: int
    var covers: array<nat>
    var starts: array<nat>
    var counts: array<nat>
    var numSpans: nat
    // The pixels collected, span by span, before the offset dx, dy.
    ghost var spans: seq<seq<Pixel>>
    // The columns they take up.
    ghost var taken: set<nat>

    ghost predicate Buffers()
      reads this`covers, this`starts, this`counts, this`maxLen
    {
      && covers.Length == starts.Length == counts.Length == maxLen
      && covers != starts && covers != counts && starts != counts
    }

    ghost predicate Valid()
      reads this, covers, starts, counts
    {
      && Buffers() && maxLen >= 1 && numSpans == |spans|
      && (numSpans == 0 ==> lastX == NOWHERE && lastY == NOWHERE)
      && LaidOut(covers[..], starts[..], counts[..], spans, taken, minX, lastY, lastX)
    }

    ghost function Pixels(): seq<Pixel>
      reads this`spans
    {
      Concat(spans)
    }

    constructor ()
      ensures fresh(covers) && fresh(starts) && fresh(counts) && Buffers()
    {
      minX, maxLen, dx, dy, lastX, lastY, numSpans := 0, 0, 0, 0, NOWHERE, NOWHERE, 0;
      covers, starts, counts := new nat[0], new nat[0], new nat[0];
      spans, taken := [], {};
    }

    /** `reset_spans`. */
    method ResetSpans()
      requires Buffers() && maxLen >= 1
      modifies this`lastX, this`lastY, this`numSpans, this`spans, this`taken
      ensures Valid() && numSpans == 0 && taken == {} && Pixels() == []
    {
      lastX, lastY, numSpans, spans, taken := NOWHERE, NOWHERE, 0, [], {};
    }

    /** `reset`: room for the columns minX..maxX + 1. */
    method Reset(minX: int, maxX: int, dx: int, dy: int)
      requires Buffers() && minX <= maxX
      modifies this
      ensures Valid() && this.minX == minX && this.dx == dx && this.dy == dy
      ensures Buffers() && numSpans == 0 && taken == {} && Pixels() == []
      ensures maxX - minX + 2 <= maxLen
      ensures (covers == old(covers) && starts == old(starts) && counts == old(counts))
              || (fresh(covers) && fresh(starts) && fresh(counts))
    {
      hide LaidOut, Concat;
      var len := maxX - minX + 2;
      if len > maxLen {
        covers, starts, counts := new nat[len], new nat[len], new nat[len];
        maxLen := len;
      }
      this.dx, this.dy, this.minX := dx, dy, minX;
      ResetSpans();
    }

    /** `is_ready`: spans of another row are waiting. */
    predicate IsReady(y: int)
      reads this
    {
      numSpans != 0 && y != lastY
    }

    /** The cover values from rel on have been stored; nothing collected so far depends on them. */
    ghost predicate Stored(y: int, rel: nat, num: nat, cover: nat)
      reads this, covers, starts, counts
    {
      && Valid() && num > 0 && rel + num < maxLen && rel <= NOWHERE
      && (forall i :: rel <= i < rel + num ==> covers[i] == cover)
      && (numSpans > 0 ==> y == lastY) && taken !! Columns(rel, num)
    }

    /** The number of spans and the position after a run. */
    method SpanEnds(n: nat, x: int, y: int, ghost spans': seq<seq<Pixel>>, ghost taken': set<nat>)
      modifies this`lastX, this`lastY, this`numSpans, this`spans, this`taken
      ensures numSpans == n && lastX == x && lastY == y && spans == spans' && taken == taken'
    {
      numSpans, lastX, lastY, spans, taken := n, x, y, spans', taken';
    }

    /** `(*m_cur_count) += num`. */
    method ExtendSpan(y: int, rel: nat, num: nat, cover: nat)
      requires Stored(y, rel, num, cover) && rel == lastX + 1
      modifies this`lastX, this`lastY, this`numSpans, this`spans, this`taken, counts
      ensures Valid() && numSpans > 0 && lastY == y && taken == old(taken) + Columns(rel, num)
      ensures Pixels() == old(Pixels()) + Fill(minX + rel, y, num, cover)
    {
      hide Run, Concat, Fill, Columns, LaidOut;
      ghost var last, fill := spans[numSpans - 1], Fill(minX + rel, y, num, cover);
      LaidOn(covers[..], starts[..], counts[..], spans, taken, minX, y, rel, num, cover);
      ConcatLast(spans[..numSpans - 1], last, fill);
      assert spans == spans[..numSpans - 1] + [last];
      ghost var counts0 := counts[..];
      counts[numSpans] := counts[numSpans] + num;
      assert counts[..] == counts0[numSpans := counts0[numSpans] + num];
      SpanEnds(numSpans, rel + num - 1, y, spans[..numSpans - 1] + [last + fill], taken + Columns(rel, num));
    }

    /** `*++m_cur_count = num; *++m_cur_start_ptr = m_covers + x; m_num_spans++`. */
    method StartSpan(y: int, rel: nat, num: nat, cover: nat)
      requires Stored(y, rel, num, cover) && rel != lastX + 1
      modifies this`lastX, this`lastY, this`numSpans, this`spans, this`taken, counts, starts
      ensures Valid() && numSpans > 0 && lastY == y && taken == old(taken) + Columns(rel, num)
      ensures Pixels() == old(Pixels()) + Fill(minX + rel, y, num, cover)
    {
      hide Run, Concat, Fill, Columns, LaidOut;
      ghost var fill, counts0, starts0 := Fill(minX + rel, y, num, cover), counts[..], starts[..];
      LaidNext(covers[..], starts0, counts0, spans, taken, minX, lastY, lastX, y, rel, num, cover);
      counts[numSpans + 1] := num;
      starts[numSpans + 1] := rel;
      assert counts[..] == counts0[numSpans + 1 := num] && starts[..] == starts0[numSpans + 1 := rel];
      ConcatLast(spans, fill, []);
      SpanEnds(numSpans + 1, rel + num - 1, y, spans + [fill], taken + Columns(rel, num));
    }

    /** `memset(m_covers + x, cover, num)`. */
    method Memset(rel: nat, num: nat, cover: nat)
      requires Buffers() && rel + num <= maxLen
      modifies covers
      ensures forall i :: 0 <= i < maxLen && !(rel <= i < rel + num) ==> covers[i] == old(covers[i])
      ensures forall i :: rel <= i < rel + num ==> covers[i] == cover
    {
      for k := 0 to num
        invariant forall i :: 0 <= i < maxLen && !(rel <= i < rel + k) ==> covers[i] == old(covers[i])
        invariant forall i :: rel <= i < rel + k ==> covers[i] == cover
      {
        covers[rel + k] := cover;
      }
    }

    /** `add_span`: on the same row as everything collected so far, in columns that are still free. */
    method AddSpan(x: int, y: int, num: nat, cover: nat)
      requires Valid() && num > 0 && minX <= x && x - minX + num < maxLen && x - minX <= NOWHERE
      requires (numSpans > 0 ==> y == lastY) && taken !! Columns(x - minX, num)
      modifies this`lastX, this`lastY, this`numSpans, this`spans, this`taken, covers, starts, counts
      ensures Valid() && numSpans > 0 && lastY == y && taken == old(taken) + Columns(x - minX, num)
      ensures Pixels() == old(Pixels()) + Fill(x, y, num, cover)
    {
      hide Run, Concat, Columns, LaidOut;
      var rel: nat := x - minX;
      ghost var before := covers[..];
      Memset(rel, num, cover);
      LaidStill(before, covers[..], starts[..], counts[..], spans, taken, minX, lastY, lastX);
      if rel == lastX + 1 {
        ExtendSpan(y, rel, num, cover);
      } else {
        StartSpan(y, rel, num, cover);
      }
    }

    /** `add_cell`: one pixel, likewise. */
    method AddCell(x: int, y: int, cover: nat)
      requires Valid() && minX <= x && x - minX + 1 < maxLen && x - minX <= NOWHERE
      requires (numSpans > 0 ==> y == lastY) && x - minX !in taken
      modifies this`lastX, this`lastY, this`numSpans, this`spans, this`taken, covers, starts, counts
      ensures Valid() && numSpans > 0 && lastY == y && taken == old(taken) + Columns(x - minX, 1)
      ensures Pixels() == old(Pixels()) + Fill(x, y, 1, cover)
    {
      hide Run, Concat, Columns, LaidOut;
      var rel: nat := x - minX;
      ghost var before := covers[..];
      covers[rel] := cover;
      LaidStill(before, covers[..], starts[..], counts[..], spans, taken, minX, lastY, lastX);
      if rel == lastX + 1 {
        ExtendSpan(y, rel, 1, cover);
      } else {
        StartSpan(y, rel, 1, cover);
      }
    }
  }

  // ------------------------------------------------------------------ clipping

  function ClipOne(p: Pixel, dx: int, dy: int, width: nat, height: nat): seq<Pixel> {
    if 0 <= p.x + dx < width && 0 <= p.y + dy < height then [Pixel(p.x + dx, p.y + dy, p.cover)] else []
  }

  /** The pixels of a list that fall inside a buffer, after moving them by (dx, dy). */
  function Clip(ps: seq<Pixel>, dx: int, dy: int, width: nat, height: nat): seq<Pixel> {
    if ps == [] then []
    else Clip(ps[..|ps| - 1], dx, dy, width, height) + ClipOne(ps[|ps| - 1], dx, dy, width, height)
  }

  lemma {:induction false} ClipConcat(a: seq<Pixel>, b: seq<Pixel>, dx: int, dy: int, width: nat, height: nat)
    ensures Clip(a + b, dx, dy, width, height) == Clip(a, dx, dy, width, height) + Clip(b, dx, dy, width, height)
  {
    if b == [] {
      assert a + b == a;
    } else {
      hide ClipOne;
      ClipConcat(a, b[..|b| - 1], dx, dy, width, height);
      assert (a + b)[..|a + b| - 1] == a + b[..|b| - 1] && (a + b)[|a + b| - 1] == b[|b| - 1];
    }
  }

  lemma ClipOneMember(p: Pixel, dx: int, dy: int, width: nat, height: nat, q: Pixel)
    ensures q in ClipOne(p, dx, dy, width, height) <==>
            0 <= q.x < width && 0 <= q.y < height && p == Pixel(q.x - dx, q.y - dy, q.cover)
  {
  }

  /** A pixel of the buffer is drawn exactly if the pixel it was moved from is in the list. */
  lemma {:induction false} ClipMembers(ps: seq<Pixel>, dx: int, dy: int, width: nat, height: nat, q: Pixel)
    ensures q in Clip(ps, dx, dy, width, height) <==>
            0 <= q.x < width && 0 <= q.y < height && Pixel(q.x - dx, q.y - dy, q.cover) in ps
  {
    hide ClipOne;
    if ps != [] {
      var some, last := ps[..|ps| - 1], ps[|ps| - 1];
      ClipMembers(some, dx, dy, width, height, q);
      ClipOneMember(last, dx, dy, width, height, q);
      assert ps == some + [last];
    }
  }

  lemma {:induction false} ClipOutside(ps: seq<Pixel>, dx: int, dy: int, width: nat, height: nat)
    requires forall p :: p in ps ==> !(0 <= p.x + dx < width && 0 <= p.y + dy < height)
    ensures Clip(ps, dx, dy, width, height) == []
  {
    if ps != [] {
      assert ps[|ps| - 1] in ps;
      ClipOutside(ps[..|ps| - 1], dx, dy, width, height);
    }
  }

  lemma {:induction false} ClipInside(covers: seq<nat>, minX: int, y: int, start: nat, count: nat,
                                      dx: int, dy: int, width: nat, height: nat)
    requires start + count <= |covers| && 0 <= y + dy < height
    requires count > 0 ==> 0 <= minX + start + dx && minX + start + count + dx <= width
    ensures Clip(Run(covers, minX, y, start, count), dx, dy, width, height)
            == Run(covers, minX + dx, y + dy, start, count)
  {
    var run := Run(covers, minX, y, start, count);
    if count > 0 {
      ClipInside(covers, minX, y, start, count - 1, dx, dy, width, height);
      assert run[..count - 1] == Run(covers, minX, y, start, count - 1);
      assert Run(covers, minX + dx, y + dy, start, count)
          == Run(covers, minX + dx, y + dy, start, count - 1)
             + [Pixel(minX + dx + start + count - 1, y + dy, covers[start + count - 1])];
    }
  }

  lemma RunSplit(covers: seq<nat>, minX: int, y: int, start: nat, count: nat, k: nat)
    requires start + count <= |covers| && k <= count
    ensures Run(covers, minX, y, start, count)
            == Run(covers, minX, y, start, k) + Run(covers, minX, y, start + k, count - k)
  {
  }

  lemma RunMembers(covers: seq<nat>, minX: int, y: int, start: nat, count: nat)
    requires start + count <= |covers|
    ensures forall p :: p in Run(covers, minX, y, start, count) ==>
      minX + start <= p.x < minX + start + count && p.y == y
  {
  }

  lemma {:induction false} ConcatRow(spans: seq<seq<Pixel>>, y: int)
    requires forall i :: 0 <= i < |spans| ==> forall p :: p in spans[i] ==> p.y == y
    ensures forall p :: p in Concat(spans) ==> p.y == y
  {
    if spans != [] {
      assert forall i :: 0 <= i < |spans| - 1 ==> spans[..|spans| - 1][i] == spans[i];
      ConcatRow(spans[..|spans| - 1], y);
    }
  }

  lemma ClipRunOut(covers: seq<nat>, minX: int, y: int, start: nat, count: nat,
                   dx: int, dy: int, width: nat, height: nat)
    requires start + count <= |covers|
    requires count == 0 || minX + start + count + dx <= 0 || minX + start + dx >= width
    ensures Clip(Run(covers, minX, y, start, count), dx, dy, width, height) == []
  {
    RunMembers(covers, minX, y, start, count);
    ClipOutside(Run(covers, minX, y, start, count), dx, dy, width, height);
  }

  /**
   A run in a visible row, clipped: `left` pixels fall off on the left, and all but `keep` of the rest on the right.
   */
  lemma ClipRun(covers: seq<nat>, minX: int, y: int, start: nat, count: nat, left: nat, keep: nat,
                dx: int, dy: int, width: nat, height: nat)
    requires start + count <= |covers| && 0 <= y + dy < height && left + keep <= count
    requires left > 0 ==> minX + dx + start + left <= 0
    requires keep > 0 ==> 0 <= minX + dx + start + left && minX + dx + start + left + keep <= width
    requires left + keep < count ==> minX + dx + start + left + keep >= width
    ensures Clip(Run(covers, minX, y, start, count), dx, dy, width, height)
            == Run(covers, minX + dx, y + dy, start + left, keep)
  {
    hide Clip, Run;
    var a := Run(covers, minX, y, start, left);
    var b := Run(covers, minX, y, start + left, keep);
    var c := Run(covers, minX, y, start + left + keep, count - left - keep);
    RunSplit(covers, minX, y, start, count, left);
    RunSplit(covers, minX, y, start + left, count - left, keep);
    ClipConcat(b, c, dx, dy, width, height);
    ClipConcat(a, b + c, dx, dy, width, height);
    ClipRunOut(covers, minX, y, start, left, dx, dy, width, height);
    ClipRunOut(covers, minX, y, start + left + keep, count - left - keep, dx, dy, width, height);
    ClipInside(covers, minX, y, start + left, keep, dx, dy, width, height);
  }

  lemma ClipNothing(dx: int, dy: int, width: nat, height: nat)
    ensures Clip([], dx, dy, width, height) == [] && Concat([]) == []
  {
  }

  /** `renderer`: a pixel buffer, here the list of pixels drawn into it. */
  class Renderer {
    const width: nat
    const height: nat
    var drawn: seq<Pixel>

    constructor (width: nat, height: nat)
      ensures this.width == width && this.height == height && drawn == []
    {
      this.width, this.height, drawn := width, height, [];
    }

    lemma InvisibleRow(sl: Scanline)
      requires sl.Valid() && sl.numSpans > 0 && !(0 <= sl.lastY + sl.dy < height)
      ensures Clip(sl.Pixels(), sl.dx, sl.dy, width, height) == []
    {
      forall i | 0 <= i < |sl.spans| ensures forall p :: p in sl.spans[i] ==> p.y == sl.lastY {
        assert sl.spans[i + 1 - 1] == Run(sl.covers[..], sl.minX, sl.lastY, sl.starts[i + 1], sl.counts[i + 1]);
      }
      ConcatRow(sl.spans, sl.lastY);
      ClipOutside(sl.Pixels(), sl.dx, sl.dy, width, height);
    }

    /** One span of the loop. */
    method RenderSpan(sl: Scanline, n: nat)
      requires sl.Valid() && 1 <= n <= sl.numSpans && 0 <= sl.lastY + sl.dy < height
      modifies this`drawn
      ensures drawn == old(drawn) + Clip(sl.spans[n - 1], sl.dx, sl.dy, width, height)
    {
      hide Clip;
      var start, numPix: int := sl.starts[n], sl.counts[n];
      var x := start + sl.minX + sl.dx;
      ghost var left := 0;
      if x < 0 {
        numPix := numPix + x;
        left := if numPix <= 0 then sl.counts[n] else -x;
        if numPix <= 0 {
          ClipRun(sl.covers[..], sl.minX, sl.lastY, sl.starts[n], sl.counts[n], left, 0, sl.dx, sl.dy, width, height);
          return;
        }
        start := start - x;
        x := 0;
      }
      if x + numPix >= width {
        numPix := width - x;
        if numPix <= 0 {
          ClipRun(sl.covers[..], sl.minX, sl.lastY, sl.starts[n], sl.counts[n], left, 0, sl.dx, sl.dy, width, height);
          return;
        }
      }
      ClipRun(sl.covers[..], sl.minX, sl.lastY, sl.starts[n], sl.counts[n], left, numPix, sl.dx, sl.dy, width, height);
      drawn := drawn + Run(sl.covers[..], x - start, sl.lastY + sl.dy, start, numPix);
    }

    /** `render`: the spans of a scanline, clipped to the buffer. */
    method Render(sl: Scanline)
      requires sl.Valid() && sl.numSpans > 0
      modifies this`drawn
      ensures drawn == old(drawn) + Clip(sl.Pixels(), sl.dx, sl.dy, width, height)
    {
      hide Run, Clip;
      if sl.lastY + sl.dy < 0 || sl.lastY + sl.dy >= height {
        InvisibleRow(sl);
        return;
      }
      var n := 1;
      ClipNothing(sl.dx, sl.dy, width, height);
      assert sl.spans[..0] == [];
      while n <= sl.numSpans
        invariant 1 <= n <= sl.numSpans + 1
        invariant drawn == old(drawn) + Clip(Concat(sl.spans[..n - 1]), sl.dx, sl.dy, width, height)
      {
        ghost var before := drawn;
        RenderSpan(sl, n);
        assert sl.spans[..n][..n - 1] == sl.spans[..n - 1];
        ClipConcat(Concat(sl.spans[..n - 1]), sl.spans[n - 1], sl.dx, sl.dy, width, height);
        n := n + 1;
      }
      assert sl.spans[..n - 1] == sl.spans;
    }
  }
}
