/** `qsort_cells` of pixmapgraphics.mod/agg.cpp: quicksort in place, with an explicit stack of 80 entries. */
module AggSort {
  import opened AggGeometry
  import opened Arithmetic
  import opened Bits
  import opened Int32

  const THRESHOLD: int := 9
  const STACK: nat := 80

  /** `less_than`. */
  predicate Less(a: Cell, b: Cell) {
    a.Packed() < b.Packed()
  }

  /** t is s with the cells from lo up to hi permuted. */
  ghost predicate Permuted(s: seq<Cell>, t: seq<Cell>, lo: nat, hi: nat) {
    && lo <= hi <= |s| == |t| && s[..lo] == t[..lo] && s[hi..] == t[hi..]
    && multiset(s[lo..hi]) == multiset(t[lo..hi])
  }

  /** Everything before position c is at most everything from c on, among the first n cells. */
  ghost predicate Cut(s: seq<Cell>, n: nat, c: nat) {
    forall i, j :: 0 <= i < c <= j < n && j < |s| ==> !Less(s[j], s[i])
  }

  lemma PermutedTrans(s: seq<Cell>, t: seq<Cell>, u: seq<Cell>, lo: nat, hi: nat)
    requires Permuted(s, t, lo, hi) && Permuted(t, u, lo, hi)
    ensures Permuted(s, u, lo, hi)
  {
  }

  lemma PermutedAt(s: seq<Cell>, t: seq<Cell>, lo: nat, hi: nat, k: nat) returns (m: nat)
    requires Permuted(s, t, lo, hi) && k < |t|
    ensures m < |s| && t[k] == s[m]
    ensures if lo <= k < hi then lo <= m < hi else m == k
  {
    if k < lo {
      assert t[..lo][k] == s[..lo][k];
      m := k;
    } else if k >= hi {
      assert t[hi..][k - hi] == s[hi..][k - hi];
      m := k;
    } else {
      assert t[lo..hi][k - lo] in multiset(s[lo..hi]);
      var d :| 0 <= d < |s[lo..hi]| && s[lo..hi][d] == t[k];
      m := lo + d;
    }
  }

  /** Permuting a segment keeps every cut outside it. */
  lemma CutKept(s: seq<Cell>, t: seq<Cell>, lo: nat, hi: nat, n: nat, c: nat)
    requires Permuted(s, t, lo, hi) && hi <= n <= |s| && Cut(s, n, c) && (c <= lo || hi <= c)
    ensures Cut(t, n, c)
  {
    forall i, j | 0 <= i < c <= j < n ensures !Less(t[j], t[i]) {
      var i' := PermutedAt(s, t, lo, hi, i);
      var j' := PermutedAt(s, t, lo, hi, j);
      assert i' < c <= j' < n;
    }
  }

  function Swapped(s: seq<Cell>, i: nat, j: nat): (t: seq<Cell>)
    requires i < |s| && j < |s|
    ensures |t| == |s|
  {
    s[i := s[j]][j := s[i]]
  }

  lemma SwapPermutes(s: seq<Cell>, i: nat, j: nat, lo: nat, hi: nat)
    requires lo <= i < hi <= |s| && lo <= j < hi
    ensures Permuted(s, Swapped(s, i, j), lo, hi)
  {
    var t := Swapped(s, i, j);
    assert t[lo..hi] == s[lo..hi][i - lo := s[j]][j - lo := s[i]];
  }

  method SwapCells(a: array<Cell>, i: nat, j: nat, ghost lo: nat, ghost hi: nat)
    requires lo <= i < hi <= a.Length && lo <= j < hi
    modifies a
    ensures a[..] == Swapped(old(a[..]), i, j)
    ensures Permuted(old(a[..]), a[..], lo, hi)
  {
    SwapPermutes(a[..], i, j, lo, hi);
    var temp := a[i];
    a[i] := a[j];
    a[j] := temp;
  }

  // ------------------------------------------------------------------ partition

  /** `if(less_than(x, y)) swap_cells(x, y)`, in either order of the operands. */
  method Order(a: array<Cell>, i: nat, j: nat, ghost lo: nat, ghost hi: nat)
    requires lo <= i < hi <= a.Length && lo <= j < hi && i != j
    modifies a
    ensures Permuted(old(a[..]), a[..], lo, hi)
    ensures forall k :: 0 <= k < a.Length && k != i && k != j ==> a[k] == old(a[k])
    ensures !Less(a[j], a[i])
    ensures (a[i] == old(a[i]) && a[j] == old(a[j])) || (a[i] == old(a[j]) && a[j] == old(a[i]))
  {
    if Less(a[j], a[i]) {
      SwapCells(a, i, j, lo, hi);
    }
  }

  /** The pivot moves to `base`, and the first and last of the rest are put on its two sides. */
  method MedianOfThree(a: array<Cell>, base: nat, limit: nat)
    requires base + THRESHOLD < limit <= a.Length
    modifies a
    ensures Permuted(old(a[..]), a[..], base, limit)
    ensures !Less(a[base], a[base + 1]) && !Less(a[limit - 1], a[base])
  {
    hide Permuted, Cell.Packed;
    var pivot := base + (limit - base) / 2;
    var i, j := base + 1, limit - 1;
    SwapCells(a, base, pivot, base, limit);
    ghost var s := a[..];
    Order(a, i, j, base, limit);
    PermutedTrans(old(a[..]), s, a[..], base, limit);
    ghost var t := a[..];
    Order(a, i, base, base, limit);
    PermutedTrans(old(a[..]), t, a[..], base, limit);
    ghost var u := a[..];
    Order(a, base, j, base, limit);
    PermutedTrans(old(a[..]), u, a[..], base, limit);
  }

  /** `do i++; while(less_than(i, base));`: the cell at `stop` ends it, so it never leaves the sub-array. */
  method ScanUp(a: array<Cell>, base: nat, i0: nat, ghost stop: nat) returns (i: nat)
    requires base < i0 < stop < a.Length && !Less(a[stop], a[base])
    ensures i0 < i <= stop && !Less(a[i], a[base])
    ensures forall k :: i0 < k < i ==> Less(a[k], a[base])
  {
    i := i0 + 1;
    while Less(a[i], a[base])
      invariant i0 < i <= stop
      invariant forall k :: i0 < k < i ==> Less(a[k], a[base])
      decreases stop - i
    {
      i := i + 1;
    }
  }

  /** `do j--; while(less_than(base, j));`: likewise. */
  method ScanDown(a: array<Cell>, base: nat, j0: nat, ghost stop: nat) returns (j: nat)
    requires base < stop < j0 < a.Length && !Less(a[base], a[stop])
    ensures stop <= j < j0 && !Less(a[base], a[j])
    ensures forall k :: j < k < j0 ==> Less(a[base], a[k])
  {
    j := j0 - 1;
    while Less(a[base], a[j])
      invariant stop <= j < j0
      invariant forall k :: j < k < j0 ==> Less(a[base], a[k])
      decreases j
    {
      j := j - 1;
    }
  }

  /** Cells up to i are at most the pivot at base, cells from j on are at least. */
  ghost predicate Parted(s: seq<Cell>, base: nat, limit: nat, i: nat, j: nat) {
    && base < i < limit <= |s| && base < j < limit
    && (forall k :: base < k <= i ==> !Less(s[base], s[k]))
    && (forall k :: j <= k < limit ==> !Less(s[k], s[base]))
  }

  /** Where both scans have stopped: i at a cell not below the pivot, j at one not above it. */
  ghost predicate Scanned(s: seq<Cell>, base: nat, limit: nat, i: nat, j: nat) {
    && base + 1 < i < limit <= |s| && base < j < limit - 1
    && (forall k :: base < k < i ==> !Less(s[base], s[k]))
    && (forall k :: j < k < limit ==> !Less(s[k], s[base]))
    && !Less(s[i], s[base]) && !Less(s[base], s[j])
  }

  method ScanBoth(a: array<Cell>, base: nat, limit: nat, i0: nat, j0: nat) returns (i: nat, j: nat)
    requires limit <= a.Length && Parted(a[..], base, limit, i0, j0)
    requires i0 < limit - 1 && base + 1 < j0
    ensures Scanned(a[..], base, limit, i, j) && i0 < i && j < j0
  {
    i := ScanUp(a, base, i0, limit - 1);
    j := ScanDown(a, base, j0, base + 1);
  }

  lemma SwapParts(s: seq<Cell>, base: nat, limit: nat, i: nat, j: nat)
    requires Scanned(s, base, limit, i, j) && i <= j
    ensures Parted(Swapped(s, i, j), base, limit, i, j)
  {
  }

  lemma PivotParts(s: seq<Cell>, base: nat, limit: nat, i: nat, j: nat)
    requires Scanned(s, base, limit, i, j) && j < i
    ensures forall k :: base <= k < i ==> !Less(Swapped(s, base, j)[j], Swapped(s, base, j)[k])
    ensures forall k :: j <= k < limit ==> !Less(Swapped(s, base, j)[k], Swapped(s, base, j)[j])
  {
  }

  lemma StartParted(s: seq<Cell>, base: nat, limit: nat)
    requires base + 2 < limit <= |s| && !Less(s[base], s[base + 1]) && !Less(s[limit - 1], s[base])
    ensures Parted(s, base, limit, base + 1, limit - 1)
  {
  }

  lemma ScannedBounds(s: seq<Cell>, base: nat, limit: nat, i: nat, j: nat)
    requires Scanned(s, base, limit, i, j)
    ensures base + 1 < i < limit <= |s| && base < j < limit - 1
  {
  }

  lemma AtPivot(s: seq<Cell>, t: seq<Cell>, base: nat, limit: nat, i: nat, j: nat)
    requires base <= j < limit <= |s| && i <= limit && t == Swapped(s, base, j)
    requires forall k :: base <= k < i ==> !Less(Swapped(s, base, j)[j], Swapped(s, base, j)[k])
    requires forall k :: j <= k < limit ==> !Less(Swapped(s, base, j)[k], Swapped(s, base, j)[j])
    ensures forall k :: base <= k < i ==> !Less(t[j], t[k])
    ensures forall k :: j <= k < limit ==> !Less(t[k], t[j])
  {
  }

  /**
   The partition: afterwards the cells before i are at most the cell at j, and those from j on at least;
   so those between j and i equal it.
   */
  method Partition(a: array<Cell>, base: nat, limit: nat) returns (i: nat, j: nat)
    requires base + THRESHOLD < limit <= a.Length
    modifies a
    ensures Permuted(old(a[..]), a[..], base, limit)
    ensures base < j < i < limit
    ensures forall k :: base <= k < i ==> !Less(a[j], a[k])
    ensures forall k :: j <= k < limit ==> !Less(a[k], a[j])
  {
    hide Permuted, Parted, Scanned, Less, Swapped;
    MedianOfThree(a, base, limit);
    i, j := base + 1, limit - 1;
    StartParted(a[..], base, limit);
    while true
      invariant Parted(a[..], base, limit, i, j) && base < i <= j < limit
      invariant i < limit - 1 && base + 1 < j
      invariant Permuted(old(a[..]), a[..], base, limit)
      decreases j - i
    {
      ghost var s := a[..];
      i, j := ScanBoth(a, base, limit, i, j);
      ScannedBounds(s, base, limit, i, j);
      if i > j {
        break;
      }
      SwapParts(s, base, limit, i, j);
      SwapCells(a, i, j, base, limit);
      PermutedTrans(old(a[..]), s, a[..], base, limit);
    }
    ghost var s := a[..];
    ScannedBounds(s, base, limit, i, j);
    PivotParts(s, base, limit, i, j);
    SwapCells(a, base, j, base, limit);
    PermutedTrans(old(a[..]), s, a[..], base, limit);
    AtPivot(s, a[..], base, limit, i, j);
  }

  // ------------------------------------------------------------------ small sub-arrays

  ghost predicate SortedRange(s: seq<Cell>, lo: nat, hi: nat) {
    forall p, q :: lo <= p < q < hi && q < |s| ==> !Less(s[q], s[p])
  }

  /** Sorted but for the cell at m, which is still on its way down. */
  ghost predicate Sinking(s: seq<Cell>, lo: nat, hi: nat, m: nat) {
    && lo <= m < hi <= |s|
    && (forall p, q :: lo <= p < q < hi && p != m && q != m ==> !Less(s[q], s[p]))
    && (forall q :: m < q < hi ==> !Less(s[q], s[m]))
  }

  lemma SinkStart(s: seq<Cell>, lo: nat, hi: nat)
    requires lo < hi < |s| && SortedRange(s, lo, hi)
    ensures Sinking(s, lo, hi + 1, hi)
  {
    hide Less;
  }

  lemma SinkStep(s: seq<Cell>, lo: nat, hi: nat, m: nat)
    requires Sinking(s, lo, hi, m) && lo < m && Less(s[m], s[m - 1])
    ensures Sinking(Swapped(s, m, m - 1), lo, hi, m - 1)
  {
  }

  lemma SinkEnd(s: seq<Cell>, lo: nat, hi: nat, m: nat)
    requires Sinking(s, lo, hi, m) && (m == lo || !Less(s[m], s[m - 1]))
    ensures SortedRange(s, lo, hi)
  {
    forall p, q | lo <= p < q < hi ensures !Less(s[q], s[p]) {
      if q == m && p < m - 1 {
        assert !Less(s[m - 1], s[p]);
      }
    }
  }

  lemma PermutedSelf(s: seq<Cell>, lo: nat, hi: nat)
    requires lo <= hi <= |s|
    ensures Permuted(s, s, lo, hi)
  {
  }

  method SinkOne(a: array<Cell>, base: nat, i: nat, j: nat, ghost limit: nat, ghost s0: seq<Cell>)
    requires base <= j < i < limit <= a.Length && Sinking(a[..], base, i + 1, j + 1) && Less(a[j + 1], a[j])
    requires Permuted(s0, a[..], base, limit)
    modifies a
    ensures Sinking(a[..], base, i + 1, j) && Permuted(s0, a[..], base, limit)
  {
    hide Permuted, Less, Swapped, Sinking;
    ghost var s := a[..];
    SinkStep(s, base, i + 1, j + 1);
    SwapCells(a, j + 1, j, base, limit);
    PermutedTrans(s0, s, a[..], base, limit);
  }

  /** The inner loop: the cell at i sinks to its place. */
  method Sink(a: array<Cell>, base: nat, i: nat, ghost limit: nat)
    requires base < i < limit <= a.Length && SortedRange(a[..], base, i)
    modifies a
    ensures SortedRange(a[..], base, i + 1) && Permuted(old(a[..]), a[..], base, limit)
  {
    hide Permuted, Less, Swapped, Sinking, SortedRange;
    var j := i - 1;
    SinkStart(a[..], base, i);
    PermutedSelf(a[..], base, limit);
    while Less(a[j + 1], a[j])
      invariant base <= j < i && Sinking(a[..], base, i + 1, j + 1)
      invariant Permuted(old(a[..]), a[..], base, limit)
      decreases j
    {
      SinkOne(a, base, i, j, limit, old(a[..]));
      if j == base {
        SinkEnd(a[..], base, i + 1, j);
        return;
      }
      j := j - 1;
    }
    SinkEnd(a[..], base, i + 1, j + 1);
  }

  method InsertionSort(a: array<Cell>, base: nat, limit: nat)
    requires base <= limit <= a.Length
    modifies a
    ensures Permuted(old(a[..]), a[..], base, limit) && SortedRange(a[..], base, limit)
  {
    hide Permuted, Less;
    PermutedSelf(a[..], base, limit);
    var i := base + 1;
    while i < limit
      invariant base < i && SortedRange(a[..], base, if i < limit then i else limit)
      invariant Permuted(old(a[..]), a[..], base, limit)
    {
      ghost var s := a[..];
      Sink(a, base, i, limit);
      PermutedTrans(old(a[..]), s, a[..], base, limit);
      i := i + 1;
    }
  }

  // ------------------------------------------------------------------ the explicit stack

  datatype Segment = Segment(lo: nat, hi: nat)

  function Size(segs: seq<Segment>): nat
    requires forall k :: 0 <= k < |segs| ==> segs[k].lo <= segs[k].hi
  {
    if segs == [] then 0 else Size(segs[..|segs| - 1]) + (segs[|segs| - 1].hi - segs[|segs| - 1].lo)
  }

  /** Pairwise disjoint sub-arrays of the first n cells. */
  ghost predicate Disjoint(segs: seq<Segment>, n: nat) {
    && (forall k :: 0 <= k < |segs| ==> segs[k].lo <= segs[k].hi <= n)
    && (forall k, m :: 0 <= k < m < |segs| ==> segs[k].hi <= segs[m].lo || segs[m].hi <= segs[k].lo)
  }

  ghost predicate Inside(segs: seq<Segment>, c: nat) {
    exists k :: 0 <= k < |segs| && segs[k].lo < c < segs[k].hi
  }

  /** Only positions strictly inside a pending segment may fail to be cuts. */
  ghost predicate Pending(s: seq<Cell>, segs: seq<Segment>, n: nat) {
    && Disjoint(segs, n) && n <= |s|
    && forall c :: 0 <= c <= n ==> Cut(s, n, c) || Inside(segs, c)
  }

  /** The segment at depth k of the stack has at most n / 2^k cells. */
  ghost predicate Halving(segs: seq<Segment>, n: nat) {
    forall k :: 0 <= k < |segs| ==> segs[k].lo <= segs[k].hi && Pow2(k) * (segs[k].hi - segs[k].lo) <= n
  }

  /** The current segment is the last of `segs`. */
  lemma CutsAround(s: seq<Cell>, segs: seq<Segment>, n: nat, k: nat)
    requires Pending(s, segs, n) && k < |segs|
    ensures Cut(s, n, segs[k].lo) && Cut(s, n, segs[k].hi)
  {
  }

  lemma InnerCut(t: seq<Cell>, n: nat, lo: nat, hi: nat, c: nat)
    requires lo <= c <= hi <= n <= |t| && Cut(t, n, lo) && Cut(t, n, hi)
    requires forall p, q :: lo <= p < c <= q < hi ==> !Less(t[q], t[p])
    ensures Cut(t, n, c)
  {
    forall i, j | 0 <= i < c <= j < n ensures !Less(t[j], t[i]) {
    }
  }

  /** Cuts before and after work on the last segment. */
  lemma OuterCut(s: seq<Cell>, t: seq<Cell>, segs: seq<Segment>, n: nat, c: nat)
    requires Pending(s, segs, n) && segs != [] && c <= n
    requires Permuted(s, t, segs[|segs| - 1].lo, segs[|segs| - 1].hi)
    requires c <= segs[|segs| - 1].lo || segs[|segs| - 1].hi <= c
    ensures Cut(t, n, c) || Inside(segs[..|segs| - 1], c)
  {
    var last := segs[|segs| - 1];
    if Inside(segs, c) {
      var k :| 0 <= k < |segs| && segs[k].lo < c < segs[k].hi;
      assert segs[..|segs| - 1][k] == segs[k];
    } else {
      CutKept(s, t, last.lo, last.hi, n, c);
    }
  }

  lemma SegmentCuts(s: seq<Cell>, t: seq<Cell>, segs: seq<Segment>, n: nat)
    requires Pending(s, segs, n) && segs != []
    requires Permuted(s, t, segs[|segs| - 1].lo, segs[|segs| - 1].hi)
    ensures segs[|segs| - 1].hi <= n <= |t| == |s|
    ensures Cut(t, n, segs[|segs| - 1].lo) && Cut(t, n, segs[|segs| - 1].hi)
  {
    var last := segs[|segs| - 1];
    CutsAround(s, segs, n, |segs| - 1);
    CutKept(s, t, last.lo, last.hi, n, last.lo);
    CutKept(s, t, last.lo, last.hi, n, last.hi);
  }

  /** A sorted segment is no longer pending. */
  lemma SegmentDone(s: seq<Cell>, t: seq<Cell>, segs: seq<Segment>, n: nat)
    requires Pending(s, segs, n) && segs != []
    requires Permuted(s, t, segs[|segs| - 1].lo, segs[|segs| - 1].hi)
    requires SortedRange(t, segs[|segs| - 1].lo, segs[|segs| - 1].hi)
    ensures Pending(t, segs[..|segs| - 1], n)
  {
    hide Permuted, Less;
    var last := segs[|segs| - 1];
    CutsAround(s, segs, n, |segs| - 1);
    SegmentCuts(s, t, segs, n);
    forall c | 0 <= c <= n ensures Cut(t, n, c) || Inside(segs[..|segs| - 1], c) {
      if last.lo < c < last.hi {
        InnerCut(t, n, last.lo, last.hi, c);
      } else {
        OuterCut(s, t, segs, n, c);
      }
    }
  }

  lemma InsideMore(rest: seq<Segment>, more: seq<Segment>, seg: Segment, c: nat)
    requires seg in more && seg.lo < c < seg.hi
    ensures Inside(rest + more, c)
  {
    var k :| 0 <= k < |more| && more[k] == seg;
    assert (rest + more)[|rest| + k] == seg;
  }

  /** A partitioned segment is replaced by its two sides. */
  lemma SegmentSplit(s: seq<Cell>, t: seq<Cell>, segs: seq<Segment>, n: nat, i: nat, j: nat, more: seq<Segment>)
    requires Pending(s, segs, n) && segs != []
    requires Permuted(s, t, segs[|segs| - 1].lo, segs[|segs| - 1].hi)
    requires segs[|segs| - 1].lo < j < i < segs[|segs| - 1].hi
    requires forall k :: segs[|segs| - 1].lo <= k < i && k < |t| ==> !Less(t[j], t[k])
    requires forall k :: j <= k < segs[|segs| - 1].hi && k < |t| ==> !Less(t[k], t[j])
    requires more == [Segment(segs[|segs| - 1].lo, j), Segment(i, segs[|segs| - 1].hi)]
             || more == [Segment(i, segs[|segs| - 1].hi), Segment(segs[|segs| - 1].lo, j)]
    ensures Pending(t, segs[..|segs| - 1] + more, n)
  {
    hide Permuted, Cut;
    var last, rest := segs[|segs| - 1], segs[..|segs| - 1];
    var all := rest + more;
    SegmentCuts(s, t, segs, n);
    forall c | 0 <= c <= n ensures Cut(t, n, c) || Inside(all, c) {
      if last.lo < c < j {
        InsideMore(rest, more, Segment(last.lo, j), c);
      } else if i < c < last.hi {
        InsideMore(rest, more, Segment(i, last.hi), c);
      } else if j <= c <= i {
        InnerCut(t, n, last.lo, last.hi, c);
      } else {
        OuterCut(s, t, segs, n, c);
        if Inside(rest, c) {
          var k :| 0 <= k < |rest| && rest[k].lo < c < rest[k].hi;
          assert all[k] == rest[k];
        }
      }
    }
  }

  lemma Multiply(a: nat, b: nat, c: nat, d: nat)
    requires a <= c && b <= d
    ensures a * b <= c * d
  {
    Ordered(a, c, b);
    Ordered(b, d, c);
  }

  lemma Pow2At29()
    ensures Pow2(29) == 0x2000_0000
  {
    assert Pow2(10) == 0x400;
    assert Pow2(20) == 0x10_0000;
  }

  /** The stack never fills: a segment worth splitting lies at most 28 levels deep. */
  lemma StackBound(k: nat, len: nat, n: nat)
    requires Pow2(k) * len <= n < 0x1_0000_0000 && len > THRESHOLD
    ensures 2 * k + 2 <= 80
  {
    hide Pow2;
    if k >= 29 {
      Pow2At29();
      Pow2Monotone(29, k);
      Multiply(0x2000_0000, 10, Pow2(k), len);
    }
  }

  /** The larger side stays at this depth; the smaller one, at most half as long, goes one level deeper. */
  lemma HalvingPush(segs: seq<Segment>, cur: Segment, larger: Segment, smaller: Segment, n: nat)
    requires Halving(segs + [cur], n) && larger.lo <= larger.hi && smaller.lo <= smaller.hi
    requires larger.hi - larger.lo <= cur.hi - cur.lo && 2 * (smaller.hi - smaller.lo) <= cur.hi - cur.lo
    ensures Halving(segs + [larger] + [smaller], n)
  {
    var d, all := |segs|, segs + [larger] + [smaller];
    assert (segs + [cur])[d] == cur;
    forall k | 0 <= k < |all| ensures all[k].lo <= all[k].hi && Pow2(k) * (all[k].hi - all[k].lo) <= n {
      if k < d {
        assert all[k] == (segs + [cur])[k];
      } else if k == d {
        Multiply(Pow2(d), larger.hi - larger.lo, Pow2(d), cur.hi - cur.lo);
      } else {
        assert Pow2(k) * (smaller.hi - smaller.lo) == Pow2(d) * (2 * (smaller.hi - smaller.lo));
        Multiply(Pow2(d), 2 * (smaller.hi - smaller.lo), Pow2(d), cur.hi - cur.lo);
      }
    }
  }

  lemma SizeAppend(segs: seq<Segment>, more: Segment)
    requires (forall k :: 0 <= k < |segs| ==> segs[k].lo <= segs[k].hi) && more.lo <= more.hi
    ensures Size(segs + [more]) == Size(segs) + (more.hi - more.lo)
  {
    assert (segs + [more])[..|segs|] == segs;
  }

  /** The explicit stack spells the pending segments. */
  ghost predicate OnStack(stack: seq<nat>, top: nat, segs: seq<Segment>) {
    && top == 2 * |segs| <= |stack|
    && forall k :: 0 <= k < |segs| ==> stack[2 * k] == segs[k].lo && stack[2 * k + 1] == segs[k].hi
  }

  ghost predicate SortState(s: seq<Cell>, segs: seq<Segment>, base: nat, limit: nat, n: nat) {
    var all := segs + [Segment(base, limit)];
    Pending(s, all, n) && Halving(all, n)
  }

  ghost function Measure(segs: seq<Segment>, base: nat, limit: nat): nat
    requires base <= limit && forall k :: 0 <= k < |segs| ==> segs[k].lo <= segs[k].hi
  {
    Size(segs) + (limit - base)
  }

  lemma StateBounds(s: seq<Cell>, segs: seq<Segment>, base: nat, limit: nat, n: nat)
    requires SortState(s, segs, base, limit, n)
    ensures base <= limit <= n <= |s| && forall k :: 0 <= k < |segs| ==> segs[k].lo <= segs[k].hi <= n
    ensures Pow2(|segs|) * (limit - base) <= n
  {
    hide Cut, Inside, Pow2;
    var all := segs + [Segment(base, limit)];
    assert all[|segs|] == Segment(base, limit);
    forall k | 0 <= k < |segs| ensures segs[k].lo <= segs[k].hi <= n {
      assert all[k] == segs[k];
    }
  }

  /** What a partition does to the state of the sort. */
  lemma StateSplit(s: seq<Cell>, t: seq<Cell>, segs: seq<Segment>, base: nat, limit: nat, n: nat, i: nat, j: nat)
    requires SortState(s, segs, base, limit, n) && Permuted(s, t, base, limit) && base < j < i < limit
    requires forall k :: base <= k < i && k < |t| ==> !Less(t[j], t[k])
    requires forall k :: j <= k < limit && k < |t| ==> !Less(t[k], t[j])
    ensures j - base > limit - i ==> SortState(t, segs + [Segment(base, j)], i, limit, n)
    ensures j - base <= limit - i ==> SortState(t, segs + [Segment(i, limit)], base, j, n)
  {
    hide Pending, Halving, Permuted, Less;
    var cur := Segment(base, limit);
    var all := segs + [cur];
    assert all[..|all| - 1] == segs && all[|all| - 1] == cur;
    if j - base > limit - i {
      SegmentSplit(s, t, all, n, i, j, [Segment(base, j), Segment(i, limit)]);
      HalvingPush(segs, cur, Segment(base, j), Segment(i, limit), n);
      assert segs + [Segment(base, j), Segment(i, limit)] == segs + [Segment(base, j)] + [Segment(i, limit)];
    } else {
      SegmentSplit(s, t, all, n, i, j, [Segment(i, limit), Segment(base, j)]);
      HalvingPush(segs, cur, Segment(i, limit), Segment(base, j), n);
      assert segs + [Segment(i, limit), Segment(base, j)] == segs + [Segment(i, limit)] + [Segment(base, j)];
    }
  }

  lemma AllCuts(t: seq<Cell>, n: nat)
    requires Pending(t, [], n)
    ensures SortedRange(t, 0, n)
  {
    forall p, q | 0 <= p < q < n && q < |t| ensures !Less(t[q], t[p]) {
      assert Cut(t, n, q) || Inside([], q);
    }
  }

  /** What sorting a small segment does to the state of the sort. */
  lemma StatePop(s: seq<Cell>, t: seq<Cell>, segs: seq<Segment>, base: nat, limit: nat, n: nat)
    requires SortState(s, segs, base, limit, n) && Permuted(s, t, base, limit) && SortedRange(t, base, limit)
    ensures segs == [] ==> SortedRange(t, 0, n)
    ensures segs != [] ==> SortState(t, segs[..|segs| - 1], segs[|segs| - 1].lo, segs[|segs| - 1].hi, n)
  {
    hide Permuted, Less, SortedRange;
    var all := segs + [Segment(base, limit)];
    assert all[..|all| - 1] == segs && all[|all| - 1] == Segment(base, limit);
    SegmentDone(s, t, all, n);
    if segs == [] {
      AllCuts(t, n);
    } else {
      assert segs == segs[..|segs| - 1] + [segs[|segs| - 1]];
      forall k | 0 <= k < |segs| ensures segs[k].lo <= segs[k].hi && Pow2(k) * (segs[k].hi - segs[k].lo) <= n {
        assert all[k] == segs[k];
      }
    }
  }

  /** A permutation inside a segment is one of the whole prefix. */
  lemma Widen(s: seq<Cell>, t: seq<Cell>, lo: nat, hi: nat, n: nat)
    requires Permuted(s, t, lo, hi) && hi <= n <= |s|
    ensures Permuted(s, t, 0, n)
  {
    assert s[hi..n] == s[hi..][..n - hi] && t[hi..n] == t[hi..][..n - hi];
    assert s[0..n] == s[..lo] + s[lo..hi] + s[hi..n];
    assert t[0..n] == t[..lo] + t[lo..hi] + t[hi..n];
    assert s[n..] == s[hi..][n - hi..] && t[n..] == t[hi..][n - hi..];
  }

  lemma StateStart(s: seq<Cell>, n: nat)
    requires n <= |s|
    ensures SortState(s, [], 0, n, n)
  {
    var all := [] + [Segment(0, n)];
    assert all == [Segment(0, n)];
    forall c | 0 <= c <= n ensures Cut(s, n, c) || Inside(all, c) {
      if 0 < c < n { assert all[0].lo < c < all[0].hi; }
    }
  }

  lemma StackStart(stack: seq<nat>)
    ensures OnStack(stack, 0, [])
  {
  }

  lemma OnStackDepth(stack: seq<nat>, top: nat, segs: seq<Segment>)
    requires OnStack(stack, top, segs)
    ensures top == 2 * |segs| <= |stack|
  {
  }

  lemma StackPush(stack: seq<nat>, top: nat, segs: seq<Segment>, lo: nat, hi: nat)
    requires OnStack(stack, top, segs) && top + 2 <= |stack|
    ensures OnStack(stack[top := lo][top + 1 := hi], top + 2, segs + [Segment(lo, hi)])
  {
  }

  lemma MeasureSplit(segs: seq<Segment>, pushed: Segment, base0: nat, limit0: nat, base: nat, limit: nat)
    requires forall k :: 0 <= k < |segs| ==> segs[k].lo <= segs[k].hi
    requires base0 <= limit0 && base <= limit && pushed.lo <= pushed.hi
    requires (pushed.hi - pushed.lo) + (limit - base) < limit0 - base0
    ensures Measure(segs + [pushed], base, limit) < Measure(segs, base0, limit0)
  {
    SizeAppend(segs, pushed);
  }

  lemma StackTop(stack: seq<nat>, top: nat, segs: seq<Segment>)
    requires OnStack(stack, top, segs) && top > 0
    ensures top >= 2 && segs != [] && OnStack(stack, top - 2, segs[..|segs| - 1])
    ensures segs[|segs| - 1] == Segment(stack[top - 2], stack[top - 1])
  {
  }

  lemma MeasurePop(segs: seq<Segment>, base: nat, limit: nat)
    requires segs != [] && base <= limit && forall k :: 0 <= k < |segs| ==> segs[k].lo <= segs[k].hi
    ensures Measure(segs[..|segs| - 1], segs[|segs| - 1].lo, segs[|segs| - 1].hi) <= Measure(segs, base, limit)
  {
  }

  /** `top[0] = lo; top[1] = hi`. */
  method Push(stack: array<nat>, top: nat, ghost segs: seq<Segment>, lo: nat, hi: nat)
    requires OnStack(stack[..], top, segs) && top + 2 <= stack.Length
    modifies stack
    ensures OnStack(stack[..], top + 2, segs + [Segment(lo, hi)])
  {
    hide OnStack;
    StackPush(stack[..], top, segs, lo, hi);
    stack[top], stack[top + 1] := lo, hi;
  }

  /** `int(limit - base)` turns negative from 2^31 cells on. */
  lemma LengthOf(n: nat)
    requires n < WORD32
    ensures AsInt32(n) == if n < 0x8000_0000 then n else n - WORD32
  {
    SameWrapped(n);
    if n >= 0x8000_0000 {
      SameTurned(n, -1);
      SameWrapped(n - WORD32);
    }
  }

  /**
   `qsort_cells`: the first `num` cells end up in packed order, for any count below 2^32. A stretch of 2^31 cells or
   more has a negative length and goes to the insertion sort.
   */
  method QSortCells(a: array<Cell>, num: nat)
    requires num <= a.Length && num < 0x1_0000_0000
    modifies a
    ensures Permuted(old(a[..]), a[..], 0, num) && SortedRange(a[..], 0, num)
  {
    hide Permuted, SortedRange, SortState, Less, Measure, OnStack, AsInt32;
    var stack := new nat[STACK](_ => 0);
    var top: nat, base: nat, limit: nat := 0, 0, num;
    ghost var segs: seq<Segment> := [];
    PermutedSelf(a[..], 0, num);
    StateStart(a[..], num);
    StackStart(stack[..]);
    StateBounds(a[..], segs, base, limit, num);
    while true
      invariant SortState(a[..], segs, base, limit, num) && OnStack(stack[..], top, segs)
      invariant Permuted(old(a[..]), a[..], 0, num)
      invariant base <= limit && forall k :: 0 <= k < |segs| ==> segs[k].lo <= segs[k].hi
      decreases Measure(segs, base, limit), |segs|
    {
      ghost var s, segs0, base0, limit0 := a[..], segs, base, limit;
      StateBounds(s, segs, base, limit, num);
      LengthOf(limit - base);
      var len := AsInt32(limit - base);
      if len > THRESHOLD {
        var i, j := Partition(a, base, limit);
        Widen(s, a[..], base, limit, num);
        PermutedTrans(old(a[..]), s, a[..], 0, num);
        StateSplit(s, a[..], segs, base, limit, num, i, j);
        StackBound(|segs|, limit - base, num);
        OnStackDepth(stack[..], top, segs);
        if j - base > limit - i {
          Push(stack, top, segs, base, j);
          segs := segs + [Segment(base, j)];
          base := i;
        } else {
          Push(stack, top, segs, i, limit);
          segs := segs + [Segment(i, limit)];
          limit := j;
        }
        top := top + 2;
        MeasureSplit(segs0, segs[|segs0|], base0, limit0, base, limit);
      } else {
        InsertionSort(a, base, limit);
        Widen(s, a[..], base, limit, num);
        PermutedTrans(old(a[..]), s, a[..], 0, num);
        StatePop(s, a[..], segs, base, limit, num);
        OnStackDepth(stack[..], top, segs);
        if top > 0 {
          StackTop(stack[..], top, segs);
          MeasurePop(segs, base, limit);
          top := top - 2;
          base, limit := stack[top], stack[top + 1];
          segs := segs[..|segs| - 1];
        } else {
          break;
        }
      }
    }
  }
}
