/** The sorting of v8.mod/src/array.js: quicksort over a binary insertion sort, with any comparison function. */
module JsSort {
  /** What may be learned from a comparison function's result by comparing it with zero. */
  datatype Order = Less | Zero | Greater | NotANumber

  ghost predicate TotalPreorder<V(!new)>(le: (V, V) -> bool) {
    && (forall x, y :: le(x, y) || le(y, x))
    && (forall x, y, z :: le(x, y) && le(y, z) ==> le(x, z))
  }

  /** A comparison function: its answers may depend on everything, even on how often it was called before. */
  class Comparator<V(!new)> {
    // `===`, which need not be equality of values: it tells NaN from itself, but not 0 from -0.
    const identical: (V, V) -> bool
    const answers: (nat, V, V) -> Order
    var calls: nat

    constructor (identical: (V, V) -> bool, answers: (nat, V, V) -> Order)
      ensures this.identical == identical && this.answers == answers
    {
      this.identical, this.answers, calls := identical, answers, 0;
    }

    /** What the n-th question brings. */
    function Answer(n: nat, x: V, y: V): Order { if identical(x, y) then Zero else answers(n, x, y) }

    /** `Compare`: identical values are never passed to the comparison function. */
    method Compare(x: V, y: V) returns (order: Order)
      modifies this
      ensures order == if identical(x, y) then Zero else answers(old(calls), x, y)
    {
      if identical(x, y) { return Zero; }
      order := answers(calls, x, y);
      calls := calls + 1;
    }

    /** The comparison function is a consistent one: it reports a total preorder that respects `===`. */
    ghost predicate Follows(le: (V, V) -> bool) {
      && TotalPreorder(le) && (forall x, y :: identical(x, y) ==> le(x, y) && le(y, x))
      && forall n, x, y :: answers(n, x, y) == if !le(x, y) then Greater else if le(y, x) then Zero else Less
    }
  }

  ghost predicate Sorted<V>(s: seq<V>, le: (V, V) -> bool) {
    forall i, j :: 0 <= i < j < |s| ==> le(s[i], s[j])
  }

  ghost predicate AllBelow<V>(s: seq<V>, p: V, le: (V, V) -> bool) {
    forall x :: x in s ==> le(x, p)
  }

  ghost predicate AllAbove<V>(s: seq<V>, p: V, le: (V, V) -> bool) {
    forall x :: x in s ==> le(p, x)
  }

  /** The same values, in whatever order. */
  ghost predicate Permuted<V>(s: seq<V>, t: seq<V>) {
    multiset(s) == multiset(t)
  }

  lemma Exchange<V>(s: seq<V>, i: nat, j: nat)
    requires i < |s| && j < |s|
    ensures Permuted(s, s[i := s[j]][j := s[i]])
  {
  }

  /** Moving one element forward within a sequence. */
  lemma Insertion<V>(s: seq<V>, i: nat, k: nat)
    requires k <= i < |s|
    ensures Permuted(s, s[..k] + [s[i]] + s[k..i] + s[i + 1..])
  {
    assert s == s[..k] + s[k..i] + [s[i]] + s[i + 1..];
  }

  lemma InsertionSorted<V(!new)>(s: seq<V>, k: nat, x: V, le: (V, V) -> bool)
    requires TotalPreorder(le) && Sorted(s, le) && k <= |s|
    requires AllBelow(s[..k], x, le) && AllAbove(s[k..], x, le)
    ensures Sorted(s[..k] + [x] + s[k..], le)
  {
    var t := s[..k] + [x] + s[k..];
    forall i, j | 0 <= i < j < |t|
      ensures le(t[i], t[j])
    {
      if j == k {
        assert t[i] in s[..k];
      } else if i == k {
        assert t[j] in s[k..];
      }
    }
  }

  lemma Trivial<V>(s: seq<V>, le: (V, V) -> bool)
    ensures Permuted(s, s) && (|s| <= 1 ==> Sorted(s, le))
  {
  }

  lemma Chained<V>(s: seq<V>, t: seq<V>, u: seq<V>)
    requires Permuted(s, t) && Permuted(t, u)
    ensures Permuted(s, u)
  {
  }

  lemma Probe<V(!new)>(s: seq<V>, k: nat, x: V, le: (V, V) -> bool)
    requires TotalPreorder(le) && Sorted(s, le) && k < |s|
    ensures le(s[k], x) ==> AllBelow(s[..k], x, le) && AllBelow(s[..k + 1], x, le)
    ensures le(x, s[k]) ==> AllAbove(s[k..], x, le)
  {
    assert le(s[k], s[k]);
  }

  lemma SubSlices<V>(s: seq<V>, from: nat, mid: nat, i: nat)
    requires from <= mid <= i <= |s|
    ensures s[from..i][..mid - from] == s[from..mid]
    ensures s[from..i][mid - from..] == s[mid..i]
  {
  }

  /** What an answer of a consistent comparison function means. */
  lemma Answered<V(!new)>(compare: Comparator<V>, n: nat, x: V, y: V, order: Order, le: (V, V) -> bool)
    requires compare.Follows(le) && order == if compare.identical(x, y) then Zero else compare.answers(n, x, y)
    ensures order == Less || order == Zero <==> le(x, y)
    ensures order == Greater || order == Zero <==> le(y, x)
    ensures order != NotANumber
  {
  }

  /** What one answer of the binary search tells about the range. */
  lemma Probed<V(!new)>(compare: Comparator<V>, n: nat, s: seq<V>, from: nat, mid: nat, i: nat, element: V,
                        order: Order, le: (V, V) -> bool)
    requires from <= mid < i <= |s| && compare.Follows(le) && Sorted(s[from..i], le)
    requires order == if compare.identical(s[mid], element) then Zero else compare.answers(n, s[mid], element)
    ensures order == Less || order == Zero ==>
      AllBelow(s[from..mid], element, le) && AllBelow(s[from..mid + 1], element, le)
    ensures order == Greater || order == Zero ==> AllAbove(s[mid..i], element, le)
    ensures order != NotANumber
  {
    hide Sorted, TotalPreorder, AllBelow, AllAbove;
    Probe(s[from..i], mid - from, element, le);
    SubSlices(s, from, mid, i);
    SubSlices(s, from, mid + 1, i);
    Answered(compare, n, s[mid], element, order, le);
  }

  /**
   The binary search of `InsertionSort`, in a[from..i]. It ends at once where an element compares as equal, and so puts
   the new one before that.
   */
  method FindPlace<V(!new)>(a: array<V>, from: nat, i: nat, element: V, compare: Comparator<V>,
                                ghost le: (V, V) -> bool)
    returns (min: nat)
    requires from <= i <= a.Length
    modifies compare
    ensures from <= min <= i
    ensures compare.Follows(le) && Sorted(a[from..i], le) ==>
      AllBelow(a[from..min], element, le) && AllAbove(a[min..i], element, le)
    ensures from < i && compare.Answer(old(compare.calls), a[from + (i - from) / 2], element) == Zero ==>
      min == from + (i - from) / 2
  {
    hide Sorted, TotalPreorder, Comparator.Follows;
    min := from;
    var max := i;
    while min < max
      invariant from <= min <= max <= i
      invariant compare.Follows(le) && Sorted(a[from..i], le) ==>
        AllBelow(a[from..min], element, le) && AllAbove(a[max..i], element, le)
      invariant from < i && compare.Answer(old(compare.calls), a[from + (i - from) / 2], element) == Zero ==>
        if min < max then min == from && max == i && compare.calls == old(compare.calls)
        else min == from + (i - from) / 2
      decreases max - min
    {
      var mid := min + (max - min) / 2;
      label C:
      var order := compare.Compare(a[mid], element);
      if compare.Follows(le) && Sorted(a[from..i], le) {
        assert a[..][from..i] == a[from..i] && a[..][from..mid] == a[from..mid] && a[..][mid..i] == a[mid..i];
        assert a[..][from..mid + 1] == a[from..mid + 1];
        Probed(compare, old@C(compare.calls), a[..], from, mid, i, element, order, le);
      }
      if order == Zero {
        min, max := mid, mid;
        break;
      }
      if order == Less {
        min := mid + 1;
      } else {
        max := mid;
      }
    }
  }

  /** The shift of `InsertionSort`: the element at i moves to min. */
  method Place<V>(a: array<V>, min: nat, i: nat)
    requires min <= i < a.Length
    modifies a
    ensures a[..] == old(a[..min] + [a[i]] + a[min..i] + a[i + 1..])
  {
    var element := a[i];
    var j := i;
    while j > min
      invariant min <= j <= i
      invariant forall k :: 0 <= k <= j ==> a[k] == old(a[k])
      invariant forall k :: j < k <= i ==> a[k] == old(a[k - 1])
      invariant forall k :: i < k < a.Length ==> a[k] == old(a[k])
    {
      a[j] := a[j - 1];
      j := j - 1;
    }
    a[min] := element;
  }

  lemma Shifted<V>(s: seq<V>, t: seq<V>, min: nat, i: nat)
    requires min <= i < |s| && t == s[..min] + [s[i]] + s[min..i] + s[i + 1..]
    ensures |t| == |s| && forall k :: 0 <= k < |s| ==>
      t[k] == if k < min || k > i then s[k] else if k == min then s[i] else s[k - 1]
  {
  }

  /** The same shift within a range. */
  lemma ShiftedRange<V>(s: seq<V>, t: seq<V>, from: nat, min: nat, i: nat, to: nat)
    requires from <= min <= i < to <= |s| && t == s[..min] + [s[i]] + s[min..i] + s[i + 1..]
    ensures var r, k, m := s[from..to], min - from, i - from;
            |t| == |s| && t[from..to] == r[..k] + [r[m]] + r[k..m] + r[m + 1..]
  {
    var r, k, m := s[from..to], min - from, i - from;
    Shifted(s, t, min, i);
    var w := r[..k] + [r[m]] + r[k..m] + r[m + 1..];
    Shifted(r, w, k, m);
    forall j | 0 <= j < |w|
      ensures t[from..to][j] == w[j]
    {
      assert t[from..to][j] == t[from + j] && r[j] == s[from + j] && r[m] == s[i];
      assert j > 0 ==> r[j - 1] == s[from + j - 1];
    }
  }

  /** The same within the sorted part of the range. */
  lemma ShiftedPart<V>(s: seq<V>, t: seq<V>, from: nat, min: nat, i: nat)
    requires from <= min <= i < |s| && t == s[..min] + [s[i]] + s[min..i] + s[i + 1..]
    ensures var q, k := s[from..i], min - from;
            && |t| == |s| && t[from..i + 1] == q[..k] + [s[i]] + q[k..]
            && q[..k] == s[from..min] && q[k..] == s[min..i]
  {
    SubSlices(s, from, min, i);
    assert t[from..i + 1] == s[from..min] + [s[i]] + s[min..i];
  }

  /** What placing one element does to the range being sorted. */
  lemma Placed<V(!new)>(s: seq<V>, t: seq<V>, from: nat, min: nat, i: nat, to: nat, le: (V, V) -> bool,
                        compare: Comparator<V>)
    requires from <= min <= i < to <= |s| && t == s[..min] + [s[i]] + s[min..i] + s[i + 1..]
    requires compare.Follows(le) && Sorted(s[from..i], le) ==>
      AllBelow(s[from..min], s[i], le) && AllAbove(s[min..i], s[i], le)
    ensures |t| == |s| && t[..from] == s[..from] && t[to..] == s[to..] && Permuted(s[from..to], t[from..to])
    ensures compare.Follows(le) && Sorted(s[from..i], le) ==> Sorted(t[from..i + 1], le)
  {
    hide Sorted, AllBelow, AllAbove, TotalPreorder, Permuted;
    var r, k, m := s[from..to], min - from, i - from;
    Shifted(s, t, min, i);
    ShiftedRange(s, t, from, min, i, to);
    ShiftedPart(s, t, from, min, i);
    Insertion(r, m, k);
    var q := s[from..i];
    if compare.Follows(le) && Sorted(q, le) {
      InsertionSorted(q, k, s[i], le);
      assert t[from..i + 1] == q[..k] + [s[i]] + q[k..];
    }
  }

  /** `InsertionSort`: a binary search for the place of each element, then a shift. */
  method InsertionSort<V(!new)>(a: array<V>, from: nat, to: nat, compare: Comparator<V>, ghost le: (V, V) -> bool)
    requires from <= to <= a.Length
    modifies a, compare
    ensures a[..from] == old(a[..from]) && a[to..] == old(a[to..])
    ensures Permuted(old(a[from..to]), a[from..to])
    ensures compare.Follows(le) ==> Sorted(a[from..to], le)
  {
    hide Sorted, Permuted, Comparator.Follows, TotalPreorder, AllBelow, AllAbove;
    Trivial(a[from..to], le);
    if from < to { Trivial(a[from..from + 1], le); }
    var i := from + 1;
    while i < to
      invariant from < i && (i <= to || (i == from + 1 && from == to))
      invariant a[..from] == old(a[..from]) && a[to..] == old(a[to..])
      invariant Permuted(old(a[from..to]), a[from..to])
      invariant i <= to && compare.Follows(le) ==> Sorted(a[from..i], le)
    {
      ghost var s := a[..];
      var min := FindPlace(a, from, i, a[i], compare, le);
      Place(a, min, i);
      Placed(s, a[..], from, min, i, to, le, compare);
      Chained(old(a[from..to]), s[from..to], a[from..to]);
      i := i + 1;
    }
  }

  /** Every element from lo up to hi is at most, or at least, p. */
  ghost predicate Below<V>(s: seq<V>, lo: nat, hi: nat, p: V, le: (V, V) -> bool)
    requires hi <= |s|
  {
    forall k :: lo <= k < hi ==> le(s[k], p)
  }

  ghost predicate Above<V>(s: seq<V>, lo: nat, hi: nat, p: V, le: (V, V) -> bool)
    requires hi <= |s|
  {
    forall k :: lo <= k < hi ==> le(p, s[k])
  }

  /** The three parts of a partition: lower than the pivot, equal to it, greater. */
  ghost predicate Parts<V>(s: seq<V>, from: nat, lowEnd: nat, i: nat, highStart: nat, to: nat, p: V,
                           le: (V, V) -> bool)
  {
    && from <= lowEnd <= i <= highStart <= to <= |s|
    && Below(s, from, lowEnd, p, le) && Below(s, lowEnd, i, p, le)
    && Above(s, lowEnd, i, p, le) && Above(s, highStart, to, p, le)
  }

  ghost predicate Swapped<V>(s: seq<V>, t: seq<V>, i: nat, j: nat)
    requires i < |s| && j < |s|
  {
    t == s[i := s[j]][j := s[i]]
  }

  /** Only the range has changed, and only the order of its elements. */
  ghost predicate SameOutside<V>(s: seq<V>, t: seq<V>, from: nat, to: nat) {
    && from <= to <= |s| == |t|
    && t[..from] == s[..from] && t[to..] == s[to..] && Permuted(s[from..to], t[from..to])
  }

  lemma SameRange<V>(s: seq<V>, from: nat, to: nat)
    requires from <= to <= |s|
    ensures SameOutside(s, s, from, to)
  {
  }

  lemma SameChained<V>(s: seq<V>, t: seq<V>, u: seq<V>, from: nat, to: nat)
    requires SameOutside(s, t, from, to) && SameOutside(t, u, from, to)
    ensures SameOutside(s, u, from, to)
  {
  }

  lemma SwapInRange<V>(s: seq<V>, t: seq<V>, i: nat, j: nat, from: nat, to: nat)
    requires from <= i < to <= |s| && from <= j < to && Swapped(s, t, i, j)
    ensures SameOutside(s, t, from, to)
  {
    hide Permuted;
    var r := s[from..to];
    assert r[i - from] == s[i] && r[j - from] == s[j];
    var w := r[i - from := r[j - from]][j - from := r[i - from]];
    forall k | 0 <= k < |w|
      ensures t[from..to][k] == w[k]
    {
      assert t[from..to][k] == t[from + k] && r[k] == s[from + k];
    }
    assert t[from..to] == w;
    Exchange(r, i - from, j - from);
  }

  lemma PartsStep<V(!new)>(s: seq<V>, t: seq<V>, from: nat, lowEnd: nat, i: nat, highStart: nat, to: nat, p: V,
                           le: (V, V) -> bool)
    requires Parts(s, from, lowEnd, i, highStart, to, p, le) && lowEnd < i < highStart
    ensures Swapped(s, t, i, lowEnd) && le(s[i], p) ==> Parts(t, from, lowEnd + 1, i + 1, highStart, to, p, le)
    ensures Swapped(s, t, i, highStart - 1) && le(p, s[i]) ==> Parts(t, from, lowEnd, i, highStart - 1, to, p, le)
    ensures le(s[i], p) && le(p, s[i]) ==> Parts(s, from, lowEnd, i + 1, highStart, to, p, le)
  {
  }

  method Swap<V>(a: array<V>, i: nat, j: nat)
    requires i < a.Length && j < a.Length
    modifies a
    ensures Swapped(old(a[..]), a[..], i, j)
  {
    var element := a[i];
    a[i] := a[j];
    a[j] := element;
  }

  /** With a consistent comparison function, the three parts are what they should be. */
  ghost predicate PartsIf<V(!new)>(s: seq<V>, from: nat, lowEnd: nat, i: nat, highStart: nat, to: nat, p: V,
                                   compare: Comparator<V>, le: (V, V) -> bool)
  {
    compare.Follows(le) ==> Parts(s, from, lowEnd, i, highStart, to, p, le)
  }

  lemma Begin<V(!new)>(s: seq<V>, from: nat, to: nat, p: V, compare: Comparator<V>, le: (V, V) -> bool)
    requires from < to <= |s| && s[from] == p
    ensures PartsIf(s, from, from, from + 1, to, to, p, compare, le)
  {
    if compare.Follows(le) { assert le(p, p); }
  }

  /** One turn of the loop, by the answer of the comparison function. */
  lemma PartsAfter<V(!new)>(s: seq<V>, t: seq<V>, from: nat, lowEnd: nat, i: nat, highStart: nat, to: nat, p: V,
                            compare: Comparator<V>, n: nat, order: Order, le: (V, V) -> bool)
    requires PartsIf(s, from, lowEnd, i, highStart, to, p, compare, le)
    requires from <= lowEnd < i < highStart <= to <= |s| == |t|
    requires order == if compare.identical(s[i], p) then Zero else compare.answers(n, s[i], p)
    requires if order == Less then Swapped(s, t, i, lowEnd)
             else if order == Greater then Swapped(s, t, i, highStart - 1)
             else t == s
    ensures order == Less ==> PartsIf(t, from, lowEnd + 1, i + 1, highStart, to, p, compare, le)
    ensures order == Greater ==> PartsIf(t, from, lowEnd, i, highStart - 1, to, p, compare, le)
    ensures order != Less && order != Greater ==> PartsIf(t, from, lowEnd, i + 1, highStart, to, p, compare, le)
  {
    hide Comparator.Follows, Parts, Swapped;
    if compare.Follows(le) {
      Answered(compare, n, s[i], p, order, le);
      PartsStep(s, t, from, lowEnd, i, highStart, to, p, le);
    }
  }

  /** The loop of `QuickSort`: the pivot is put first and never compared, so the equal part is never empty. */
  method Partition<V(!new)>(a: array<V>, from: nat, to: nat, pivotIndex: nat, compare: Comparator<V>,
                                ghost le: (V, V) -> bool)
    returns (lowEnd: nat, highStart: nat)
    requires from <= pivotIndex < to <= a.Length
    modifies a, compare
    ensures from <= lowEnd < highStart <= to
    ensures SameOutside(old(a[..]), a[..], from, to)
    ensures PartsIf(a[..], from, lowEnd, highStart, highStart, to, old(a[pivotIndex]), compare, le)
  {
    hide SameOutside, PartsIf, Swapped;
    ghost var s0 := a[..];
    var pivot := a[pivotIndex];
    Swap(a, pivotIndex, from);
    SwapInRange(s0, a[..], pivotIndex, from, from, to);
    lowEnd, highStart := from, to;
    var i := from + 1;
    Begin(a[..], from, to, pivot, compare, le);
    while i < highStart
      invariant from <= lowEnd < i <= highStart <= to
      invariant SameOutside(s0, a[..], from, to)
      invariant PartsIf(a[..], from, lowEnd, i, highStart, to, pivot, compare, le)
      decreases highStart - i
    {
      ghost var before, low, high, n := a[..], lowEnd, highStart, compare.calls;
      var order := compare.Compare(a[i], pivot);
      ghost var s := a[..];
      assert s == before;
      if order == Less {
        Swap(a, i, lowEnd);
        SwapInRange(s, a[..], i, low, from, to);
        lowEnd := lowEnd + 1;
      } else if order == Greater {
        highStart := highStart - 1;
        Swap(a, i, highStart);
        SwapInRange(s, a[..], i, highStart, from, to);
      } else {
        SameRange(s, from, to);
      }
      PartsAfter(s, a[..], from, low, i, high, to, pivot, compare, n, order, le);
      SameChained(s0, s, a[..], from, to);
      if order != Greater { i := i + 1; }
    }
  }

  /** Bounds on a range survive any permutation of it. */
  lemma PermutedBounds<V(!new)>(s: seq<V>, t: seq<V>, lo: nat, hi: nat, p: V, le: (V, V) -> bool)
    requires lo <= hi <= |s| == |t| && Permuted(s[lo..hi], t[lo..hi])
    ensures Below(s, lo, hi, p, le) ==> Below(t, lo, hi, p, le)
    ensures Above(s, lo, hi, p, le) ==> Above(t, lo, hi, p, le)
  {
    forall k | lo <= k < hi
      ensures exists j :: lo <= j < hi && s[j] == t[k]
    {
      assert t[k] == t[lo..hi][k - lo];
      assert t[k] in multiset(t[lo..hi]);
      assert t[k] in s[lo..hi];
      var j :| 0 <= j < hi - lo && s[lo..hi][j] == t[k];
      assert s[lo + j] == t[k];
    }
  }

  /** s is the partitioned array; t differs from it in the lower part only, and u from t in the upper part only. */
  ghost predicate Halves<V>(s: seq<V>, t: seq<V>, u: seq<V>, from: nat, lowEnd: nat, highStart: nat, to: nat) {
    && from <= lowEnd <= highStart <= to <= |s| == |t| == |u|
    && t[..from] == s[..from] && t[lowEnd..] == s[lowEnd..] && Permuted(s[from..lowEnd], t[from..lowEnd])
    && u[..highStart] == t[..highStart] && u[to..] == t[to..] && Permuted(t[highStart..to], u[highStart..to])
  }

  lemma HalvesAt<V>(s: seq<V>, t: seq<V>, u: seq<V>, from: nat, lowEnd: nat, highStart: nat, to: nat)
    requires Halves(s, t, u, from, lowEnd, highStart, to)
    ensures forall k :: 0 <= k < from || to <= k < |s| ==> u[k] == s[k]
    ensures forall k :: from <= k < lowEnd ==> u[k] == t[k]
    ensures forall k :: lowEnd <= k < highStart ==> u[k] == s[k]
    ensures forall k :: highStart <= k < to ==> t[k] == s[k]
  {
    hide Permuted;
    forall k | lowEnd <= k < |s|
      ensures t[k] == s[k]
    {
      assert t[lowEnd..][k - lowEnd] == s[lowEnd..][k - lowEnd];
    }
    forall k | to <= k < |s|
      ensures u[k] == t[k]
    {
      assert u[to..][k - to] == t[to..][k - to];
    }
    forall k | 0 <= k < highStart
      ensures u[k] == t[k]
    {
      assert u[..highStart][k] == t[..highStart][k];
    }
    forall k | 0 <= k < from
      ensures t[k] == s[k]
    {
      assert t[..from][k] == s[..from][k];
    }
  }

  lemma GluePermuted<V>(s: seq<V>, t: seq<V>, u: seq<V>, from: nat, lowEnd: nat, highStart: nat, to: nat)
    requires Halves(s, t, u, from, lowEnd, highStart, to)
    ensures u[..from] == s[..from] && u[to..] == s[to..] && Permuted(s[from..to], u[from..to])
  {
    HalvesAt(s, t, u, from, lowEnd, highStart, to);
    assert t[highStart..to] == s[highStart..to];
    assert s[from..to] == s[from..lowEnd] + s[lowEnd..highStart] + s[highStart..to];
    assert u[from..to] == t[from..lowEnd] + s[lowEnd..highStart] + u[highStart..to];
  }

  lemma GlueSorted<V(!new)>(s: seq<V>, t: seq<V>, u: seq<V>, from: nat, lowEnd: nat, highStart: nat, to: nat, p: V,
                            le: (V, V) -> bool)
    requires Halves(s, t, u, from, lowEnd, highStart, to) && TotalPreorder(le)
    requires Parts(s, from, lowEnd, highStart, highStart, to, p, le)
    requires Sorted(t[from..lowEnd], le) && Sorted(u[highStart..to], le)
    ensures Sorted(u[from..to], le)
  {
    hide Permuted;
    HalvesAt(s, t, u, from, lowEnd, highStart, to);
    assert t[highStart..to] == s[highStart..to];
    PermutedBounds(s, t, from, lowEnd, p, le);
    PermutedBounds(s, u, highStart, to, p, le);
    var w := u[from..to];
    forall i, j | 0 <= i < j < |w|
      ensures le(w[i], w[j])
    {
      var k, l := from + i, from + j;
      assert w[i] == u[k] && w[j] == u[l];
      if l < lowEnd {
        assert t[from..lowEnd][i] == u[k] && t[from..lowEnd][j] == u[l];
      } else if k >= highStart {
        assert u[highStart..to][k - highStart] == u[k] && u[highStart..to][l - highStart] == u[l];
      } else {
        assert le(u[k], p) && le(p, u[l]);
      }
    }
  }

  lemma Preorder<V(!new)>(compare: Comparator<V>, le: (V, V) -> bool)
    requires compare.Follows(le)
    ensures TotalPreorder(le)
  {
  }

  /** The random choice of the pivot. */
  method Pick(from: nat, to: nat) returns (pivotIndex: nat)
    requires from < to
    ensures from <= pivotIndex < to
  {
    pivotIndex :| from <= pivotIndex < to;
  }

  /**
   `QuickSort`: whatever the comparison function answers, it ends with the same values in the range and everything
   else untouched; a consistent comparison function leaves the range sorted.
   */
  method QuickSort<V(!new)>(a: array<V>, from: nat, to: nat, compare: Comparator<V>, ghost le: (V, V) -> bool)
    requires from <= to <= a.Length
    modifies a, compare
    ensures a[..from] == old(a[..from]) && a[to..] == old(a[to..])
    ensures Permuted(old(a[from..to]), a[from..to])
    ensures compare.Follows(le) ==> Sorted(a[from..to], le)
    decreases 0 - from + to
  {
    hide Permuted, Comparator.Follows, Sorted, Parts;
    if to - from <= 22 {
      InsertionSort(a, from, to, compare, le);
      return;
    }
    var pivotIndex := Pick(from, to);
    ghost var pivot, s0 := a[pivotIndex], a[..];
    var lowEnd, highStart := Partition(a, from, to, pivotIndex, compare, le);
    ghost var s := a[..];
    QuickSort(a, from, lowEnd, compare, le);
    ghost var t := a[..];
    QuickSort(a, highStart, to, compare, le);
    GluePermuted(s, t, a[..], from, lowEnd, highStart, to);
    if compare.Follows(le) {
      Preorder(compare, le);
      GlueSorted(s, t, a[..], from, lowEnd, highStart, to, pivot, le);
    }
    Chained(s0[from..to], s[from..to], a[from..to]);
  }
}
