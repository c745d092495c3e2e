/** `SmartSlice`, `SmartMove`, `SimpleSlice`, `SimpleMove` and `ArraySplice` of v8.mod/src/array.js. */
module JsSplice {
  import opened JsArray
  import R = JsReverse

  /** The deleted elements, holes included. */
  ghost predicate Sliced(m: Elements, d: Elements, start: nat, del: nat) {
    forall k: nat :: At(d, k) == if k < del then At(m, start + k) else Hole
  }

  /** Where, in the old array, the tail of the new one comes from. */
  function Source(k: nat, del: nat, num: nat): nat
    requires k >= num
  {
    k - num + del
  }

  /** The tail has moved to behind the gap; what the gap holds is left open. */
  ghost predicate TailMoved(m: Elements, m': Elements, len: nat, start: nat, del: nat, num: nat)
    requires start + del <= len
  {
    && (forall k: nat :: k < start ==> At(m', k) == At(m, k))
    && (forall k: nat :: start + num <= k < len - del + num ==> At(m', k) == At(m, Source(k, del, num)))
    && (forall k: nat :: k >= len - del + num ==> At(m', k) == if k < len then Hole else At(m, k))
  }

  /** Splicing, by section 15.4.4.12 of ECMA-262: what each index of the result holds. */
  ghost predicate Spliced(m: Elements, m': Elements, len: nat, start: nat, del: nat, items: seq<Value>)
    requires start + del <= len
  {
    && TailMoved(m, m', len, start, del, |items|)
    && forall k: nat :: start <= k < start + |items| ==> At(m', k) == Full(items[k - start])
  }

  // ------------------------------------------------------------------ the simple pair

  method SimpleSlice(a: JSArray, start: nat, del: nat, deleted: JSArray)
    requires deleted != a && deleted.elements == map[] && deleted.length == del
    modifies deleted`elements, deleted`length
    ensures Sliced(a.elements, deleted.elements, start, del) && deleted.length == del
  {
    for i := 0 to del
      invariant Sliced(a.elements, deleted.elements, start, i) && deleted.length == del
    {
      var index := start + i;
      assert At(a.elements, start + i) == if index in a.elements then Full(a.elements[index]) else Hole;
      var current := a.Get(index);
      if a.Has(current, index) {
        deleted.Put(i, current);
      }
    }
  }

  /** One step of `SimpleMove`: an element, or a hole, is copied. */
  method CopyOrRemove(a: JSArray, fromIndex: nat, toIndex: nat)
    modifies a`elements, a`length
    ensures forall k: nat :: At(a.elements, k) == At(old(a.elements), if k == toIndex then fromIndex else k)
    ensures a.length == if a.isArray && At(old(a.elements), fromIndex) != Hole && old(a.length) <= toIndex < TWO32 - 1
                        then toIndex + 1 else old(a.length)
  {
    var current := a.Get(fromIndex);
    if a.Has(current, fromIndex) {
      a.Put(toIndex, current);
    } else {
      a.Remove(toIndex);
    }
  }

  /**
   The length that element stores leave: the old one, or one more than the last index below 2^32 - 1 that holds an
   element.
   */
  ghost predicate EndsAt(m: Elements, len0: nat, length: nat) {
    && len0 <= length < TWO32
    && (forall k: nat :: At(m, k) != Hole ==> k < length || k >= TWO32 - 1)
    && (length == len0 || At(m, length - 1) != Hole)
  }

  lemma EndsAlready(a: JSArray)
    requires a.Valid()
    ensures a.isArray ==> EndsAt(a.elements, a.length, a.length)
  {
  }

  /** One more store or removal, below what has been stored behind the old length. */
  lemma EndsStep(m: Elements, m': Elements, len0: nat, length: nat, length': nat, fromIndex: nat, toIndex: nat)
    requires EndsAt(m, len0, length) && (length > len0 ==> length > toIndex + 1)
    requires forall k: nat :: At(m', k) == At(m, if k == toIndex then fromIndex else k)
    requires length' == if At(m, fromIndex) != Hole && length <= toIndex < TWO32 - 1 then toIndex + 1 else length
    ensures EndsAt(m', len0, length') && (length' > len0 ==> length' > toIndex)
  {
  }

  /** The tail moves up, from its end backward. */
  method MoveUp(a: JSArray, start: nat, del: nat, len: nat, num: nat)
    requires start + del <= len && num > del && a.Valid()
    modifies a`elements, a`length
    ensures TailMoved(old(a.elements), a.elements, len, start, del, num)
    ensures a.isArray ==> EndsAt(a.elements, old(a.length), a.length)
  {
    hide EndsAt;
    ghost var m := a.elements;
    EndsAlready(a);
    var i := len - del;
    while i > start
      invariant start <= i <= len - del
      invariant forall k: nat ::
        At(a.elements, k) == At(m, if i + num <= k < len - del + num then Source(k, del, num) else k)
      invariant a.isArray ==> EndsAt(a.elements, old(a.length), a.length)
      invariant a.isArray && a.length > old(a.length) ==> a.length > i + num
    {
      ghost var before, length := a.elements, a.length;
      CopyOrRemove(a, i + del - 1, i + num - 1);
      if a.isArray {
        EndsStep(before, a.elements, old(a.length), length, a.length, i + del - 1, i + num - 1);
      }
      i := i - 1;
    }
  }

  /** The tail moves down, and what is then behind it is deleted. */
  method MoveDown(a: JSArray, start: nat, del: nat, len: nat, num: nat)
    requires start + del <= len && num < del
    modifies a`elements, a`length
    ensures TailMoved(old(a.elements), a.elements, len, start, del, num)
  {
    ghost var m := a.elements;
    var i := start;
    while i < len - del
      invariant start <= i <= len - del
      invariant forall k: nat ::
        At(a.elements, k) == At(m, if start + num <= k < i + num then Source(k, del, num) else k)
    {
      CopyOrRemove(a, i + del, i + num);
      i := i + 1;
    }
    ghost var moved := a.elements;
    i := len;
    while i > len - del + num
      invariant len - del + num <= i <= len
      invariant forall k: nat :: At(a.elements, k) == if i <= k < len then Hole else At(moved, k)
    {
      a.Remove(i - 1);
      i := i - 1;
    }
  }

  lemma NothingMoves(a: JSArray, start: nat, del: nat, len: nat)
    requires start + del <= len
    ensures TailMoved(a.elements, a.elements, len, start, del, del)
  {
    forall k: nat | k >= del
      ensures Source(k, del, del) == k
    {
    }
  }

  method SimpleMove(a: JSArray, start: nat, del: nat, len: nat, num: nat)
    requires start + del <= len && a.Valid()
    modifies a`elements, a`length
    ensures TailMoved(old(a.elements), a.elements, len, start, del, num)
    ensures a.isArray && num > del ==> EndsAt(a.elements, old(a.length), a.length)
  {
    hide TailMoved;
    if num != del {
      if num > del {
        MoveUp(a, start, del, len, num);
      } else {
        MoveDown(a, start, del, len, num);
      }
    } else {
      NothingMoves(a, start, del, len);
    }
  }

  // ------------------------------------------------------------------ the smart pair

  /** The index that lands on k when everything moves by `shift`. */
  function Back(k: nat, shift: int): int {
    k - shift
  }

  /** Index k receives an element from the stretch lo..hi. */
  predicate Receives(m: Elements, k: nat, lo: int, hi: int, shift: int) {
    lo <= Back(k, shift) < hi && Back(k, shift) >= 0 && Back(k, shift) in m
  }

  ghost predicate RangeCopied(m: Elements, d: Elements, d': Elements, lo: int, hi: int, shift: int) {
    forall k: nat :: At(d', k) == if Receives(m, k, lo, hi, shift) then At(m, Back(k, shift)) else At(d, k)
  }

  /** The elements of the stretch lo..hi that the items list have all been copied, and no others. */
  ghost predicate Copied(m: Elements, d: Elements, items: seq<Item>, lo: nat, hi: nat, shift: int) {
    forall k: nat :: lo <= Back(k, shift) < hi ==>
      && (k in d ==> Receives(m, k, lo, hi, shift) && At(d, k) == At(m, Back(k, shift)))
      && (Receives(m, k, lo, hi, shift) && Listed(items, Back(k, shift)) ==> k in d)
  }

  ghost predicate OnlyWithin(d: Elements, lo: int, hi: int) {
    forall k :: k in d ==> lo <= k < hi
  }

  lemma OneMore(m: Elements, d0: Elements, d: Elements, d': Elements, lo: nat, j: nat, shift: int)
    requires RangeCopied(m, d0, d, lo, j, shift) && lo <= j && j + shift >= 0
    requires d' == if j in m then d[j + shift := m[j]] else d
    ensures RangeCopied(m, d0, d', lo, j + 1, shift)
  {
    forall k: nat
      ensures At(d', k) == if Receives(m, k, lo, j + 1, shift) then At(m, Back(k, shift)) else At(d0, k)
    {
      assert At(d, k) == if Receives(m, k, lo, j, shift) then At(m, Back(k, shift)) else At(d0, k);
    }
  }

  /** The loop body shared by the smart functions, on a stretch of indices. */
  method CopyRange(a: JSArray, b: JSArray, lo: nat, hi: nat, shift: int)
    requires a != b && lo + shift >= 0 && (lo < hi ==> hi + shift <= b.length)
    modifies b`elements, b`length
    ensures b.length == old(b.length) && RangeCopied(a.elements, old(b.elements), b.elements, lo, hi, shift)
  {
    var j := lo;
    while j < hi
      invariant lo <= j && (lo < hi ==> j <= hi) && (lo >= hi ==> j == lo) && b.length == old(b.length)
      invariant RangeCopied(a.elements, old(b.elements), b.elements, lo, j, shift)
    {
      ghost var d := b.elements;
      var current := a.Get(j);
      if a.Has(current, j) {
        b.Put(j + shift, current);
      }
      OneMore(a.elements, old(b.elements), d, b.elements, lo, j, shift);
      j := j + 1;
    }
  }

  lemma CopiedNothing(m: Elements, lo: nat, hi: nat, shift: int, from: int, to: int)
    ensures Copied(m, map[], [], lo, hi, shift) && OnlyWithin(map[], from, to)
  {
  }

  lemma ItemWithin(intervals: seq<Item>, k: nat, m: Elements, limit: nat)
    requires Covers(intervals, m, limit) && k < |intervals|
    ensures Within(intervals[k], limit)
  {
  }

  /** Copying a stretch that contains what one more item lists, and that lands within from..to. */
  lemma CopiedStep(m: Elements, d: Elements, d': Elements, items: seq<Item>, k: nat, lo: nat, hi: nat, shift: int,
                   j: int, limit: int, from: int, to: int)
    requires k < |items| && Copied(m, d, items[..k], lo, hi, shift) && OnlyWithin(d, from, to)
    requires forall i: nat :: lo <= i < hi && InItem(items[k], i) ==> j <= i < limit
    requires RangeCopied(m, d, d', j, limit, shift) && (j < limit ==> from <= j + shift && limit + shift <= to)
    ensures Copied(m, d', items[..k + 1], lo, hi, shift) && OnlyWithin(d', from, to)
  {
    hide Listed;
    ListedStep(items, k);
    forall n: nat
      ensures n in d' ==> n in d || Receives(m, n, j, limit, shift)
    {
      assert At(d', n) == if Receives(m, n, j, limit, shift) then At(m, Back(n, shift)) else At(d, n);
    }
  }

  lemma CopiedNone(m: Elements, d: Elements, items: seq<Item>, k: nat, lo: nat, hi: nat, shift: int)
    requires k < |items| && Copied(m, d, items[..k], lo, hi, shift)
    requires forall i: nat :: lo <= i < hi ==> !InItem(items[k], i)
    ensures Copied(m, d, items[..k + 1], lo, hi, shift)
  {
    hide Listed;
    ListedStep(items, k);
  }

  lemma SlicedWhenCopied(m: Elements, d: Elements, intervals: seq<Item>, start: nat, del: nat)
    requires Copied(m, d, intervals[..|intervals|], start, start + del, 0 - start)
    requires OnlyWithin(d, 0, del) && Covers(intervals, m, start + del)
    ensures Sliced(m, d, start, del)
  {
    assert intervals[..|intervals|] == intervals;
    forall k: nat
      ensures At(d, k) == if k < del then At(m, start + k) else Hole
    {
      assert Back(k, 0 - start) == start + k;
    }
  }

  method SmartSlice(a: JSArray, start: nat, del: nat, deleted: JSArray, intervals: seq<Item>)
    requires deleted != a && deleted.elements == map[] && deleted.length == del
    requires Covers(intervals, a.elements, start + del)
    modifies deleted`elements, deleted`length
    ensures Sliced(a.elements, deleted.elements, start, del) && deleted.length == del
  {
    hide Copied, Covers, Listed, OnlyWithin, RangeCopied, Sliced;
    ghost var m, shift := a.elements, 0 - start;
    CopiedNothing(m, start, start + del, shift, 0, del);
    assert intervals[..0] == [];
    for k := 0 to |intervals|
      invariant Copied(m, deleted.elements, intervals[..k], start, start + del, shift)
      invariant OnlyWithin(deleted.elements, 0, del) && deleted.length == del
    {
      ghost var d := deleted.elements;
      match intervals[k]
      case Interval(first, count) =>
        var j := first;
        if j < start { j := start; }
        ItemWithin(intervals, k, m, start + del);
        CopyRange(a, deleted, j, first + count, 0 - start);
        CopiedStep(m, d, deleted.elements, intervals, k, start, start + del, shift, j, first + count, 0, del);
      case Key(key) =>
        ItemWithin(intervals, k, m, start + del);
        if key >= start {
          CopyRange(a, deleted, key, key + 1, 0 - start);
          CopiedStep(m, d, deleted.elements, intervals, k, start, start + del, shift, key, key + 1, 0, del);
        } else {
          CopiedNone(m, d, intervals, k, start, start + del, shift);
        }
      case Erased =>
        CopiedNone(m, d, intervals, k, start, start + del, shift);
    }
    SlicedWhenCopied(m, deleted.elements, intervals, start, del);
  }

  /** The new array of `SmartMove` so far: the head, the tail, and nothing in between or behind. */
  ghost predicate HalfMoved(m: Elements, d: Elements, items: seq<Item>, len: nat, start: nat, del: nat, num: nat)
    requires start + del <= len
  {
    && Copied(m, d, items, 0, start, 0) && Copied(m, d, items, start + del, len, num - del)
    && forall k :: k in d ==> k < start || start + num <= k < len - del + num
  }

  lemma HalfMovedNothing(m: Elements, len: nat, start: nat, del: nat, num: nat)
    requires start + del <= len
    ensures HalfMoved(m, map[], [], len, start, del, num)
  {
  }

  /** Copying into one part leaves the other part as it was. */
  lemma OtherPart(m: Elements, d: Elements, d': Elements, items: seq<Item>, lo: nat, hi: nat, shift: int,
                  j: int, limit: int, shift': int)
    requires Copied(m, d, items, lo, hi, shift) && RangeCopied(m, d, d', j, limit, shift')
    requires j < limit ==> limit + shift' <= lo + shift || hi + shift <= j + shift'
    ensures Copied(m, d', items, lo, hi, shift)
  {
    forall k: nat | lo <= Back(k, shift) < hi
      ensures At(d', k) == At(d, k)
    {
      assert !Receives(m, k, j, limit, shift');
    }
  }

  lemma OnlyMoved(m: Elements, d: Elements, d': Elements, j: int, limit: int, shift: int)
    requires RangeCopied(m, d, d', j, limit, shift)
    ensures forall k :: k in d' ==> k in d || j <= k - shift < limit
  {
    forall k | k in d'
      ensures k in d || j <= k - shift < limit
    {
      assert At(d', k) == if Receives(m, k, j, limit, shift) then At(m, Back(k, shift)) else At(d, k);
    }
  }

  /** One more item: a stretch of the head has been copied, then a stretch of the tail. */
  lemma HalfMovedStep(m: Elements, d: Elements, d1: Elements, d2: Elements, items: seq<Item>, k: nat, len: nat,
                      start: nat, del: nat, num: nat, j1: int, l1: int, j2: int, l2: int)
    requires start + del <= len && k < |items| && HalfMoved(m, d, items[..k], len, start, del, num)
    requires RangeCopied(m, d, d1, j1, l1, 0) && RangeCopied(m, d1, d2, j2, l2, num - del)
    requires j1 < l1 ==> 0 <= j1 && l1 <= start
    requires j2 < l2 ==> start + del <= j2 && l2 <= len
    requires forall i: nat :: i < start && InItem(items[k], i) ==> j1 <= i < l1
    requires forall i: nat :: start + del <= i < len && InItem(items[k], i) ==> j2 <= i < l2
    ensures HalfMoved(m, d2, items[..k + 1], len, start, del, num)
  {
    hide Copied, RangeCopied;
    OnlyMoved(m, d, d1, j1, l1, 0);
    OnlyMoved(m, d1, d2, j2, l2, num - del);
    CopiedStep(m, d, d1, items, k, 0, start, 0, j1, l1, 0, len - del + num);
    OtherPart(m, d, d1, items[..k], start + del, len, num - del, j1, l1, 0);
    CopiedStep(m, d1, d2, items, k, start + del, len, num - del, j2, l2, 0, len - del + num);
    OtherPart(m, d1, d2, items[..k + 1], 0, start, 0, j2, l2, num - del);
  }

  lemma CopyNothing(m: Elements, d: Elements, j: int, shift: int)
    ensures RangeCopied(m, d, d, j, j, shift)
  {
  }

  lemma TailWhenMoved(m: Elements, d: Elements, intervals: seq<Item>, len: nat, start: nat, del: nat, num: nat)
    requires start + del <= len && HalfMoved(m, d, intervals[..|intervals|], len, start, del, num)
    requires Covers(intervals, m, len) && forall k :: k in m ==> k < len
    ensures TailMoved(m, d, len, start, del, num)
  {
    hide Listed;
    assert intervals[..|intervals|] == intervals;
    forall k: nat | k < start
      ensures At(d, k) == At(m, k)
    {
      assert Back(k, 0) == k;
    }
    forall k: nat | start + num <= k < len - del + num
      ensures At(d, k) == At(m, Source(k, del, num))
    {
      assert Back(k, num - del) == Source(k, del, num);
    }
  }

  /** A new length of 2^32 or more is a range error, thrown before anything has moved. */
  method SmartMove(a: JSArray, start: nat, del: nat, len: nat, num: nat, intervals: seq<Item>)
    returns (rangeError: bool)
    requires start + del <= len && a.isArray && a.Valid() && len == a.length
    requires Covers(intervals, a.elements, len)
    modifies a`elements, a`length
    ensures rangeError <==> len - del + num >= TWO32
    ensures rangeError ==> a.elements == old(a.elements) && a.length == old(a.length)
    ensures !rangeError ==>
      TailMoved(old(a.elements), a.elements, len, start, del, num) && a.length == len - del + num
  {
    hide HalfMoved, Covers, Listed, RangeCopied, TailMoved;
    if len - del + num >= TWO32 { return true; }
    rangeError := false;
    ghost var m := a.elements;
    var newArray := new JSArray(true, len - del + num);
    HalfMovedNothing(m, len, start, del, num);
    assert intervals[..0] == [];
    for k := 0 to |intervals|
      invariant a.elements == m && fresh(newArray) && newArray.length == len - del + num
      invariant HalfMoved(m, newArray.elements, intervals[..k], len, start, del, num)
    {
      ghost var d := newArray.elements;
      match intervals[k]
      case Interval(first, count) =>
        var limit := first + count;
        ItemWithin(intervals, k, m, len);
        CopyRange(a, newArray, first, if limit < start then limit else start, 0);
        ghost var d1 := newArray.elements;
        CopyRange(a, newArray, start + del, limit, num - del);
        HalfMovedStep(m, d, d1, newArray.elements, intervals, k, len, start, del, num,
                      first, if limit < start then limit else start, start + del, limit);
      case Key(key) =>
        ItemWithin(intervals, k, m, len);
        CopyNothing(m, d, 0, 0);
        CopyNothing(m, d, 0, num - del);
        if key < start {
          CopyRange(a, newArray, key, key + 1, 0);
          CopyNothing(m, newArray.elements, 0, num - del);
          HalfMovedStep(m, d, newArray.elements, newArray.elements, intervals, k, len, start, del, num,
                        key, key + 1, 0, 0);
        } else if key >= start + del {
          CopyRange(a, newArray, key, key + 1, num - del);
          HalfMovedStep(m, d, d, newArray.elements, intervals, k, len, start, del, num, 0, 0, key, key + 1);
        } else {
          HalfMovedStep(m, d, d, d, intervals, k, len, start, del, num, 0, 0, 0, 0);
        }
      case Erased =>
        CopyNothing(m, d, 0, 0);
        CopyNothing(m, d, 0, num - del);
        HalfMovedStep(m, d, d, d, intervals, k, len, start, del, num, 0, 0, 0, 0);
    }
    TailWhenMoved(m, newArray.elements, intervals, len, start, del, num);
    // %MoveArrayContents
    a.elements, a.length := newArray.elements, newArray.length;
  }

  // ------------------------------------------------------------------ splice

  /** The arguments of `splice`, converted to integers. */
  datatype Arguments =
    | NoArguments
    | OnlyStart(start: int)
    | StartAndCount(start: int, deleteCount: int, items: seq<Value>)

  /** Negative starts count from the end; starts outside the array are clamped. */
  function StartIndex(start: int, len: nat): (i: nat)
    ensures i <= len
    ensures 0 <= start <= len ==> i == start
    ensures 0 - len <= start < 0 ==> i == len + start
    ensures start < 0 - len ==> i == 0
    ensures start > len ==> i == len
  {
    if start < 0 then if start + len < 0 then 0 else start + len
    else if start > len then len else start
  }

  /** Without a count everything from the start on is deleted; counts are clamped. */
  function DeleteCount(args: Arguments, start: nat, len: nat): (n: nat)
    requires start <= len && !args.NoArguments?
    ensures n <= len - start
    ensures args.OnlyStart? ==> n == len - start
    ensures args.StartAndCount? && 0 <= args.deleteCount <= len - start ==> n == args.deleteCount
    ensures args.StartAndCount? && args.deleteCount < 0 ==> n == 0
    ensures args.StartAndCount? && args.deleteCount > len - start ==> n == len - start
  {
    if args.OnlyStart? then len - start
    else if args.deleteCount < 0 then 0
    else if args.deleteCount > len - start then len - start else args.deleteCount
  }

  function Added(args: Arguments): seq<Value> {
    if args.StartAndCount? then args.items else []
  }

  /** Few elements are to be moved, or the receiver is not an array. */
  predicate UseSimpleSplice(isArray: bool, len: nat, start: nat, del: nat, num: nat, estimate: nat)
    requires start <= len
  {
    !(isArray && num != del && len > 20 && estimate / 4 < len - start)
  }

  ghost predicate Filled(m: Elements, m': Elements, start: nat, items: seq<Value>, n: nat)
    requires n <= |items|
  {
    forall k: nat :: At(m', k) == if start <= k < start + n then Full(items[k - start]) else At(m, k)
  }

  /** The insertion loop: the gap left by a move is filled. */
  method Insert(a: JSArray, start: nat, items: seq<Value>, ghost len0: nat)
    modifies a`elements, a`length
    ensures Filled(old(a.elements), a.elements, start, items, |items|)
    ensures a.isArray && EndsAt(old(a.elements), len0, old(a.length)) ==> EndsAt(a.elements, len0, a.length)
  {
    ghost var m := a.elements;
    var i := start;
    for index := 0 to |items|
      invariant i == start + index
      invariant Filled(m, a.elements, start, items, index)
      invariant a.isArray && EndsAt(m, len0, old(a.length)) ==> EndsAt(a.elements, len0, a.length)
    {
      a.Put(i, items[index]);
      i := i + 1;
    }
  }

  lemma SplicedWhenFilled(m: Elements, moved: Elements, filled: Elements, m': Elements, len: nat, start: nat,
                          del: nat, items: seq<Value>, isArray: bool)
    requires start + del <= len && TailMoved(m, moved, len, start, del, |items|)
    requires isArray ==> forall k :: k in m ==> k < len
    requires Filled(moved, filled, start, items, |items|)
    requires forall k: nat ::
      At(m', k) == At(filled, k) || (isArray && k >= len - del + |items| && At(m', k) == Hole)
    ensures Spliced(m, m', len, start, del, items)
  {
  }

  /** The first statements of `ArraySplice`: where to start, and how many elements to delete. */
  method Clamp(args: Arguments, len: nat) returns (start: int, del: int)
    requires !args.NoArguments?
    ensures start == StartIndex(args.start, len) && del == DeleteCount(args, start, len)
  {
    start := args.start;
    if start < 0 {
      start := start + len;
      if start < 0 { start := 0; }
    } else {
      if start > len { start := len; }
    }
    del := 0;
    if args.StartAndCount? {
      del := args.deleteCount;
      if del < 0 { del := 0; }
      if del > len - start { del := len - start; }
    } else {
      del := len - start;
    }
  }

  lemma EndsSame(m: Elements, m': Elements, len0: nat, length: nat)
    requires forall k: nat :: At(m', k) == At(m, k)
    ensures EndsAt(m, len0, length) ==> EndsAt(m', len0, length)
  {
  }

  /**
   `ArraySplice`: whichever variant is taken, the array becomes what section 15.4.4.12 of ECMA-262 says, and the
   deleted elements are returned, holes included. Without arguments nothing happens. An array whose new length
   would reach 2^32 is a range error: the smart variant throws before it has moved anything, the simple one when the
   length is set, with all elements in their new places.
   */
  method ArraySplice(a: JSArray, args: Arguments, estimate: nat, below: seq<Item>, all: seq<Item>)
    returns (deleted: JSArray?, rangeError: bool)
    requires a.Valid()
    requires !args.NoArguments? ==>
      var len := ToUint32(a.length);
      var start := StartIndex(args.start, len);
      var del := DeleteCount(args, start, len);
      Covers(below, a.elements, start + del) && Covers(all, a.elements, len)
    modifies a`elements, a`length
    ensures args.NoArguments? ==> deleted == null && a.elements == old(a.elements) && a.length == old(a.length)
    ensures rangeError ==> !args.NoArguments? && deleted == null
    ensures !args.NoArguments? ==>
      var len := ToUint32(old(a.length));
      var start := StartIndex(args.start, len);
      var del := DeleteCount(args, start, len);
      var newLen := len - del + |Added(args)|;
      && (rangeError <==> a.isArray && newLen >= 0x1_0000_0000)
      && (rangeError ==>
            if len > 20 && estimate / 4 < len - start then a.elements == old(a.elements) && a.length == old(a.length)
            else
              && Spliced(old(a.elements), a.elements, len, start, del, Added(args))
              && EndsAt(a.elements, old(a.length), a.length))
      && (!rangeError ==> Spliced(old(a.elements), a.elements, len, start, del, Added(args)))
      && (!rangeError ==>
            && deleted != null && fresh(deleted) && deleted.isArray && deleted.length == del
            && Sliced(old(a.elements), deleted.elements, start, del) && a.length == newLen)
  {
    hide Sliced, TailMoved, Covers, Spliced, Filled, StartIndex, DeleteCount, EndsAt;
    rangeError := false;
    if args.NoArguments? { return null, false; }
    ghost var m := a.elements;
    var len := ToUint32(a.length);
    var start, del := Clamp(args, len);
    var items := Added(args);
    deleted := new JSArray(true, del);
    if UseSimpleSplice(a.isArray, len, start, del, |items|, estimate) {
      SimpleSlice(a, start, del, deleted);
      SimpleMove(a, start, del, len, |items|);
    } else {
      SmartSlice(a, start, del, deleted, below);
      rangeError := SmartMove(a, start, del, len, |items|, all);
      if rangeError { return null, true; }
    }
    ghost var moved := a.elements;
    Insert(a, start, items, old(a.length));
    ghost var filled, length := a.elements, a.length;
    rangeError := a.SetLength(len - del + |items|);
    if rangeError { EndsSame(filled, a.elements, old(a.length), length); }
    SplicedWhenFilled(m, moved, filled, a.elements, len, start, del, items, a.isArray);
    if rangeError { return null, true; }
  }

  // ------------------------------------------------------------------ what splicing means

  /** The result of a splice is unique, so the smart and the simple variant leave the same array. */
  lemma SpliceIsUnique(m: Elements, a: Elements, b: Elements, len: nat, start: nat, del: nat, items: seq<Value>)
    requires start + del <= len && Spliced(m, a, len, start, del, items) && Spliced(m, b, len, start, del, items)
    ensures a == b
  {
    forall k: nat
      ensures At(a, k) == At(b, k)
    {
      assert start <= k < start + |items| ==> At(a, k) == Full(items[k - start]);
    }
    R.SameSlots(a, b);
  }

  /** The array holds exactly these values, without a hole. */
  ghost predicate Dense(m: Elements, s: seq<Value>) {
    forall k: nat :: At(m, k) == if k < |s| then Full(s[k]) else Hole
  }

  /** On an array without holes, a splice is what it should be on sequences. */
  lemma SpliceOfDense(m: Elements, m': Elements, s: seq<Value>, start: nat, del: nat, items: seq<Value>)
    requires Dense(m, s) && start + del <= |s| && Spliced(m, m', |s|, start, del, items)
    ensures Dense(m', s[..start] + items + s[start + del..])
  {
    var t := s[..start] + items + s[start + del..];
    forall k: nat
      ensures At(m', k) == if k < |t| then Full(t[k]) else Hole
    {
      if start <= k < start + |items| {
        assert At(m', k) == Full(items[k - start]);
      } else if start + |items| <= k < |t| {
        assert At(m', k) == At(m, Source(k, del, |items|));
      }
    }
  }

  /** What one index of a spliced array holds. */
  lemma SplicedAt(m: Elements, m': Elements, len: nat, start: nat, del: nat, items: seq<Value>, k: nat)
    requires start + del <= len && Spliced(m, m', len, start, del, items)
    ensures At(m', k) == if k < start then At(m, k)
                         else if k < start + |items| then Full(items[k - start])
                         else if k < len - del + |items| then At(m, Source(k, del, |items|))
                         else if k < len then Hole else At(m, k)
  {
  }

  lemma RemovedAt(m: Elements, d: Elements, start: nat, del: nat, removed: seq<Value>, k: nat)
    requires Sliced(m, d, start, del) && Dense(d, removed) && |removed| == del && start <= k < start + del
    ensures At(m, k) == Full(removed[k - start])
  {
    assert At(d, k - start) == At(m, start + (k - start));
  }

  lemma BackAt(m: Elements, d: Elements, m': Elements, m'': Elements, len: nat, start: nat, del: nat,
               items: seq<Value>, removed: seq<Value>, k: nat)
    requires start + del <= len && (forall k :: k in m ==> k < len)
    requires Sliced(m, d, start, del) && Dense(d, removed) && |removed| == del
    requires Spliced(m, m', len, start, del, items)
    requires Spliced(m', m'', len - del + |items|, start, |items|, removed)
    ensures At(m'', k) == At(m, k)
  {
    hide Sliced, Dense, Spliced;
    SplicedAt(m', m'', len - del + |items|, start, |items|, removed, k);
    if k < start {
      SplicedAt(m, m', len, start, del, items, k);
    } else if k < start + del {
      RemovedAt(m, d, start, del, removed, k);
    } else if k < len {
      SplicedAt(m, m', len, start, del, items, Source(k, |items|, del));
    } else {
      SplicedAt(m, m', len, start, del, items, k);
    }
  }

  /** Splicing the deleted elements back in, in place of the inserted ones, restores the array. */
  lemma SpliceBack(m: Elements, d: Elements, m': Elements, m'': Elements, len: nat, start: nat, del: nat,
                   items: seq<Value>, removed: seq<Value>)
    requires start + del <= len && (forall k :: k in m ==> k < len)
    requires Sliced(m, d, start, del) && Dense(d, removed) && |removed| == del
    requires Spliced(m, m', len, start, del, items)
    requires Spliced(m', m'', len - del + |items|, start, |items|, removed)
    ensures m'' == m
  {
    hide Sliced, Dense, Spliced;
    forall k: nat
      ensures At(m'', k) == At(m, k)
    {
      BackAt(m, d, m', m'', len, start, del, items, removed, k);
    }
    R.SameSlots(m'', m);
  }
}
