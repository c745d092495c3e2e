/** `SparseReverse` and `ArrayReverse` of v8.mod/src/array.js. */
module JsReverse {
  import opened JsArray

  function Mirror(i: nat, len: nat): (j: nat)
    ensures Mirror(i, len) < len <==> i < len
  {
    if i < len then len - 1 - i else i
  }

  /** Reversal, by section 15.4.4.8 of ECMA-262: an index holds what its mirror image held, be it a hole. */
  ghost predicate Reversed(m: Elements, m': Elements, len: nat) {
    forall k: nat :: At(m', k) == At(m, Mirror(k, len))
  }

  /** How deep inside the array an index lies, seen from the nearer end. */
  function Depth(k: nat, len: nat): nat
    requires k < len
  {
    if k <= len - 1 - k then k else len - 1 - k
  }

  predicate Outer(k: nat, len: nat, f: nat) {
    k < len && Depth(k, len) < f
  }

  /** Exactly the pairs less deep than f have been exchanged. */
  ghost predicate HalfDone(m: Elements, m': Elements, len: nat, f: nat) {
    forall k: nat :: At(m', k) == At(m, if Outer(k, len, f) then Mirror(k, len) else k)
  }

  lemma ExchangeNext(m: Elements, now: Elements, after: Elements, len: nat, f: nat)
    requires f <= len - 1 - f && HalfDone(m, now, len, f)
    requires forall k: nat :: At(after, k) == At(now, Exchanged(k, f, len - 1 - f))
    ensures HalfDone(m, after, len, f + 1)
  {
    forall k: nat
      ensures At(after, k) == At(m, if Outer(k, len, f + 1) then Mirror(k, len) else k)
    {
      assert At(after, k) == At(now, Exchanged(k, f, len - 1 - f));
    }
  }

  /** Depths at which both sides are holes may be skipped. */
  lemma SkipHoles(m: Elements, now: Elements, len: nat, f: nat, g: nat)
    requires f <= g && HalfDone(m, now, len, f)
    requires forall k: nat :: k in m && Outer(k, len, g) ==> Outer(k, len, f)
    ensures HalfDone(m, now, len, g)
  {
    forall k: nat
      ensures At(now, k) == At(m, if Outer(k, len, g) then Mirror(k, len) else k)
    {
      if Outer(k, len, g) && !Outer(k, len, f) {
        assert Outer(Mirror(k, len), len, g) && !Outer(Mirror(k, len), len, f);
      }
    }
  }

  lemma AllDone(m: Elements, now: Elements, len: nat, f: nat)
    requires HalfDone(m, now, len, f) && forall k: nat :: k in m && k < len ==> Outer(k, len, f)
    ensures Reversed(m, now, len)
  {
    SkipHoles(m, now, len, f, if f <= len then len else f);
  }

  /** Of the sorted keys, those from low to high are the ones at depth f or deeper. */
  ghost predicate Pending(keys: seq<nat>, low: int, high: int, len: nat, f: nat) {
    && 0 <= low <= |keys| && -1 <= high < |keys|
    && (forall i, j :: 0 <= i < j < |keys| ==> keys[i] <= keys[j])
    && (forall n :: 0 <= n < |keys| ==> keys[n] < len && (low <= n <= high <==> !Outer(keys[n], len, f)))
  }

  /** `while (keys[--high_counter] == j);` */
  method SkipDown(keys: seq<nat>, high: int) returns (high': int)
    requires 0 <= high < |keys| && forall i, j :: 0 <= i < j < |keys| ==> keys[i] <= keys[j]
    ensures -1 <= high' < high && (forall n :: high' < n <= high ==> keys[n] == keys[high])
    ensures forall n :: 0 <= n <= high' ==> keys[n] < keys[high]
  {
    high' := high - 1;
    while high' >= 0 && keys[high'] == keys[high]
      invariant -1 <= high' < high && forall n :: high' < n <= high ==> keys[n] == keys[high]
    {
      high' := high' - 1;
    }
  }

  /** `while (keys[++low_counter] == i);` */
  method SkipUp(keys: seq<nat>, low: int) returns (low': int)
    requires 0 <= low < |keys| && forall i, j :: 0 <= i < j < |keys| ==> keys[i] <= keys[j]
    ensures low < low' <= |keys| && (forall n :: low <= n < low' ==> keys[n] == keys[low])
    ensures forall n :: low' <= n < |keys| ==> keys[n] > keys[low]
  {
    low' := low + 1;
    while low' < |keys| && keys[low'] == keys[low]
      invariant low < low' <= |keys| && forall n :: low <= n < low' ==> keys[n] == keys[low]
    {
      low' := low' + 1;
    }
  }

  /** The outermost pending key decides how deep the next exchange is; nothing is pending at lesser depths. */
  lemma NextDepth(keys: seq<nat>, low: int, high: int, len: nat, f: nat)
    requires Pending(keys, low, high, len, f) && low <= high
    ensures var i, c := keys[low], len - 1 - keys[high];
            var g := if c <= i then c else i;
            && f <= g <= len - 1 - g
            && forall n :: low <= n <= high ==> !Outer(keys[n], len, g)
  {
    var i, c := keys[low], len - 1 - keys[high];
    assert !Outer(keys[low], len, f) && !Outer(keys[high], len, f);
    forall n | low <= n <= high
      ensures keys[low] <= keys[n] <= keys[high]
    {
    }
  }

  lemma NothingBetween(m: Elements, keys: seq<nat>, low: int, high: int, len: nat, f: nat, g: nat)
    requires Pending(keys, low, high, len, f) && (forall k :: k in m && k < len ==> k in keys)
    requires forall n :: low <= n <= high ==> !Outer(keys[n], len, g)
    ensures forall k: nat :: k in m && Outer(k, len, g) ==> Outer(k, len, f)
  {
    forall k: nat | k in m && Outer(k, len, g)
      ensures Outer(k, len, f)
    {
      var n :| 0 <= n < |keys| && keys[n] == k;
    }
  }

  /** What remains pending after a turn. */
  lemma StillPending(keys: seq<nat>, low: int, high: int, low': int, high': int, len: nat, f: nat, g: nat)
    requires Pending(keys, low, high, len, f) && low <= high && f <= g
    requires var i, c := keys[low], len - 1 - keys[high];
             && g == (if c <= i then c else i)
             && (forall n :: low <= n <= high ==> !Outer(keys[n], len, g))
             && (if c <= i then
                   -1 <= high' < high && (forall n :: high' < n <= high ==> keys[n] == keys[high])
                   && (forall n :: 0 <= n <= high' ==> keys[n] < keys[high])
                 else high' == high)
             && (if c >= i then
                   low < low' <= |keys| && (forall n :: low <= n < low' ==> keys[n] == keys[low])
                   && (forall n :: low' <= n < |keys| ==> keys[n] > keys[low])
                 else low' == low)
    ensures Pending(keys, low', high', len, g + 1)
  {
    var i, c := keys[low], len - 1 - keys[high];
    forall n | 0 <= n < |keys|
      ensures low' <= n <= high' <==> !Outer(keys[n], len, g + 1)
    {
      if low <= n <= high {
        assert keys[low] <= keys[n] <= keys[high];
        assert !Outer(keys[n], len, g);
      } else {
        assert Outer(keys[n], len, f);
      }
    }
  }

  lemma Start(m: Elements, keys: seq<nat>, len: nat)
    requires (forall i, j :: 0 <= i < j < |keys| ==> keys[i] <= keys[j]) && forall k :: k in keys ==> k < len
    ensures Pending(keys, 0, |keys| - 1, len, 0) && HalfDone(m, m, len, 0)
  {
    forall n | 0 <= n < |keys|
      ensures keys[n] < len
    {
      assert keys[n] in keys;
    }
  }

  lemma PendingFacts(keys: seq<nat>, low: int, high: int, len: nat, f: nat)
    requires Pending(keys, low, high, len, f) && low <= high
    ensures 0 <= low <= high < |keys| && keys[low] < len && keys[high] < len
    ensures forall i, j :: 0 <= i < j < |keys| ==> keys[i] <= keys[j]
  {
  }

  lemma NothingPending(m: Elements, keys: seq<nat>, low: int, high: int, len: nat, f: nat)
    requires Pending(keys, low, high, len, f) && low > high && (forall k :: k in m && k < len ==> k in keys)
    ensures forall k: nat :: k in m && k < len ==> Outer(k, len, f)
  {
    forall k: nat | k in m && k < len
      ensures Outer(k, len, f)
    {
      var n :| 0 <= n < |keys| && keys[n] == k;
    }
  }

  /** `SparseReverse`: only present elements are visited, from the outside in. */
  method SparseReverse(a: JSArray, len: nat, intervals: seq<Item>)
    requires Covers(intervals, a.elements, len) && (a.isArray ==> len <= a.length)
    modifies a`elements, a`length
    ensures Reversed(old(a.elements), a.elements, len) && a.length == old(a.length)
  {
    hide HalfDone, Reversed, Pending;
    ghost var m := a.elements;
    var keys := a.GetSortedArrayKeys(intervals);
    var highCounter := |keys| - 1;
    var lowCounter := 0;
    ghost var f: nat := 0;
    Start(m, keys, len);
    while lowCounter <= highCounter
      invariant Pending(keys, lowCounter, highCounter, len, f) && HalfDone(m, a.elements, len, f)
      invariant a.length == old(a.length)
      decreases highCounter - lowCounter
    {
      PendingFacts(keys, lowCounter, highCounter, len, f);
      NextDepth(keys, lowCounter, highCounter, len, f);
      ghost var low0, high0 := lowCounter, highCounter;
      var i := keys[lowCounter];
      var j := keys[highCounter];
      var jComplement := len - j - 1;
      var low, high := 0, 0;
      if jComplement <= i {
        high := j;
        highCounter := SkipDown(keys, highCounter);
        low := jComplement;
      }
      if jComplement >= i {
        low := i;
        lowCounter := SkipUp(keys, lowCounter);
        high := len - i - 1;
      }
      NothingBetween(m, keys, low0, high0, len, f, low);
      SkipHoles(m, a.elements, len, f, low);
      StillPending(keys, low0, high0, lowCounter, highCounter, len, f, low);
      ghost var now := a.elements;
      a.SwapPair(low, high);
      ExchangeNext(m, now, a.elements, len, low);
      f := low + 1;
    }
    NothingPending(m, keys, lowCounter, highCounter, len, f);
    AllDone(m, a.elements, len, f);
  }

  /** `UseSparseVariant`. */
  predicate UseSparseVariant(length: int, isArray: bool, isSmi: bool, estimate: nat) {
    isArray && length > 1000 && (!isSmi || estimate < length / 4)
  }

  lemma MiddleStays(m: Elements, now: Elements, len: nat, f: nat)
    requires HalfDone(m, now, len, f) && len <= 2 * f + 1
    ensures Reversed(m, now, len)
  {
  }

  /** `ArrayReverse`: both variants reverse, holes included. */
  method ArrayReverse(a: JSArray, isSmi: bool, estimate: nat, intervals: seq<Item>)
    requires a.Valid() && Covers(intervals, a.elements, ToUint32(a.length))
    modifies a`elements, a`length
    ensures Reversed(old(a.elements), a.elements, ToUint32(old(a.length)))
    ensures a.length == old(a.length)
  {
    hide HalfDone, Reversed;
    var j: int := ToUint32(a.length) - 1;
    if UseSparseVariant(j, a.isArray, isSmi, estimate) {
      SparseReverse(a, j + 1, intervals);
      return;
    }
    ghost var m, len := a.elements, ToUint32(a.length);
    var i := 0;
    Start(m, [], len);
    while i < j
      invariant 0 <= i && i + j + 1 == len && i <= j + 1
      invariant HalfDone(m, a.elements, len, i) && a.length == old(a.length)
      decreases j - i
    {
      ghost var now := a.elements;
      a.SwapPair(i, j);
      ExchangeNext(m, now, a.elements, len, i);
      i := i + 1;
      j := j - 1;
    }
    MiddleStays(m, a.elements, len, i);
  }

  lemma SameSlots(a: Elements, b: Elements)
    requires forall k: nat :: At(a, k) == At(b, k)
    ensures a == b
  {
    forall k: nat
      ensures k in a <==> k in b
      ensures k in a ==> a[k] == b[k]
    {
      assert At(a, k) == At(b, k);
    }
  }

  /** Reversing twice restores every element and every hole. */
  lemma ReverseTwice(m: Elements, m': Elements, m'': Elements, len: nat)
    requires Reversed(m, m', len) && Reversed(m', m'', len)
    ensures m'' == m
  {
    forall k: nat
      ensures At(m'', k) == At(m, k)
    {
      assert Mirror(Mirror(k, len), len) == k;
    }
    SameSlots(m, m'');
  }

  /** A reversal is unique: the sparse and the dense variant leave the same array. */
  lemma ReversalIsUnique(m: Elements, a: Elements, b: Elements, len: nat)
    requires Reversed(m, a, len) && Reversed(m, b, len)
    ensures a == b
  {
    SameSlots(a, b);
  }
}
