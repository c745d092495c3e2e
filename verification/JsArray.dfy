/** Arrays of v8.mod/src/array.js with holes, no elements on the prototype chain, and the sorted list of their keys. */
module JsArray {
  import opened JsSort

  datatype Value = Undefined | Defined(id: int)

  type Elements = map<nat, Value>

  /** What an index holds. A hole is not the same as an element that is undefined. */
  datatype Slot = Hole | Full(value: Value)

  function At(m: Elements, i: nat): Slot {
    if i in m then Full(m[i]) else Hole
  }

  /** One entry of what `%GetArrayKeys` returns: a key, an erased key, or an interval of keys. */
  datatype Item = Key(key: nat) | Erased | Interval(start: nat, count: nat)

  predicate InItem(item: Item, i: nat) {
    match item
    case Key(key) => i == key
    case Erased => false
    case Interval(start, count) => start <= i < start + count
  }

  predicate Listed(items: seq<Item>, i: nat) {
    exists n :: 0 <= n < |items| && InItem(items[n], i)
  }

  /** No index from the limit on; keys beyond it have been erased. */
  predicate Within(item: Item, limit: nat) {
    match item
    case Key(key) => key < limit
    case Erased => true
    case Interval(start, count) => start + count <= limit
  }

  /** The contract of `%GetArrayKeys`: every present index below the limit is listed, and nothing from there on. */
  ghost predicate Covers(items: seq<Item>, m: Elements, limit: nat) {
    && (forall i :: i in m && i < limit ==> Listed(items, i))
    && (forall n :: 0 <= n < |items| ==> Within(items[n], limit))
  }

  const TWO32: nat := 0x1_0000_0000

  function ToUint32(n: nat): nat { n % TWO32 }

  function Exchanged(k: nat, low: nat, high: nat): nat {
    if k == low then high else if k == high then low else k
  }

  lemma ListedStep(items: seq<Item>, k: nat)
    requires k < |items|
    ensures forall i :: Listed(items[..k + 1], i) <==> Listed(items[..k], i) || InItem(items[k], i)
  {
    var s := items[..k + 1];
    forall i
      ensures Listed(s, i) <==> Listed(items[..k], i) || InItem(items[k], i)
    {
      if Listed(items[..k], i) {
        var n :| 0 <= n < k && InItem(items[..k][n], i);
        assert InItem(s[n], i);
      }
      if InItem(items[k], i) {
        assert InItem(s[k], i);
      }
      if Listed(s, i) {
        var n :| 0 <= n <= k && InItem(s[n], i);
        assert n < k ==> InItem(items[..k][n], i);
      }
    }
  }

  /** What comparing `x - y` with zero says. */
  function Difference(x: nat, y: nat): Order {
    if x < y then Less else if x == y then Zero else Greater
  }

  /** `keys.sort(function(a, b) { return a - b; })`. */
  method SortKeys(keys: seq<nat>) returns (sorted: seq<nat>)
    ensures forall i, j :: 0 <= i < j < |sorted| ==> sorted[i] <= sorted[j]
    ensures forall i :: i in sorted <==> i in keys
  {
    var a := new nat[|keys|](i requires 0 <= i < |keys| => keys[i]);
    assert a[0..a.Length] == keys;
    var compare := new Comparator<nat>((x: nat, y: nat) => x == y, (n: nat, x: nat, y: nat) => Difference(x, y));
    ghost var le := (x: nat, y: nat) => x <= y;
    assert compare.Follows(le);
    QuickSort(a, 0, a.Length, compare, le);
    sorted := a[0..a.Length];
    assert multiset(keys) == multiset(sorted);
    forall i
      ensures i in sorted <==> i in keys
    {
      assert i in sorted <==> i in multiset(sorted);
      assert i in keys <==> i in multiset(keys);
    }
    forall i, j | 0 <= i < j < |sorted|
      ensures sorted[i] <= sorted[j]
    {
      assert le(sorted[i], sorted[j]);
    }
  }

  class JSArray {
    const isArray: bool
    var elements: Elements
    var length: nat

    /** The length of an array bounds its indices; other objects may have elements behind it. */
    ghost predicate Valid()
      reads this
    {
      isArray ==> length < TWO32 && forall i :: i in elements ==> i < length
    }

    constructor (isArray: bool, length: nat)
      ensures this.isArray == isArray && this.length == length && elements == map[]
    {
      this.isArray, this.length, elements := isArray, length, map[];
    }

    /** `array[i]`. */
    function Get(i: nat): Value
      reads this`elements
    {
      if i in elements then elements[i] else Undefined
    }

    /** The test `!IS_UNDEFINED(current) || i in array`, given what `array[i]` was. */
    predicate Has(current: Value, i: nat)
      requires current == Get(i)
      reads this`elements
      ensures Has(current, i) <==> i in elements
    {
      current != Undefined || i in elements
    }

    /** `array[i] = v`. In an array, 2^32 - 1 and beyond are properties like any other, not indices. */
    method Put(i: nat, v: Value)
      modifies this`elements, this`length
      ensures elements == old(elements)[i := v]
      ensures forall k: nat :: At(elements, k) == if k == i then Full(v) else At(old(elements), k)
      ensures length == if isArray && old(length) <= i < TWO32 - 1 then i + 1 else old(length)
    {
      elements := elements[i := v];
      if isArray && length <= i < TWO32 - 1 {
        length := i + 1;
      }
    }

    /** `array.length = n`: an array loses the elements from n on; its length must stay below 2^32. */
    method SetLength(n: nat) returns (rangeError: bool)
      modifies this`elements, this`length
      ensures rangeError <==> isArray && n >= TWO32
      ensures length == if rangeError then old(length) else n
      ensures forall k: nat ::
        At(elements, k) == if isArray && k >= n && !rangeError then Hole else At(old(elements), k)
    {
      rangeError := isArray && n >= TWO32;
      if rangeError { return; }
      if isArray {
        elements := map k | k in elements && k < n :: elements[k];
      }
      length := n;
    }

    /** `delete array[i]`. */
    method Remove(i: nat)
      modifies this`elements
      ensures elements == old(elements) - {i}
      ensures forall k: nat :: At(elements, k) == if k == i then Hole else At(old(elements), k)
    {
      elements := elements - {i};
    }

    method PushInterval(keys: seq<nat>, start: nat, count: nat) returns (keys': seq<nat>)
      ensures forall i :: i in keys' <==> i in keys || (i in elements && start <= i < start + count)
    {
      keys' := keys;
      for j := start to start + count
        invariant forall i :: i in keys' <==> i in keys || (i in elements && start <= i < j)
      {
        if Has(Get(j), j) {
          keys' := keys' + [j];
        }
      }
    }

    /** `GetSortedArrayKeys`. Duplicates are not removed. */
    method GetSortedArrayKeys(intervals: seq<Item>) returns (keys: seq<nat>)
      ensures forall i, j :: 0 <= i < j < |keys| ==> keys[i] <= keys[j]
      ensures forall i :: i in keys <==> i in elements && Listed(intervals, i)
    {
      keys := [];
      for k := 0 to |intervals|
        invariant forall i :: i in keys <==> i in elements && Listed(intervals[..k], i)
      {
        ghost var before := keys;
        match intervals[k]
        case Key(key) =>
          if Has(Get(key), key) {
            keys := keys + [key];
          }
        case Erased =>
        case Interval(start, count) =>
          keys := PushInterval(keys, start, count);
        ListedStep(intervals, k);
      }
      assert intervals[..|intervals|] == intervals;
      keys := SortKeys(keys);
    }

    /** The branch by which `SparseReverse` and `ArrayReverse` exchange two elements, holes included. */
    method SwapPair(low: nat, high: nat)
      requires isArray ==> low < length && high < length
      modifies this`elements, this`length
      ensures length == old(length)
      ensures forall k: nat :: At(elements, k) == At(old(elements), Exchanged(k, low, high))
    {
      var currentI := Get(low);
      if Has(currentI, low) {
        var currentJ := Get(high);
        if Has(currentJ, high) {
          Put(low, currentJ);
          Put(high, currentI);
        } else {
          Put(high, currentI);
          Remove(low);
        }
      } else {
        var currentJ := Get(high);
        if Has(currentJ, high) {
          Put(low, currentJ);
          Remove(high);
        }
      }
    }
  }
}
