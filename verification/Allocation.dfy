/**
 `PreallocatedStorage` of v8.mod/src/allocation.cpp: first-fit allocation from one arena. Memory is a map from
 chunk addresses to the three words of their headers.
 */
module Allocation {
  import opened Arena
  import Arithmetic
  import opened ChunkList

  datatype Pointer = Null | Address(at: int)

  datatype Step = Request(bytes: nat) | Release(which: nat)

  /** A payload that its owner has not released, and the size that was asked for. */
  datatype Live = Live(at: int, bytes: nat)

  type PointerSize = n: nat | n == 4 || n == 8 witness 4

  // The two list heads are static objects, outside every arena.
  const FREE_LIST: int := -1
  const IN_USE_LIST: int := -2

  /** The test of the first search, for an exact fit, and of the second, for room to cut a chunk. */
  predicate Suits(bytes: nat, n: nat, exact: bool) {
    if exact then bytes == n else bytes >= n
  }

  /** The first suitable chunk of a list. */
  function First(size: Sizes, list: seq<int>, n: nat, exact: bool): (k: nat)
    requires Known(size, list)
    ensures k <= |list| && (k < |list| ==> Suits(size[list[k]], n, exact))
    ensures forall i :: 0 <= i < k ==> !Suits(size[list[i]], n, exact)
  {
    if list == [] || Suits(size[list[0]], n, exact) then 0 else 1 + First(size, list[1..], n, exact)
  }

  /** The j-th chunk is the first of exactly n bytes. */
  ghost predicate FirstExact(size: Sizes, free: seq<int>, n: nat, j: nat)
    requires Known(size, free)
  {
    j < |free| && size[free[j]] == n && forall i :: 0 <= i < j ==> size[free[i]] != n
  }

  /** No chunk has exactly n bytes, and the j-th is the first of at least `need`. */
  ghost predicate FirstRoom(size: Sizes, free: seq<int>, n: nat, need: nat, j: nat)
    requires Known(size, free)
  {
    && j < |free| && size[free[j]] >= need
    && (forall i :: 0 <= i < |free| ==> size[free[i]] != n) && forall i :: 0 <= i < j ==> size[free[i]] < need
  }

  /** An exact fit is preferred to the first chunk that passes the test for a cut. */
  function Choice(size: Sizes, free: seq<int>, n: nat, need: nat): (k: nat)
    requires Known(size, free)
    ensures k <= |free|
    ensures k < |free| ==> FirstExact(size, free, n, k) || FirstRoom(size, free, n, need, k)
    ensures k == |free| <==> forall i :: 0 <= i < |free| ==> size[free[i]] != n && size[free[i]] < need
  {
    var exact := First(size, free, n, true);
    if exact < |free| then exact else First(size, free, need, false)
  }

  lemma FirstChunk(next: Links, previous: Links, x: int)
    requires Ring(next, previous, FREE_LIST, []) && Ring(next, previous, IN_USE_LIST, []) && x >= 0
    ensures var next', previous' := next[FREE_LIST := x][x := FREE_LIST], previous[FREE_LIST := x][x := FREE_LIST];
            Ring(next', previous', FREE_LIST, [x]) && Ring(next', previous', IN_USE_LIST, [])
  {
    var next', previous' := next[FREE_LIST := x][x := FREE_LIST], previous[FREE_LIST := x][x := FREE_LIST];
    assert next' == next[x := FREE_LIST][FREE_LIST := x];
    LinkKeepsRing(next, previous, next', previous', FREE_LIST, [], x);
    assert [x] + [] == [x];
    RingFrame(next, previous, next', previous', [FREE_LIST, x], IN_USE_LIST, []);
  }

  lemma RingFacts(next: Links, previous: Links, head: int, s: seq<int>)
    requires Ring(next, previous, head, s)
    ensures Distinct(s) && head !in s
  {
  }

  lemma Inserted(s: seq<int>, k: nat, x: int)
    requires k < |s|
    ensures forall y :: y in s[..k + 1] + [x] + s[k + 1..] <==> y in s || y == x
  {
    assert s == s[..k + 1] + s[k + 1..];
  }

  lemma Aligned(a: int, n: int, m: nat)
    requires m == 4 || m == 8
    requires a % m == 0 && (n - 3 * m) % m == 0
    ensures (a + n) % m == 0
  {
    if m == 4 {
      Arithmetic.Quotient(a + n, 4, a / 4 + (n - 12) / 4 + 3, 0);
    } else {
      Arithmetic.Quotient(a + n, 8, a / 8 + (n - 24) / 8 + 3, 0);
    }
  }

  lemma DistinctBoth(a: seq<int>, b: seq<int>)
    requires Distinct(a) && Distinct(b) && forall x :: x in a ==> x !in b
    ensures Distinct(a + b)
  {
    forall i, j | 0 <= i < j < |a + b|
      ensures (a + b)[i] != (a + b)[j]
    {
      if i < |a| <= j {
        assert a[i] in a && b[j - |a|] in b;
      }
    }
  }

  lemma FrontServes(size: Sizes, c: int, free: seq<int>, n: nat, need: nat)
    requires Known(size, [c] + free) && c in size && size[c] == n
    ensures Choice(size, [c] + free, n, need) == 0 && Without([c] + free, 0) == free
  {
  }

  class PreallocatedStorage {
    const pointerSize: PointerSize
    var size: Sizes
    var previous: Links
    var next: Links
    var preallocated: bool
    ghost var base: int
    ghost var total: nat
    ghost var free: seq<int>
    ghost var used: seq<int>
    ghost var tiles: seq<int>

    /** A size and two pointers. */
    function Header(): nat { 3 * pointerSize }

    function Word(): nat { if pointerSize == 4 then 0x1_0000_0000 else 0x1_0000_0000_0000_0000 }

    /** Both lists are rings; their chunks are the tiles of the arena, each on exactly one list, and aligned. */
    ghost predicate Valid()
      reads this
    {
      && preallocated && base > 0 && base + total <= Word()
      && Ring(next, previous, FREE_LIST, free)
      && Ring(next, previous, IN_USE_LIST, used)
      && (forall x :: x in free ==> x !in used)
      && (forall x :: x in tiles <==> x in free || x in used)
      && Tiled(size, base, base + total, Header(), tiles)
      && (forall x :: x in tiles ==> x >= base && (x - base) % pointerSize == 0)
    }

    /** The static initialisers. */
    constructor (pointerSize: PointerSize)
      ensures this.pointerSize == pointerSize && !preallocated
      ensures Ring(next, previous, FREE_LIST, []) && Ring(next, previous, IN_USE_LIST, [])
    {
      this.pointerSize := pointerSize;
      size := map[FREE_LIST := 0, IN_USE_LIST := 0];
      next := map[FREE_LIST := FREE_LIST, IN_USE_LIST := IN_USE_LIST];
      previous := map[FREE_LIST := FREE_LIST, IN_USE_LIST := IN_USE_LIST];
      preallocated := false;
      base, total, free, used, tiles := 0, 0, [], [], [];
    }

    lemma OneTile(address: int, bytes: nat)
      requires address in size && size[address] + Header() == bytes && pointerSize > 0
      ensures Tiled(size, address, address + bytes, Header(), [address])
    {
      assert Abuts(size, address + bytes, Header(), [address], 0);
    }

    /** The size of the first chunk is a machine word. */
    lemma ChunkSize(bytes: nat)
      requires bytes < Word()
      ensures (bytes - Header()) % Word() == if bytes >= Header() then bytes - Header() else Word() + bytes - Header()
    {
      var d := bytes - Header();
      if d >= 0 { Arithmetic.Quotient(d, Word(), 0, d); } else { Arithmetic.Quotient(d, Word(), -1, d + Word()); }
    }

    /** A chunk of a wrapped size does not fit the arena. */
    lemma NoRoom(address: int)
      requires tiles == [address] && address in size && size[address] + Header() > total
      ensures !Valid()
    {
      assert Tiled(size, base, base + total, Header(), tiles) ==> Abuts(size, base + total, Header(), tiles, 0);
    }

    /**
     `Init`, with the address at which `new char[size]` put the arena. It is fit for use exactly when it has room for
     a header; otherwise the size of the one chunk wraps.
     */
    method Init(address: int, bytes: nat)
      requires address > 0 && address + bytes <= Word()
      requires Ring(next, previous, FREE_LIST, []) && Ring(next, previous, IN_USE_LIST, [])
      modifies this
      ensures Valid() <==> bytes >= Header()
      ensures base == address && total == bytes && free == [address] && used == [] && tiles == [address]
      ensures Ring(next, previous, FREE_LIST, free) && Ring(next, previous, IN_USE_LIST, used)
      ensures address in size
      ensures size[address] == if bytes >= Header() then bytes - Header() else Word() + bytes - Header()
    {
      hide Ring, Tiled;
      ghost var next0, previous0 := next, previous;
      next := next[FREE_LIST := address];
      previous := previous[FREE_LIST := address];
      next := next[address := FREE_LIST];
      previous := previous[address := FREE_LIST];
      ChunkSize(bytes);
      size := size[address := (bytes - Header()) % Word()];
      preallocated := true;
      base, total, free, used, tiles := address, bytes, [address], [], [address];
      FirstChunk(next0, previous0, address);
      if bytes >= Header() { OneTile(address, bytes); } else { NoRoom(address); }
    }

    /** `LinkTo`: x goes right behind the head of a list. */
    method LinkTo(x: int, other: int, ghost s: seq<int>)
      requires Ring(next, previous, other, s) && x != other && x !in s
      modifies this`next, this`previous
      ensures Ring(next, previous, other, [x] + s)
      ensures SameOutside(old(next), next, [x, other] + s) && SameOutside(old(previous), previous, [x, other] + s)
    {
      ghost var next0, previous0 := next, previous;
      assert Joined(next, previous, other, s, 0);
      next := next[x := next[other]];
      previous := previous[next[other] := x];
      previous := previous[x := other];
      next := next[other := x];
      LinkKeepsRing(next0, previous0, next, previous, other, s, x);
    }

    /** `Unlink`: x leaves the list it is on. */
    method Unlink(x: int, ghost head: int, ghost s: seq<int>, ghost k: nat)
      requires Ring(next, previous, head, s) && k < |s| && x == s[k]
      modifies this`next, this`previous
      ensures Ring(next, previous, head, Without(s, k))
      ensures SameOutside(old(next), next, [head] + s) && SameOutside(old(previous), previous, [head] + s)
    {
      ghost var next0, previous0 := next, previous;
      assert Joined(next, previous, head, s, k) && Joined(next, previous, head, s, k + 1);
      previous := previous[next[x] := previous[x]];
      next := next[previous[x] := next[x]];
      UnlinkKeepsRing(next0, previous0, next, previous, head, s, k);
    }

    /** `Unlink` followed by `LinkTo`: x moves to the front of the other list. */
    method Move(x: int, from: int, to: int, ghost a: seq<int>, ghost b: seq<int>, ghost k: nat)
      requires Ring(next, previous, from, a) && Ring(next, previous, to, b) && k < |a| && x == a[k]
      requires from != to && x != to && from !in b && to !in a && forall y :: y in a ==> y !in b
      modifies this`next, this`previous
      ensures Ring(next, previous, from, Without(a, k)) && Ring(next, previous, to, [x] + b)
    {
      hide Ring, Without;
      RingFacts(next, previous, from, a);
      RingFacts(next, previous, to, b);
      ghost var next0, previous0 := next, previous;
      Unlink(x, from, a, k);
      RingFrame(next0, previous0, next, previous, [from] + a, to, b);
      ghost var next1, previous1 := next, previous;
      LinkTo(x, to, b);
      WithoutMembers(a, k);
      RingFrame(next1, previous1, next, previous, [x, to] + b, from, Without(a, k));
    }

    /** One search through the free list; the list head stands for failure. */
    method Search(n: nat, exact: bool) returns (storage: int)
      requires Ring(next, previous, FREE_LIST, free) && Known(size, free)
      ensures var k := First(size, free, n, exact);
              storage == if k < |free| then free[k] else FREE_LIST
    {
      assert Joined(next, previous, FREE_LIST, free, 0);
      storage := next[FREE_LIST];
      ghost var k: nat := 0;
      while storage != FREE_LIST
        invariant k <= |free| && storage == Node(FREE_LIST, free, k + 1)
        invariant forall i :: 0 <= i < k ==> !Suits(size[free[i]], n, exact)
        decreases |free| - k
      {
        assert storage == free[k];
        if Suits(size[storage], n, exact) {
          return;
        }
        assert Joined(next, previous, FREE_LIST, free, k + 1);
        storage := next[storage];
        k := k + 1;
      }
    }

    lemma OnList(list: seq<int>)
      requires (forall x :: x in list ==> x in tiles) && (forall x :: x in tiles ==> x in size)
      ensures Known(size, list)
    {
      forall i | 0 <= i < |list|
        ensures list[i] in size
      {
        var x := list[i];
        assert x in list;
        assert x in tiles;
      }
    }

    /** The request rounded up to whole words of memory. */
    function Rounded(request: nat): (n: nat)
      ensures n % pointerSize == 0
      ensures request + pointerSize <= Word() ==> request <= n < request + pointerSize
    {
      (request + pointerSize - 1) % Word() / pointerSize * pointerSize
    }

    /** What the test for a cut compares with: the rounded size plus a header, as a machine word. */
    function Need(n: nat): nat {
      (n + Header()) % Word()
    }

    /** The sum in the test for a cut wraps. */
    predicate Wraps(request: nat) {
      Rounded(request) + Header() >= Word()
    }

    lemma RoundedBelow(request: nat)
      requires request < Word()
      ensures Rounded(request) + pointerSize <= Word()
      ensures request + pointerSize > Word() ==> Rounded(request) == 0
    {
      var v := request + pointerSize - 1;
      if v >= Word() {
        Arithmetic.Quotient(v, Word(), 1, v - Word());
        Arithmetic.Quotient(v - Word(), pointerSize, 0, v - Word());
      } else {
        Arithmetic.Quotient(v, Word(), 0, v);
        var words := Word() / pointerSize;
        assert Word() == words * pointerSize;
        Arithmetic.Apart(pointerSize, v / pointerSize, words - 1);
      }
    }

    /**
     Requests at the top of the address space. The payload is at least the request exactly when rounding does not
     wrap; the sum in the test for a cut wraps exactly in the band below that.
     */
    lemma TopRequests(request: nat)
      requires request < Word()
      ensures Rounded(request) >= request <==> request + pointerSize <= Word()
      ensures Wraps(request) <==> Word() - Header() < request + pointerSize <= Word()
    {
      RoundedBelow(request);
      var words := Word() / pointerSize;
      assert Word() == words * pointerSize;
      if request + pointerSize <= Word() - Header() {
        Arithmetic.Apart(pointerSize, Rounded(request) / pointerSize, words - 4);
      } else if request + pointerSize <= Word() {
        assert Rounded(request) >= request;
        Arithmetic.Apart(pointerSize, words - 3, Rounded(request) / pointerSize);
      }
    }

    /** Below the band where sums wrap. */
    lemma RoundedInNumbers(request: nat)
      requires if pointerSize == 8 then request <= 0xFFFF_FFFF_FFFF_FFE0 else request <= 0xFFFF_FFF0
      ensures !Wraps(request)
      ensures Rounded(request) == if pointerSize == 8 then (request + 7) / 8 * 8 else (request + 3) / 4 * 4
    {
      TopRequests(request);
      Arithmetic.Quotient(request + pointerSize - 1, Word(), 0, request + pointerSize - 1);
    }

    lemma NeedOf(request: nat)
      requires request < Word()
      ensures Need(Rounded(request)) <= Rounded(request) + Header()
      ensures !Wraps(request) ==> Need(Rounded(request)) == Rounded(request) + Header()
    {
      hide Rounded;
      if !Wraps(request) { Arithmetic.Quotient(Rounded(request) + Header(), Word(), 0, Rounded(request) + Header()); }
    }

    /**
     Of a chunk that passes the test, a cut leaves a header and a payload inside the chunk exactly when the sum in
     the test has not wrapped.
     */
    lemma CutStaysInside(request: nat, bytes: nat)
      requires request < Word() && bytes < Word() && bytes >= Need(Rounded(request))
      ensures Rounded(request) + Header() <= bytes <==> !Wraps(request)
    {
      hide Rounded;
      RoundedBelow(request);
      NeedOf(request);
    }

    /** No chunk is as large as the sizes whose test wraps. */
    lemma SizesFit(c: int)
      requires Valid() && (c in free || c in used)
      ensures c in size && size[c] + Header() < Word()
    {
      hide Ring;
      assert c in tiles;
      var i :| 0 <= i < |tiles| && tiles[i] == c;
      InOrder(size, base, base + total, Header(), tiles, i, |tiles|);
    }

    /** The rings, seen through what `Valid` says of them. */
    lemma Lists()
      requires Valid()
      ensures Ring(next, previous, FREE_LIST, free) && Ring(next, previous, IN_USE_LIST, used)
      ensures Distinct(free) && Distinct(used) && (forall x :: x in free ==> x !in used)
      ensures forall x :: x in free || x in used ==> x >= 0 && x in size
      ensures Known(size, free) && Known(size, used)
    {
      forall x | x in tiles
        ensures x in size
      {
        var i :| 0 <= i < |tiles| && tiles[i] == x;
        assert Abuts(size, base + total, Header(), tiles, i);
      }
      OnList(free);
      OnList(used);
    }

    /** Moving a chunk from one list to the other keeps everything else as it was. */
    ghost predicate Moved(k: nat, from: seq<int>, to: seq<int>, from': seq<int>, to': seq<int>)
      requires k < |from|
    {
      from' == Without(from, k) && to' == [from[k]] + to
    }

    lemma StillPartition(k: nat, a: seq<int>, b: seq<int>, a': seq<int>, b': seq<int>)
      requires k < |a| && Moved(k, a, b, a', b') && Distinct(a)
      requires (forall x :: x in a ==> x !in b) && (forall x :: x in tiles <==> x in a || x in b)
      ensures (forall x :: x in a' ==> x !in b') && (forall x :: x in tiles <==> x in a' || x in b')
    {
      WithoutMembers(a, k);
    }

    /** A free chunk goes into use. */
    method Take(storage: int, ghost k: nat)
      requires Valid() && k < |free| && storage == free[k]
      modifies this`next, this`previous, this`free, this`used
      ensures Valid() && Moved(k, old(free), old(used), free, used)
    {
      hide Ring, Tiled, Without;
      Lists();
      Move(storage, FREE_LIST, IN_USE_LIST, free, used, k);
      StillPartition(k, free, used, Without(free, k), [free[k]] + used);
      free, used := Without(free, k), [free[k]] + used;
    }

    lemma CutTiles(storage: int, n: nat) returns (k: nat)
      requires Valid() && storage in used && n % pointerSize == 0
      requires storage in size && n + Header() <= size[storage]
      ensures var left := storage + Header() + n;
              && k < |tiles| && left !in tiles && left >= base && (left - base) % pointerSize == 0
              && var tiles' := tiles[..k + 1] + [left] + tiles[k + 1..];
              && (forall x :: x in tiles' <==> x in tiles || x == left)
              && Tiled(size[left := size[storage] - n - Header()][storage := n], base, base + total, Header(), tiles')
    {
      assert storage in tiles;
      k :| 0 <= k < |tiles| && tiles[k] == storage;
      var left := storage + Header() + n;
      CutKeepsTiling(size, base, base + total, Header(), tiles, k, n, left);
      Inserted(tiles, k, left);
      Aligned(storage - base, Header() + n, pointerSize);
    }

    /** A chunk in use is cut to n bytes, and the rest becomes a free chunk. */
    method Cut(storage: int, n: nat)
      requires Valid() && used != [] && storage == used[0] && n % pointerSize == 0
      requires storage in size && n + Header() <= size[storage]
      modifies this`next, this`previous, this`free, this`tiles, this`size
      ensures Valid() && free == [storage + Header() + n] + old(free)
      ensures storage + Header() + n !in old(tiles)
      ensures forall x :: x in tiles <==> x in old(tiles) || x == storage + Header() + n
      ensures size == old(size)[storage + Header() + n := old(size)[storage] - n - Header()][storage := n]
    {
      hide Ring, Tiled, Without, Known;
      var leftOver := storage + Header() + n;
      ghost var next0, previous0 := next, previous;
      Lists();
      ghost var k := CutTiles(storage, n);
      size := size[leftOver := size[storage] - n - Header()];
      size := size[storage := n];
      LinkTo(leftOver, FREE_LIST, free);
      RingFrame(next0, previous0, next, previous, [leftOver, FREE_LIST] + free, IN_USE_LIST, used);
      free := [leftOver] + free;
      tiles := tiles[..k + 1] + [leftOver] + tiles[k + 1..];
    }

    /**
     `New`: the chosen chunk moves to the front of the list of used ones, and keeps exactly the rounded size;
     what a cut leaves over goes to the front of the free list. Null only if no free chunk can serve. If the sum in
     the test has wrapped and a chunk has passed, the source puts the header of the left-over outside the space it
     means to cut off; the method reports that and stops before the cut.

     The last two clauses say which chunk that is. The first one that fits exactly is handed out whole; if there is
     none, the first one with room for the rounded size and a header is.
     */
    method New(request: nat) returns (p: Pointer, escaped: bool)
      requires Valid() && request < Word()
      modifies this
      ensures Known(old(size), old(free))
      ensures escaped <==>
        Wraps(request) && Choice(old(size), old(free), Rounded(request), Need(Rounded(request))) < |old(free)|
      ensures !escaped ==> Valid() && base == old(base) && total == old(total)
      ensures !escaped ==>
        var n, k := Rounded(request), Choice(old(size), old(free), Rounded(request), Need(Rounded(request)));
        if k == |old(free)| then
          && p == Null && free == old(free) && used == old(used) && tiles == old(tiles) && size == old(size)
        else
          var c := old(free)[k];
          && p == Address(c + Header()) && used == [c] + old(used)
          && if old(size)[c] == n then
               free == Without(old(free), k) && tiles == old(tiles) && size == old(size)
             else
               var left := c + Header() + n;
               && n + Header() <= old(size)[c] && free == [left] + Without(old(free), k)
               && left !in old(tiles) && (forall x :: x in tiles <==> x in old(tiles) || x == left)
               && size == old(size)[left := old(size)[c] - n - Header()][c := n]
      ensures forall j: nat :: FirstExact(old(size), old(free), Rounded(request), j) ==>
        && !escaped && p == Address(old(free)[j] + Header()) && size == old(size) && tiles == old(tiles)
        && free == Without(old(free), j) && used == [old(free)[j]] + old(used)
      ensures forall j: nat ::
        !escaped && FirstRoom(old(size), old(free), Rounded(request), Rounded(request) + Header(), j) ==>
        && p == Address(old(free)[j] + Header()) && used == [old(free)[j]] + old(used)
    {
      hide Ring, Tiled, Valid, Known, First, Without, Rounded, Need;
      Lists();
      RoundedBelow(request);
      NeedOf(request);
      var n := Rounded(request);
      var storage := Search(n, true);
      if storage != FREE_LIST {
        SizesFit(storage);
        Take(storage, Choice(size, free, n, Need(n)));
        return Address(storage + Header()), false;
      }
      storage := Search(Need(n), false);
      if storage != FREE_LIST {
        if n + Header() >= Word() { return Null, true; }
        Take(storage, Choice(size, free, n, Need(n)));
        Cut(storage, n);
        return Address(storage + Header()), false;
      }
      return Null, false;
    }

    /** `Delete`: the chunk in front of a live payload moves to the front of the free list. */
    method Delete(p: Pointer)
      requires Valid() && (p.Address? ==> p.at - Header() in used)
      modifies this`next, this`previous, this`free, this`used
      ensures Valid()
      ensures p.Null? ==> free == old(free) && used == old(used)
      ensures p.Address? ==>
        exists k :: 0 <= k < |old(used)| && old(used)[k] == p.at - Header()
                    && Moved(k, old(used), old(free), used, free)
    {
      hide Ring, Tiled, Without;
      if p.Null? { return; }
      var storage := p.at - Header();
      ghost var k :| 0 <= k < |used| && used[k] == storage;
      Lists();
      Move(storage, IN_USE_LIST, FREE_LIST, used, free, k);
      StillPartition(k, used, free, Without(used, k), [used[k]] + free);
      free, used := [used[k]] + free, Without(used, k);
    }

    /** Live payloads lie in the arena, behind headers of their own, and do not overlap. */
    lemma LiveDisjoint(c: int, d: int)
      requires Valid() && c in used && d in used && c != d
      ensures c in size && d in size
      ensures base + Header() <= c + Header() && c + Header() + size[c] <= base + total
      ensures c + Header() + size[c] <= d || d + Header() + size[d] <= c
    {
      hide Ring;
      assert c in tiles && d in tiles;
      var i :| 0 <= i < |tiles| && tiles[i] == c;
      var j :| 0 <= j < |tiles| && tiles[j] == d;
      InOrder(size, base, base + total, Header(), tiles, i, |tiles|);
      if i < j {
        InOrder(size, base, base + total, Header(), tiles, i, j);
      } else {
        InOrder(size, base, base + total, Header(), tiles, j, i);
      }
      assert Abuts(size, base + total, Header(), tiles, j);
    }

    /** The two lists together always account for every byte of the arena. */
    lemma Conserved()
      requires Valid()
      ensures Known(size, free) && Known(size, used)
      ensures Bytes(size, Header(), free) + Bytes(size, Header(), used) == total
    {
      hide Ring, Bytes;
      Lists();
      TilesDistinct(size, base, base + total, Header(), tiles);
      BytesOfBoth(size, Header(), free, used);
      KnownTiles(size, base, base + total, Header(), tiles);
      DistinctBoth(free, used);
      BytesOfSame(size, Header(), tiles, free + used);
      assert tiles[0..] == tiles;
      BytesOfTiles(size, base, base + total, Header(), tiles, 0);
    }

    /** What was just released is what the next request of the same size gets, and nothing is left changed. */
    method Recycle(p: Pointer, request: nat) returns (q: Pointer)
      requires Valid() && p.Address? && p.at - Header() in used && request < Word()
      requires p.at - Header() in size && size[p.at - Header()] == Rounded(request)
      modifies this
      ensures Valid() && q == p && free == old(free) && size == old(size) && tiles == old(tiles)
      ensures forall x :: x in used <==> x in old(used)
    {
      hide Ring, Tiled, Valid, Without, Known, Choice, Rounded, Need;
      Lists();
      SizesFit(p.at - Header());
      ghost var used0, free0 := used, free;
      Delete(p);
      ghost var k :| 0 <= k < |used0| && used0[k] == p.at - Header() && Moved(k, used0, free0, used, free);
      ghost var used1, free1 := used, free;
      WithoutMembers(used0, k);
      Lists();
      FrontServes(size, used0[k], free0, Rounded(request), Need(Rounded(request)));
      var escaped;
      q, escaped := New(request);
      assert used == [used0[k]] + used1;
    }

    /** The payload is in use and has exactly the rounded size. */
    ghost predicate Serves(l: Live)
      reads this`used, this`size
    {
      l.at - Header() in used && l.at - Header() in size && size[l.at - Header()] == Rounded(l.bytes)
    }

    ghost predicate AllServed(live: seq<Live>)
      reads this`used, this`size
    {
      && (forall i :: 0 <= i < |live| ==> Serves(live[i]))
      && forall i, j :: 0 <= i < j < |live| ==> live[i].at != live[j].at
    }

    lemma UsedAreTiles()
      requires Valid()
      ensures forall x :: x in used ==> x in tiles
    {
    }

    method Obtain(bytes: nat, live: seq<Live>) returns (live': seq<Live>, escaped: bool)
      requires Valid() && AllServed(live) && bytes < Word()
      modifies this
      ensures Known(old(size), old(free))
      ensures var k := Choice(old(size), old(free), Rounded(bytes), Need(Rounded(bytes)));
              && (escaped <==> Wraps(bytes) && k < |old(free)|)
              && (!escaped ==> (live' == live <==> k == |old(free)|))
      ensures !escaped ==> Valid() && base == old(base) && total == old(total) && AllServed(live')
      ensures !escaped ==>
        if live' == live then |used| == |old(used)|
        else |used| == |old(used)| + 1 && |live'| == |live| + 1 && live'[1..] == live && live'[0].bytes == bytes
      ensures forall j: nat :: FirstExact(old(size), old(free), Rounded(bytes), j) ==>
        && !escaped && live' == [Live(old(free)[j] + Header(), bytes)] + live
        && size == old(size) && tiles == old(tiles) && free == Without(old(free), j)
    {
      hide Valid, Rounded, Choice, Known, Without, Need, Wraps, FirstExact, FirstRoom;
      Lists();
      UsedAreTiles();
      ghost var used0, size0 := used, size;
      var p;
      p, escaped := New(bytes);
      if escaped || p.Null? { return live, escaped; }
      live' := [Live(p.at, bytes)] + live;
      forall i | 0 <= i < |live|
        ensures Serves(live[i]) && live[i].at != p.at
      {
        assert live[i].at - Header() in used0;
      }
    }

    method GiveBack(which: nat, live: seq<Live>) returns (live': seq<Live>)
      requires Valid() && which < |live| && AllServed(live)
      modifies this`next, this`previous, this`free, this`used
      ensures Valid() && AllServed(live') && live' == live[..which] + live[which + 1..] && |used| == |old(used)| - 1
    {
      hide Valid, Rounded, Without;
      Lists();
      ghost var used0, free0 := used, free;
      var p := live[which].at;
      Delete(Address(p));
      ghost var k :| 0 <= k < |used0| && used0[k] == p - Header() && Moved(k, used0, free0, used, free);
      WithoutMembers(used0, k);
      live' := live[..which] + live[which + 1..];
      forall i | 0 <= i < |live'|
        ensures Serves(live'[i])
      {
        assert live'[i] == live[if i < which then i else i + 1];
      }
    }

    lemma PayloadsApart(l: Live, m: Live)
      requires Valid() && Serves(l) && Serves(m) && l.at != m.at
      ensures l.at + Rounded(l.bytes) <= m.at || m.at + Rounded(m.bytes) <= l.at
    {
      hide Valid, Rounded;
      LiveDisjoint(l.at - Header(), m.at - Header());
    }

    /**
     Any run of requests and releases on an arena with nothing in use: whatever is live at the end still has the
     size it was given, nothing else is in use, no two live payloads overlap, and the lists account for the whole
     arena. Only a request in the band where the test for a cut wraps can end the run early.
     */
    method Run(steps: seq<Step>) returns (live: seq<Live>, escaped: bool)
      requires Valid() && used == []
      requires forall s :: s in steps && s.Request? ==> s.bytes < Word()
      modifies this
      ensures escaped ==> exists s :: s in steps && s.Request? && Wraps(s.bytes)
      ensures !escaped ==> Valid() && base == old(base) && total == old(total) && AllServed(live) && |used| == |live|
      ensures !escaped ==> forall i, j :: 0 <= i < j < |live| ==>
        live[i].at + Rounded(live[i].bytes) <= live[j].at || live[j].at + Rounded(live[j].bytes) <= live[i].at
      ensures !escaped ==> Known(size, free) && Known(size, used)
      ensures !escaped ==> Bytes(size, Header(), free) + Bytes(size, Header(), used) == total
    {
      hide Valid, Rounded, Choice, Known, Need, Wraps;
      live, escaped := [], false;
      for i := 0 to |steps|
        invariant !escaped && Valid() && base == old(base) && total == old(total) && AllServed(live) && |used| == |live|
      {
        match steps[i]
        case Request(bytes) =>
          assert steps[i] in steps;
          live, escaped := Obtain(bytes, live);
          if escaped { return; }
        case Release(which) =>
          if which < |live| {
            live := GiveBack(which, live);
          }
      }
      forall i, j | 0 <= i < j < |live|
        ensures live[i].at + Rounded(live[i].bytes) <= live[j].at || live[j].at + Rounded(live[j].bytes) <= live[i].at
      {
        PayloadsApart(live[i], live[j]);
      }
      Conserved();
    }
  }

  /** One request of the band where the test for a cut wraps, on a fresh arena of 4096 bytes: it is served. */
  method RequestEscapes(address: int) returns (escaped: bool)
    requires 0 < address <= 0x7FFF_FFFF_FFFF_F000
    ensures escaped
  {
    var storage := new PreallocatedStorage(8);
    storage.Init(address, 4096);
    storage.TopRequests(0xFFFF_FFFF_FFFF_FFE9);
    var _, e := storage.New(0xFFFF_FFFF_FFFF_FFE9);
    escaped := e;
  }

  lemma OnlyChunk(size: Sizes, c: int, n: nat, need: nat)
    requires c in size
    ensures Known(size, [c]) && (Choice(size, [c], n, need) == 0 <==> size[c] == n || size[c] >= need)
  {
    assert Known(size, [c]);
  }

  /** Requests to a fresh arena, in bytes: headers take 24 of them where pointers have 8, and 12 where they have 4. */
  method FirstRequest(pointerSize: PointerSize, address: int, bytes: nat, request: nat) returns (p: Pointer)
    requires if pointerSize == 8 then bytes >= 24 && request <= 0xFFFF_FFFF_FFFF_FFE0
             else bytes >= 12 && request <= 0xFFFF_FFF0
    requires 0 < address && address + bytes <= if pointerSize == 8 then 0x1_0000_0000_0000_0000 else 0x1_0000_0000
    ensures pointerSize == 8 ==>
      p == if (request + 7) / 8 * 8 == bytes - 24 || (request + 7) / 8 * 8 + 48 <= bytes
           then Address(address + 24) else Null
    ensures pointerSize == 4 ==>
      p == if (request + 3) / 4 * 4 == bytes - 12 || (request + 3) / 4 * 4 + 24 <= bytes
           then Address(address + 12) else Null
  {
    hide Ring, Choice, FirstExact, FirstRoom, PreallocatedStorage.Valid, PreallocatedStorage.Rounded;
    hide PreallocatedStorage.Need, PreallocatedStorage.Wraps, Without, Known;
    var storage := new PreallocatedStorage(pointerSize);
    storage.Init(address, bytes);
    storage.RoundedInNumbers(request);
    storage.NeedOf(request);
    OnlyChunk(storage.size, address, storage.Rounded(request), storage.Need(storage.Rounded(request)));
    var q, _ := storage.New(request);
    p := q;
  }
}
