/** Chunks laid out in one arena, seen as the sequence of their addresses in ascending order. */
module Arena {
  import opened ChunkList

  type Sizes = map<int, nat>

  /** Where the i-th tile starts, or the arena ends. */
  function Edge(tiles: seq<int>, hi: int, i: nat): int
    requires i <= |tiles|
  {
    if i < |tiles| then tiles[i] else hi
  }

  /** A tile is a header and its payload; the next one starts right behind it. */
  ghost predicate Abuts(size: Sizes, hi: int, header: nat, tiles: seq<int>, i: nat)
    requires i < |tiles|
  {
    tiles[i] in size && Edge(tiles, hi, i + 1) == tiles[i] + header + size[tiles[i]]
  }

  ghost predicate Tiled(size: Sizes, lo: int, hi: int, header: nat, tiles: seq<int>) {
    && header > 0 && tiles != [] && tiles[0] == lo
    && forall i :: 0 <= i < |tiles| ==> Abuts(size, hi, header, tiles, i)
  }

  /** Tiles do not overlap. */
  lemma {:induction false} InOrder(size: Sizes, lo: int, hi: int, header: nat, tiles: seq<int>, i: nat, j: nat)
    requires Tiled(size, lo, hi, header, tiles) && i < j <= |tiles|
    ensures tiles[i] in size && tiles[i] + header + size[tiles[i]] <= Edge(tiles, hi, j)
    decreases j - i
  {
    assert Abuts(size, hi, header, tiles, i);
    if i + 1 < j { InOrder(size, lo, hi, header, tiles, i + 1, j); }
  }

  lemma TilesDistinct(size: Sizes, lo: int, hi: int, header: nat, tiles: seq<int>)
    requires Tiled(size, lo, hi, header, tiles)
    ensures Distinct(tiles)
  {
    forall i, j | 0 <= i < j < |tiles|
      ensures tiles[i] != tiles[j]
    {
      InOrder(size, lo, hi, header, tiles, i, j);
    }
  }

  /** The k-th tile is cut: it keeps n bytes, and what is left gets a header of its own. */
  lemma CutKeepsTiling(size: Sizes, lo: int, hi: int, header: nat, tiles: seq<int>, k: nat, n: nat, left: int)
    requires Tiled(size, lo, hi, header, tiles) && k < |tiles|
    requires tiles[k] in size && n + header <= size[tiles[k]] && left == tiles[k] + header + n
    ensures left !in tiles
    ensures Tiled(size[left := size[tiles[k]] - n - header][tiles[k] := n], lo, hi, header,
                  tiles[..k + 1] + [left] + tiles[k + 1..])
  {
    var t := tiles[..k + 1] + [left] + tiles[k + 1..];
    var size' := size[left := size[tiles[k]] - n - header][tiles[k] := n];
    assert Abuts(size, hi, header, tiles, k);
    forall i | 0 <= i < |tiles|
      ensures tiles[i] != left && (i != k ==> tiles[i] != tiles[k])
    {
      if i < k { InOrder(size, lo, hi, header, tiles, i, k); }
      if i > k { InOrder(size, lo, hi, header, tiles, k, i); }
    }
    forall i | 0 <= i < |t|
      ensures Abuts(size', hi, header, t, i)
    {
      if i < k {
        assert Abuts(size, hi, header, tiles, i);
      } else if i > k + 1 {
        assert Abuts(size, hi, header, tiles, i - 1);
      }
    }
  }

  ghost predicate Known(size: Sizes, chunks: seq<int>) {
    forall i :: 0 <= i < |chunks| ==> chunks[i] in size
  }

  lemma KnownTiles(size: Sizes, lo: int, hi: int, header: nat, tiles: seq<int>)
    requires Tiled(size, lo, hi, header, tiles)
    ensures Known(size, tiles)
  {
    forall i | 0 <= i < |tiles|
      ensures tiles[i] in size
    {
      assert Abuts(size, hi, header, tiles, i);
    }
  }

  /** The bytes that chunks take, headers included. */
  ghost function Bytes(size: Sizes, header: nat, chunks: seq<int>): nat
    requires Known(size, chunks)
  {
    if chunks == [] then 0 else header + size[chunks[0]] + Bytes(size, header, chunks[1..])
  }

  lemma {:induction false} BytesOfTiles(size: Sizes, lo: int, hi: int, header: nat, tiles: seq<int>, i: nat)
    requires Tiled(size, lo, hi, header, tiles) && i <= |tiles|
    requires Known(size, tiles[i..])
    ensures Bytes(size, header, tiles[i..]) == hi - Edge(tiles, hi, i)
    decreases |tiles| - i
  {
    if i < |tiles| {
      assert Abuts(size, hi, header, tiles, i);
      assert tiles[i..][1..] == tiles[i + 1..];
      BytesOfTiles(size, lo, hi, header, tiles, i + 1);
    }
  }

  lemma {:induction false} BytesWithout(size: Sizes, header: nat, chunks: seq<int>, k: nat)
    requires k < |chunks| && Known(size, chunks)
    ensures Known(size, Without(chunks, k))
    ensures Bytes(size, header, chunks) == header + size[chunks[k]] + Bytes(size, header, Without(chunks, k))
    decreases k
  {
    if k == 0 {
      assert Without(chunks, 0) == chunks[1..];
    } else {
      BytesWithout(size, header, chunks[1..], k - 1);
      assert Without(chunks, k) == [chunks[0]] + Without(chunks[1..], k - 1);
    }
  }

  lemma {:induction false} BytesOfBoth(size: Sizes, header: nat, a: seq<int>, b: seq<int>)
    requires Known(size, a) && Known(size, b)
    ensures Known(size, a + b)
    ensures Bytes(size, header, a + b) == Bytes(size, header, a) + Bytes(size, header, b)
  {
    if a == [] {
      assert a + b == b;
    } else {
      BytesOfBoth(size, header, a[1..], b);
      assert (a + b)[1..] == a[1..] + b;
    }
  }

  /** The order of chunks does not matter. */
  lemma {:induction false} BytesOfSame(size: Sizes, header: nat, a: seq<int>, b: seq<int>)
    requires Distinct(a) && Distinct(b) && (forall x :: x in a <==> x in b)
    requires Known(size, a) && Known(size, b)
    ensures Bytes(size, header, a) == Bytes(size, header, b)
    decreases a
  {
    if b != [] {
      assert b[0] in b;
    }
    if a != [] {
      assert a[0] in a;
      var k :| 0 <= k < |b| && b[k] == a[0];
      BytesWithout(size, header, b, k);
      WithoutMembers(b, k);
      WithoutMembers(a, 0);
      assert Without(a, 0) == a[1..];
      BytesOfSame(size, header, a[1..], Without(b, k));
    }
  }
}
