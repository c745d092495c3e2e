/** GIF image data: the pixel order of an image and what it means for bytes to encode pixels. */
module GifImage {
  import opened Arithmetic
  import opened Bits
  import opened GifInterlace
  import opened LzwReference
  import opened SubBlocks

  ghost predicate IsImage(width: nat, height: nat, data: seq<nat>) {
    |data| == width * height
  }

  /** The pixels of the listed rows, row by row. */
  function Gather(data: seq<nat>, width: nat, rows: seq<nat>): seq<nat>
    requires forall i :: 0 <= i < |rows| ==> rows[i] * width + width <= |data|
  {
    if rows == [] then []
    else data[rows[0] * width..rows[0] * width + width] + Gather(data, width, rows[1..])
  }

  lemma RowFits(row: nat, width: nat, height: nat)
    requires row < height
    ensures row * width + width <= width * height
  {
    Apart(width, height, row);
  }

  lemma RowsFit(rows: seq<nat>, width: nat, height: nat)
    requires forall i :: 0 <= i < |rows| ==> rows[i] < height
    ensures forall i :: 0 <= i < |rows| ==> rows[i] * width + width <= width * height
  {
    forall i | 0 <= i < |rows| ensures rows[i] * width + width <= width * height {
      RowFits(rows[i], width, height);
    }
  }

  lemma {:induction false} WalkStaysInside(pass: nat, row: nat, height: nat)
    requires pass <= 3
    ensures forall i :: 0 <= i < |RowsFrom(pass, row, height)| ==> RowsFrom(pass, row, height)[i] < height
    decreases 3 - pass, height - row
  {
    if row < height {
      WalkStaysInside(pass, row + StepOf(pass), height);
    } else if pass < 3 {
      WalkStaysInside(pass + 1, StartOf(pass + 1), height);
    }
  }

  /** The rest of an interlaced image, after the row `row` of pass `pass`. */
  function GatherAfter(data: seq<nat>, width: nat, height: nat, pass: nat, row: nat): seq<nat>
    requires IsImage(width, height, data) && pass <= 3
  {
    WalkStaysInside(pass, row + StepOf(pass), height);
    RowsFit(RowsAfter(pass, row, height), width, height);
    Gather(data, width, RowsAfter(pass, row, height))
  }

  lemma GatherNextRow(data: seq<nat>, width: nat, height: nat, pass0: nat, row0: nat, pass: nat, row: nat)
    requires IsImage(width, height, data) && pass0 <= 3 && pass <= 3 && row < height
    requires RowsAfter(pass0, row0, height) == [row] + RowsAfter(pass, row, height)
    ensures row * width + width <= |data|
    ensures GatherAfter(data, width, height, pass0, row0)
            == data[row * width..row * width + width] + GatherAfter(data, width, height, pass, row)
  {
    RowFits(row, width, height);
    assert RowsAfter(pass0, row0, height)[1..] == RowsAfter(pass, row, height);
  }

  lemma GatherNothing(data: seq<nat>, width: nat, height: nat, pass: nat, row: nat)
    requires IsImage(width, height, data) && pass <= 3 && RowsAfter(pass, row, height) == []
    ensures GatherAfter(data, width, height, pass, row) == []
  {
  }

  /** The order in which an image's pixels are compressed. */
  function PixelOrder(interlaced: bool, width: nat, height: nat, data: seq<nat>): seq<nat>
    requires IsImage(width, height, data)
  {
    if !interlaced then data
    else
      AppendixEIsPermutation(height);
      RowsFit(AppendixE(height), width, height);
      Gather(data, width, AppendixE(height))
  }

  lemma StartsAtRowZero(data: seq<nat>, width: nat, height: nat)
    requires IsImage(width, height, data) && width >= 1 && height >= 1
    ensures width <= |data|
    ensures PixelOrder(true, width, height, data) == data[..width] + GatherAfter(data, width, height, 0, 0)
  {
    WalkIsAppendixE(height);
    RowFits(0, width, height);
    assert AppendixE(height) == [0] + RowsAfter(0, 0, height);
    assert AppendixE(height)[1..] == RowsAfter(0, 0, height);
  }

  /** A gathered run of rows starts with its first row. */
  lemma GatherFirst(data: seq<nat>, width: nat, height: nat, rows: seq<nat>)
    requires IsImage(width, height, data) && rows != [] && forall i :: 0 <= i < |rows| ==> rows[i] < height
    ensures rows[0] * width + width <= |data|
    ensures forall i :: 0 <= i < |rows| ==> rows[i] * width + width <= |data|
    ensures Gather(data, width, rows) == data[rows[0] * width..rows[0] * width + width] + Gather(data, width, rows[1..])
  {
    RowsFit(rows, width, height);
  }

  ghost predicate SameRow(a: seq<nat>, b: seq<nat>, width: nat, row: nat)
    requires |a| == |b| && row * width + width <= |a|
  {
    a[row * width..row * width + width] == b[row * width..row * width + width]
  }

  lemma MoreRows(r: nat, height: nat, width: nat)
    ensures r >= height ==> r * width >= width * height
  {
    if r >= height {
      Ordered(height, r, width);
    }
  }

  lemma RowOf(k: nat, r: nat, width: nat, height: nat)
    requires r * width <= k < width * height
    ensures r < height
  {
    MoreRows(r, height, width);
  }

  /** Two images that agree on every row are equal. */
  lemma RowsDetermineImage(a: seq<nat>, b: seq<nat>, width: nat, height: nat, rows: seq<nat>)
    requires IsImage(width, height, a) && IsImage(width, height, b) && width >= 1
    requires IsPermutationOfRows(rows, height)
    requires forall r :: r in rows ==> r * width + width <= |a| && SameRow(a, b, width, r)
    ensures a == b
  {
    forall k | 0 <= k < |a| ensures a[k] == b[k] {
      var r := k / width;
      assert k == r * width + k % width;
      RowOf(k, r, width, height);
      assert r in rows && SameRow(a, b, width, r);
      assert a[r * width..r * width + width][k - r * width] == b[r * width..r * width + width][k - r * width];
    }
  }

  lemma PixelBound(minBits: nat)
    requires minBits <= 8
    ensures Pow2(minBits) <= 256
  {
    Pow2Monotone(minBits, 8);
    assert Pow2(8) == 256;
  }

  /** Codes that stand for the pixels, ready to be followed by End. */
  ghost predicate CodesFor(minBits: nat, codes: seq<nat>, pixels: seq<nat>) {
    && Accepted(Fresh(minBits), codes)
    && Run(Fresh(minBits), codes).previous != []
    && Decode(Fresh(minBits), codes) == pixels
  }

  /** Blocks that carry the codes, End, and less than a byte of padding. */
  ghost predicate Carry(blocks: seq<Bytes>, minBits: nat, codes: seq<nat>) {
    var last := Run(Fresh(minBits), codes);
    var bits := Pack(Fresh(minBits), codes) + ToBits(last.End(), last.width);
    && WellCut(blocks)
    && |bits| <= 8 * |Payload(blocks)| < |bits| + 8
    && bits <= BitsOf(Payload(blocks))
  }

  /** All of the padding is zero bits. */
  ghost predicate ZeroPadded(blocks: seq<Bytes>, minBits: nat, codes: seq<nat>) {
    var last := Run(Fresh(minBits), codes);
    var bits := Pack(Fresh(minBits), codes) + ToBits(last.End(), last.width);
    |bits| <= 8 * |Payload(blocks)| && BitsOf(Payload(blocks)) == bits + ToBits(0, 8 * |Payload(blocks)| - |bits|)
  }

  /** The file holds, from `pos` on, the code size, the sub-blocks and the terminator of an encoded image. */
  ghost predicate Encodes(file: Bytes, pos: nat, interlaced: bool, width: nat, height: nat, image: seq<nat>,
                          blocks: seq<Bytes>, codes: seq<nat>, tail: Bytes)
  {
    && IsImage(width, height, image) && AreBytes(image) && width >= 1 && height >= 1
    && pos < |file| && 2 <= file[pos] <= 8 && file[pos + 1..] == Serialize(blocks) + [0] + tail
    && CodesFor(file[pos], codes, PixelOrder(interlaced, width, height, image))
    && Carry(blocks, file[pos], codes)
  }
}
