/** `readImage` of gif.mod/gif/readGIF.c, and the round trip with `putImage`. */
module GifReader {
  import opened Arithmetic
  import opened Bits
  import opened GifBitReader
  import opened GifImage
  import opened GifInterlace
  import opened GifLzwReader
  import GifWriter
  import GifGreedy
  import LzwEncoder
  import opened LzwReference
  import opened SubBlocks

  lemma TakeOne(v: nat, later: seq<nat>, row: seq<nat>, rest: seq<nat>, k: nat)
    requires k < |row| && [v] + later == row[k..] + rest
    ensures v == row[k] && later == row[k + 1..] + rest
  {
    assert ([v] + later)[0] == v && ([v] + later)[1..] == later;
    assert (row[k..] + rest)[0] == row[k] && (row[k..] + rest)[1..] == row[k + 1..] + rest;
  }

  /** One row of `readImage`: `width` calls of `readLWZ`. */
  method ReadRow(reader: LzwReader, data: array<nat>, start: nat, width: nat, ghost row: seq<nat>, ghost rest: seq<nat>)
    requires reader.Valid() && reader.Output() == row + rest && |row| == width && start + width <= data.Length
    requires forall i :: 0 <= i < |row| ==> row[i] < 256
    requires data != reader.prefix && data != reader.suffix && data != reader.stack && data != reader.bits.buf
    modifies reader, reader.prefix, reader.suffix, reader.stack, reader.bits, reader.bits.buf, data
    ensures reader.Valid() && reader.Output() == rest
    ensures data[start..start + width] == row
    ensures data[..start] == old(data[..start]) && data[start + width..] == old(data[start + width..])
    ensures reader.bits.tail == old(reader.bits.tail)
  {
    hide LzwReader.Valid, LzwReader.Output;
    var xpos := 0;
    while xpos < width
      invariant xpos <= width && reader.Valid() && reader.Output() == row[xpos..] + rest
      invariant data[start..start + xpos] == row[..xpos]
      invariant data[..start] == old(data[..start]) && data[start + width..] == old(data[start + width..])
      invariant reader.bits.tail == old(reader.bits.tail)
    {
      var v := reader.Read();
      TakeOne(v, reader.Output(), row, rest, xpos);
      data[start + xpos] := v % 256;
      xpos := xpos + 1;
    }
  }

  ghost predicate RowStart(start: nat, row: nat, width: nat) {
    start == row * width
  }

  lemma RowStarts(row: nat, width: nat, height: nat, image: seq<nat>)
    requires IsImage(width, height, image)
    ensures RowStart(0, 0, width)
    ensures RowStart(row * width, row, width) && RowStart(row * width + width, row + 1, width)
    ensures forall s :: RowStart(s, row, width) ==> s == row * width
    ensures row < height ==> row * width + width <= |image|
    ensures row == height ==> row * width == |image|
  {
    if row < height { RowFits(row, width, height); }
  }

  lemma SplitRow(image: seq<nat>, start: nat, width: nat)
    requires start + width <= |image|
    ensures image[start..] == image[start..start + width] + image[start + width..]
    ensures image[..start + width] == image[..start] + image[start..start + width]
  {
  }

  /** The non-interlaced loop. */
  method ReadSequential(reader: LzwReader, data: array<nat>, width: nat, height: nat, ghost image: seq<nat>)
    requires IsImage(width, height, image) && data.Length == |image| && AreBytes(image)
    requires reader.Valid() && reader.Output() == image
    requires data != reader.prefix && data != reader.suffix && data != reader.stack && data != reader.bits.buf
    modifies reader, reader.prefix, reader.suffix, reader.stack, reader.bits, reader.bits.buf, data
    ensures reader.Valid() && reader.Output() == [] && data[..] == image
    ensures reader.bits.tail == old(reader.bits.tail)
  {
    hide LzwReader.Valid, LzwReader.Output, IsImage, RowStart;
    var ypos: nat := 0;
    ghost var start: nat := 0;
    RowStarts(0, width, height, image);
    while ypos < height
      invariant ypos <= height && RowStart(start, ypos, width) && start <= |image|
      invariant reader.Valid() && reader.Output() == image[start..]
      invariant data[..start] == image[..start]
      invariant reader.bits.tail == old(reader.bits.tail)
    {
      RowStarts(ypos, width, height, image);
      SplitRow(image, start, width);
      ReadRow(reader, data, ypos * width, width, image[start..start + width], image[start + width..]);
      assert data[..start + width] == data[..start] + data[start..start + width];
      ypos, start := ypos + 1, start + width;
    }
    RowStarts(height, width, height, image);
    assert data[..] == data[..start];
  }

  /** The rows read so far match the image's. */
  ghost predicate RowsRead(data: seq<nat>, image: seq<nat>, width: nat, height: nat, rows: seq<nat>) {
    && IsImage(width, height, image) && |data| == |image|
    && forall i :: 0 <= i < |rows| ==> rows[i] * width + width <= |image| && SameRow(data, image, width, rows[i])
  }

  lemma Below(a: seq<nat>, b: seq<nat>, from: nat, n: nat, limit: nat)
    requires from + n <= limit <= |a| == |b| && a[..limit] == b[..limit]
    ensures a[from..from + n] == b[from..from + n]
  {
    forall k | from <= k < from + n ensures a[k] == b[k] {
      assert a[..limit][k] == b[..limit][k];
    }
  }

  lemma Above(a: seq<nat>, b: seq<nat>, from: nat, n: nat, limit: nat)
    requires limit <= from && from + n <= |a| == |b| && a[limit..] == b[limit..]
    ensures a[from..from + n] == b[from..from + n]
  {
    forall k | from <= k < from + n ensures a[k] == b[k] {
      assert a[limit..][k - limit] == b[limit..][k - limit];
    }
  }

  /** Reading one row leaves every other row as it was. */
  lemma OtherRow(before: seq<nat>, after: seq<nat>, width: nat, row: nat, r: nat)
    requires |after| == |before| && r != row
    requires row * width + width <= |before| && r * width + width <= |before|
    requires after[..row * width] == before[..row * width]
    requires after[row * width + width..] == before[row * width + width..]
    ensures after[r * width..r * width + width] == before[r * width..r * width + width]
  {
    if r < row {
      Apart(width, row, r);
      Below(after, before, r * width, width, row * width);
    } else {
      Apart(width, r, row);
      Above(after, before, r * width, width, row * width + width);
    }
  }

  /** Reading one more row keeps the rows read before it, since no row comes twice. */
  lemma OneMoreRow(before: seq<nat>, after: seq<nat>, image: seq<nat>, width: nat, height: nat,
                   rows: seq<nat>, row: nat)
    requires RowsRead(before, image, width, height, rows) && |after| == |before|
    requires row !in rows && row * width + width <= |image|
    requires after[row * width..row * width + width] == image[row * width..row * width + width]
    requires after[..row * width] == before[..row * width]
    requires after[row * width + width..] == before[row * width + width..]
    ensures RowsRead(after, image, width, height, rows + [row])
  {
    hide IsImage;
    forall i | 0 <= i < |rows| ensures SameRow(after, image, width, rows[i]) {
      assert rows[i] in rows;
      assert SameRow(before, image, width, rows[i]);
      OtherRow(before, after, width, row, rows[i]);
    }
  }

  /** The pixels of the rows from the i-th on. */
  function LaterRows(image: seq<nat>, width: nat, height: nat, i: nat): seq<nat>
    requires IsImage(width, height, image) && i <= height
  {
    AppendixEIsPermutation(height);
    AppendixELength(height);
    RowsFit(AppendixE(height)[i..], width, height);
    Gather(image, width, AppendixE(height)[i..])
  }

  /** What is known at the i-th turn of the interlaced loop. */
  lemma AtRow(image: seq<nat>, width: nat, height: nat, rows: seq<nat>, ypos: nat, pass: nat, i: nat)
    requires IsImage(width, height, image) && |rows| == i < height && pass <= 3 && ypos < height
    requires rows + [ypos] + RowsAfter(pass, ypos, height) == AppendixE(height)
    ensures ypos !in rows && ypos * width + width <= |image|
    ensures LaterRows(image, width, height, i)
            == image[ypos * width..ypos * width + width] + LaterRows(image, width, height, i + 1)
    ensures i + 1 == height ==> rows + [ypos] == AppendixE(height)
    ensures i + 1 < height ==> RowsAfter(pass, ypos, height) != []
  {
    hide Gather, RowsFrom, IsImage, Rows;
    var all := AppendixE(height);
    AppendixELength(height);
    AppendixEIsPermutation(height);
    assert all[i] == ypos;
    forall k | 0 <= k < i ensures rows[k] != ypos {
      assert all[k] == rows[k];
    }
    GatherFirst(image, width, height, all[i..]);
    assert all[i..][1..] == all[i + 1..];
  }

  /** The row `ypos`, as the i-th row of the interlaced order. */
  method ReadRowAt(reader: LzwReader, data: array<nat>, width: nat, height: nat, ghost image: seq<nat>,
                   ghost rows: seq<nat>, ypos: nat, ghost pass: nat, ghost i: nat)
    requires IsImage(width, height, image) && data.Length == |image| && AreBytes(image)
    requires |rows| == i < height && pass <= 3 && ypos < height
    requires rows + [ypos] + RowsAfter(pass, ypos, height) == AppendixE(height)
    requires reader.Valid() && reader.Output() == LaterRows(image, width, height, i)
    requires RowsRead(data[..], image, width, height, rows)
    requires data != reader.prefix && data != reader.suffix && data != reader.stack && data != reader.bits.buf
    modifies reader, reader.prefix, reader.suffix, reader.stack, reader.bits, reader.bits.buf, data
    ensures reader.Valid() && reader.Output() == LaterRows(image, width, height, i + 1)
    ensures RowsRead(data[..], image, width, height, rows + [ypos])
    ensures i + 1 == height ==> rows + [ypos] == AppendixE(height)
    ensures i + 1 < height ==> RowsAfter(pass, ypos, height) != []
    ensures reader.bits.tail == old(reader.bits.tail)
  {
    hide LzwReader.Valid, LzwReader.Output, IsImage, RowsRead, RowsFrom, AppendixE, LaterRows;
    AtRow(image, width, height, rows, ypos, pass, i);
    ghost var before := data[..];
    ReadRow(reader, data, ypos * width, width, image[ypos * width..ypos * width + width],
            LaterRows(image, width, height, i + 1));
    OneMoreRow(before, data[..], image, width, height, rows, ypos);
  }

  lemma WalkBegins(data: seq<nat>, image: seq<nat>, width: nat, height: nat)
    requires IsImage(width, height, image) && height >= 1 && |data| == |image|
    ensures PixelOrder(true, width, height, image) == LaterRows(image, width, height, 0)
    ensures [] + [0] + RowsAfter(0, 0, height) == AppendixE(height)
    ensures RowsRead(data, image, width, height, [])
  {
    WalkIsAppendixE(height);
    assert AppendixE(height)[0..] == AppendixE(height);
  }

  lemma RowsAssociate(rows: seq<nat>, ypos: nat, later: seq<nat>, after: seq<nat>)
    requires after == [ypos] + later
    ensures rows + after == rows + [ypos] + later
  {
  }

  lemma AllRowsRead(data: seq<nat>, image: seq<nat>, width: nat, height: nat)
    requires RowsRead(data, image, width, height, AppendixE(height)) && width >= 1
    ensures data == image
    ensures LaterRows(image, width, height, height) == []
  {
    hide Rows;
    AppendixEIsPermutation(height);
    AppendixELength(height);
    forall r | r in AppendixE(height) ensures r * width + width <= |data| && SameRow(data, image, width, r) {
    }
    RowsDetermineImage(data, image, width, height, AppendixE(height));
    assert AppendixE(height)[height..] == [];
  }

  /**
   The interlaced loop. It visits the rows in the order of Appendix E, except that for images of height
   2 and 4 its second row lies below the image; the source would write there, so the method stops.
   */
  method ReadInterlaced(reader: LzwReader, data: array<nat>, width: nat, height: nat, ghost image: seq<nat>)
    returns (overran: bool)
    requires IsImage(width, height, image) && data.Length == |image| && AreBytes(image) && width >= 1 && height >= 1
    requires reader.Valid() && reader.Output() == PixelOrder(true, width, height, image)
    requires data != reader.prefix && data != reader.suffix && data != reader.stack && data != reader.bits.buf
    modifies reader, reader.prefix, reader.suffix, reader.stack, reader.bits, reader.bits.buf, data
    ensures overran == ReaderOvershoots(height)
    ensures !overran ==> reader.Valid() && reader.Output() == [] && data[..] == image
    ensures reader.bits.tail == old(reader.bits.tail)
  {
    hide LzwReader.Valid, LzwReader.Output, IsImage, RowsRead, RowsFrom, PixelOrder, AppendixE, LaterRows;
    var ypos: nat, pass: nat, step: nat := 0, 0, 8;
    ghost var rows: seq<nat> := [];
    overran := false;
    WalkBegins(data[..], image, width, height);
    AppendixELength(height);
    var i := 0;
    while i < height
      invariant i <= height && |rows| == i && reader.bits.tail == old(reader.bits.tail)
      invariant i < height ==> pass <= 3 && step == StepOf(pass) && StartOf(pass) <= ypos < height
      invariant i < height ==> rows + [ypos] + RowsAfter(pass, ypos, height) == AppendixE(height)
      invariant i == height ==> rows == AppendixE(height)
      invariant (i == 0 && pass == 0) || !ReaderOvershoots(height)
      invariant reader.Valid() && reader.Output() == LaterRows(image, width, height, i)
      invariant RowsRead(data[..], image, width, height, rows)
    {
      ReadRowAt(reader, data, width, height, image, rows, ypos, pass, i);
      ghost var after := RowsAfter(pass, ypos, height);
      rows := rows + [ypos];
      pass, ypos, step := NextReaderRow(pass, ypos, step, height);
      i := i + 1;
      if i < height && ypos >= height {
        return true;
      }
      if i < height { RowsAssociate(rows, ypos, RowsAfter(pass, ypos, height), after); }
    }
    AllRowsRead(data[..], image, width, height);
  }

  lemma BitsHoldCodes(blocks: seq<Bytes>, minBits: nat, codes: seq<nat>)
    requires Carry(blocks, minBits, codes)
    ensures WellCut(blocks) && HoldsCodes(BitsOf(Payload(blocks)), Fresh(minBits), codes)
  {
  }

  /**
   `readImage` on a file position that holds an encoded image: the image's pixels come back and reading
   stops just past the terminator, unless the image is interlaced and its height is 2 or 4.
   */
  method ReadImage(file: Bytes, pos: nat, interlaced: bool, width: nat, height: nat, data: array<nat>,
                   ghost image: seq<nat>, ghost blocks: seq<Bytes>, ghost codes: seq<nat>, ghost tail: Bytes)
    returns (overran: bool, end: nat)
    requires Encodes(file, pos, interlaced, width, height, image, blocks, codes, tail)
    requires data.Length == |image|
    modifies data
    ensures overran == (interlaced && ReaderOvershoots(height))
    ensures !overran ==> data[..] == image && end <= |file| && file[end..] == tail
  {
    hide LzwReader.Valid, LzwReader.Output, BitReader.Valid, IsImage, Serialize, Gather, AppendixE;
    hide Accepted, Run, Decode, Pack, HoldsCodes, Fresh;
    var codeSize := file[pos];
    BitsHoldCodes(blocks, codeSize, codes);
    var bits := new BitReader(file, pos + 1, blocks, tail);
    var reader := new LzwReader(bits, codeSize, codes);
    overran, end := false, 0;
    if interlaced {
      overran := ReadInterlaced(reader, data, width, height, image);
    } else {
      ReadSequential(reader, data, width, height, image);
    }
    if !overran {
      var v := reader.Read();
      end := bits.pos;
    }
  }

  /** The code size, and what follows it. */
  lemma ImageData(file: Bytes, size: nat, rest: Bytes)
    ensures (file + [size] + rest)[|file|] == size && (file + [size] + rest)[|file| + 1..] == rest
  {
  }

  /**
   The GIF image-data law: what `putImage` writes, `readImage` reads back, for every image whose pixels
   fit the code size, interlaced or not, except interlaced images of height 2 and 4.
   */
  method RoundTrip(file0: Bytes, tail: Bytes, interlaced: bool, bpp: int, width: nat, height: nat, image: seq<nat>)
    returns (overran: bool, data: seq<nat>, end: nat, file: Bytes)
    requires IsImage(width, height, image) && width >= 1 && height >= 1 && bpp <= 8
    requires forall i :: 0 <= i < |image| ==> image[i] < Pow2(GifWriter.MinBits(bpp))
    ensures overran <==> interlaced && (height == 2 || height == 4)
    ensures !overran ==> data == image && end <= |file| && file[end..] == tail
    ensures file0 <= file
  {
    hide IsImage, Serialize, PixelOrder, CodesFor, Carry, LzwEncoder.Compress, GifGreedy.Forgets;
    PixelBound(GifWriter.MinBits(bpp));
    ghost var blocks, codes;
    file, blocks, codes := GifWriter.PutImage(file0, interlaced, bpp, width, height, image);
    file := file + tail;
    ImageData(file0, GifWriter.MinBits(bpp), Serialize(blocks) + [0] + tail);
    assert file == file0 + [GifWriter.MinBits(bpp)] + (Serialize(blocks) + [0] + tail);
    var buffer := new nat[|image|];
    overran, end := ReadImage(file, |file0|, interlaced, width, height, buffer, image, blocks, codes, tail);
    data := buffer[..];
  }
}
