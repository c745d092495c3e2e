/** The sliding bit buffer of gif.mod/gif/readGIF.c: `GetDataBlock` and `nextCode`. */
module GifBitReader {
  import opened Bits
  import opened SubBlocks

  const BUFFER: nat := 280

  lemma FirstBlock(blocks: seq<Bytes>, tail: Bytes, file: Bytes, pos: nat)
    requires pos <= |file| && file[pos..] == Serialize(blocks) + [0] + tail
    ensures pos < |file|
    ensures blocks == [] ==> file[pos] == 0 && file[pos + 1..] == tail
    ensures blocks != [] ==>
      && file[pos] == |blocks[0]| && pos + 1 + |blocks[0]| <= |file|
      && file[pos + 1..pos + 1 + |blocks[0]|] == blocks[0]
      && file[pos + 1 + |blocks[0]|..] == Serialize(blocks[1..]) + [0] + tail
  {
    var rest := file[pos..];
    assert file[pos] == rest[0];
    if blocks == [] {
      assert rest[1..] == tail;
    } else {
      var n := |blocks[0]|;
      assert rest == [n] + blocks[0] + (Serialize(blocks[1..]) + [0] + tail);
      assert file[pos + 1..pos + 1 + n] == rest[1..1 + n];
      assert file[pos + 1 + n..] == rest[1 + n..];
    }
  }

  /** One more block always completes the code: only the last block may be a single byte. */
  lemma EnoughBits(blocks: seq<Bytes>, left: nat, width: nat)
    requires WellCut(blocks) && width <= 12 && width <= left + 8 * |Payload(blocks)|
    ensures blocks != [] ==> width <= left + 8 * |blocks[0]|
    ensures blocks == [] ==> width <= left
  {
    if |blocks| == 1 {
      assert Payload(blocks) == blocks[0] + Payload([]);
    }
  }

  lemma DropThenAppend(a: seq<bool>, b: seq<bool>, c: seq<bool>, k: nat)
    requires k <= |a|
    ensures (a + b)[k..] + c == a[k..] + (b + c)
  {
  }

  lemma DropDrop(s: seq<bool>, k: nat, m: nat)
    requires k + m <= |s|
    ensures s[k + m..] == s[k..][m..]
  {
  }

  /** The unread bits are all in the last two bytes, which is why two bytes of carry are enough. */
  lemma CarryHolds(buffered: Bytes, left: nat)
    requires 2 <= |buffered| && left <= 16
    ensures BitsOf(buffered)[8 * |buffered| - left..] == BitsOf(buffered[|buffered| - 2..])[16 - left..]
  {
    hide BitsOf;
    var k := 8 * (|buffered| - 2);
    BitsOfSplit(buffered, |buffered| - 2);
    DropDrop(BitsOf(buffered), k, 16 - left);
  }

  /**
   Two carried bytes and the next block hold the same bits as the whole buffer and the next block, and enough of them.
   */
  lemma RefillKeepsBits(buffered: Bytes, blocks: seq<Bytes>, left: nat, width: nat)
    requires WellCut(blocks) && 2 <= |buffered| && left <= width <= 12 && left <= 8 * |buffered|
    requires width <= left + 8 * |Payload(blocks)|
    ensures var carry := buffered[|buffered| - 2..];
            var data := if blocks == [] then [] else blocks[0];
            var later := if blocks == [] then [] else blocks[1..];
            && width <= left + 8 * |data|
            && BitsOf(buffered)[8 * |buffered| - left..] + BitsOf(Payload(blocks))
               == BitsOf(carry + data)[16 - left..] + BitsOf(Payload(later))
  {
    hide BitsOf;
    var carry := buffered[|buffered| - 2..];
    var data := if blocks == [] then [] else blocks[0];
    var later := if blocks == [] then [] else blocks[1..];
    CarryHolds(buffered, left);
    EnoughBits(blocks, left, width);
    BitsOfConcat(carry, data);
    assert Payload(blocks) == data + Payload(later);
    BitsOfConcat(data, Payload(later));
    DropThenAppend(BitsOf(carry), BitsOf(data), BitsOf(Payload(later)), 16 - left);
  }

  lemma FirstIsBytes(blocks: seq<Bytes>)
    requires WellCut(blocks)
    ensures blocks != [] ==> AreBytes(blocks[0]) && 1 <= |blocks[0]| <= 255
  {
  }

  lemma LittleEndianOne(x: nat)
    ensures LittleEndian([x]) == x
  {
  }

  lemma FieldOne(bytes: Bytes, i: nat, off: nat, width: nat)
    requires AreBytes(bytes) && i + 1 <= |bytes| && off + width <= 8
    ensures ToBits(Low(Shr(bytes[i], off), width), width) == BitsOf(bytes)[8 * i + off..8 * i + off + width]
  {
    hide BitsOf, ToBits, Low, Shr;
    assert bytes[i..i + 1] == [bytes[i]];
    LittleEndianOne(bytes[i]);
    FieldOfBytes(bytes, i, 1, off, width);
  }

  lemma LittleEndianTwo(x: nat, y: nat)
    ensures LittleEndian([x, y]) == x + 256 * y
  {
    LittleEndianOne(y);
    assert [x, y][1..] == [y];
  }

  lemma FieldTwo(bytes: Bytes, i: nat, off: nat, width: nat)
    requires AreBytes(bytes) && i + 2 <= |bytes| && off + width <= 16
    ensures ToBits(Low(Shr(bytes[i] + 256 * bytes[i + 1], off), width), width)
            == BitsOf(bytes)[8 * i + off..8 * i + off + width]
  {
    hide BitsOf, ToBits, Low, Shr;
    assert bytes[i..i + 2] == [bytes[i], bytes[i + 1]];
    LittleEndianTwo(bytes[i], bytes[i + 1]);
    FieldOfBytes(bytes, i, 2, off, width);
  }

  lemma LittleEndianThree(x: nat, y: nat, z: nat)
    ensures LittleEndian([x, y, z]) == x + 256 * y + 65536 * z
  {
    assert [x, y, z][1..] == [y, z];
    LittleEndianTwo(y, z);
  }

  lemma FieldThree(bytes: Bytes, i: nat, off: nat, width: nat)
    requires AreBytes(bytes) && i + 3 <= |bytes| && off + width <= 24
    ensures ToBits(Low(Shr(bytes[i] + 256 * bytes[i + 1] + 65536 * bytes[i + 2], off), width), width)
            == BitsOf(bytes)[8 * i + off..8 * i + off + width]
  {
    hide BitsOf, ToBits, Low, Shr;
    assert bytes[i..i + 3] == [bytes[i], bytes[i + 1], bytes[i + 2]];
    LittleEndianThree(bytes[i], bytes[i + 1], bytes[i + 2]);
    FieldOfBytes(bytes, i, 3, off, width);
  }

  lemma FieldInPrefix(all: seq<bool>, prefix: seq<bool>, rest: seq<bool>, from: nat, width: nat)
    requires prefix <= all && from + width <= |prefix|
    ensures (prefix[from..] + rest)[..width] == all[from..from + width]
    ensures (prefix[from..] + rest)[width..] == prefix[from + width..] + rest
  {
  }

  lemma NothingLeft(blocks: seq<Bytes>)
    requires WellCut(blocks) && |Payload(blocks)| == 0
    ensures blocks == []
  {
  }

  class BitReader {
    const file: Bytes
    const buf: array<nat>
    var pos: nat
    var curbit: nat
    var lastbit: nat
    var lastByte: nat
    var getDone: bool
    var zeroDataBlock: bool
    // The blocks not read yet, and what follows the terminator.
    ghost var blocks: seq<Bytes>
    ghost var tail: Bytes

    ghost predicate Valid()
      reads this, buf
    {
      && buf.Length == BUFFER && (forall i :: 0 <= i < BUFFER ==> buf[i] < 256)
      && 2 <= lastByte <= 257 && curbit <= lastbit
      && (lastbit == 8 * lastByte || lastbit == 0)
      && WellCut(blocks) && pos <= |file|
      && (if getDone then blocks == [] && curbit == lastbit && zeroDataBlock && file[pos..] == tail
          else !zeroDataBlock && file[pos..] == Serialize(blocks) + [0] + tail)
    }

    /** The bits not consumed yet: the end of the buffer, then the blocks to come. */
    ghost function Remaining(): seq<bool>
      requires curbit <= lastbit <= 8 * lastByte <= 8 * buf.Length
      reads this, buf
    {
      BitsOf(buf[..lastByte])[8 * lastByte - (lastbit - curbit)..] + BitsOf(Payload(blocks))
    }

    /** `initLWZ`'s share of the state; the buffer's contents are whatever the previous image left. */
    constructor (file: Bytes, pos: nat, ghost blocks: seq<Bytes>, ghost tail: Bytes)
      requires pos <= |file| && file[pos..] == Serialize(blocks) + [0] + tail && WellCut(blocks)
      ensures Valid() && fresh(buf) && this.file == file && this.tail == tail && this.blocks == blocks
      ensures Remaining() == BitsOf(Payload(blocks))
    {
      this.file, this.pos := file, pos;
      buf := new nat[BUFFER](_ => 0);
      curbit, lastbit, lastByte, getDone, zeroDataBlock := 0, 0, 2, false, false;
      this.blocks, this.tail := blocks, tail;
    }

    /** `GetDataBlock`: an empty result is the terminator. */
    method GetDataBlock() returns (data: Bytes)
      requires pos <= |file| && file[pos..] == Serialize(blocks) + [0] + tail
      requires WellCut(blocks)
      modifies this`pos, this`zeroDataBlock, this`blocks
      ensures pos <= |file| && WellCut(blocks)
      ensures zeroDataBlock == (data == [])
      ensures old(blocks) == [] ==> data == [] && blocks == [] && file[pos..] == tail
      ensures old(blocks) != [] ==>
        data == old(blocks)[0] && blocks == old(blocks)[1..] && file[pos..] == Serialize(blocks) + [0] + tail
    {
      FirstBlock(blocks, tail, file, pos);
      var count := file[pos];
      pos := pos + 1;
      zeroDataBlock := count == 0;
      data := file[pos..pos + count];
      pos := pos + count;
      if blocks != [] { blocks := blocks[1..]; }
    }

    /** A full code lies in the buffer. */
    ghost predicate Ready(width: nat)
      reads this, buf
    {
      && buf.Length == BUFFER && (forall i :: 0 <= i < BUFFER ==> buf[i] < 256)
      && 2 <= lastByte <= 257 && lastbit == 8 * lastByte && curbit + width <= lastbit
      && WellCut(blocks) && pos <= |file|
      && (if getDone then blocks == [] && curbit + width == lastbit && zeroDataBlock && file[pos..] == tail
          else !zeroDataBlock && file[pos..] == Serialize(blocks) + [0] + tail)
    }

    method Carry()
      requires buf.Length == BUFFER && 2 <= lastByte <= 257 && (forall i :: 0 <= i < BUFFER ==> buf[i] < 256)
      modifies buf
      ensures forall i :: 0 <= i < BUFFER ==> buf[i] < 256
      ensures buf[..2] == old(buf[..lastByte])[lastByte - 2..]
    {
      buf[0], buf[1] := buf[lastByte - 2], buf[lastByte - 1];
    }

    method Store(data: Bytes)
      requires buf.Length == BUFFER && |data| <= 255 && AreBytes(data)
      requires forall i :: 0 <= i < BUFFER ==> buf[i] < 256
      modifies buf
      ensures forall i :: 0 <= i < BUFFER ==> buf[i] < 256
      ensures buf[2..2 + |data|] == data && buf[..2] == old(buf[..2])
    {
      for k := 0 to |data|
        invariant forall i :: 0 <= i < BUFFER ==> buf[i] < 256
        invariant buf[2..2 + k] == data[..k] && buf[..2] == old(buf[..2])
      {
        buf[2 + k] := data[k];
      }
    }

    /** The counters after a refill. */
    method Advance(data: Bytes)
      requires curbit <= lastbit <= curbit + 16
      modifies this`getDone, this`lastByte, this`curbit, this`lastbit
      ensures getDone == (old(getDone) || data == []) && lastByte == 2 + |data| && lastbit == 8 * (2 + |data|)
      ensures curbit == 16 - (old(lastbit) - old(curbit))
    {
      if data == [] { getDone := true; }
      lastByte := 2 + |data|;
      curbit := (curbit - lastbit) + 16;
      lastbit := 8 * (2 + |data|);
    }

    /** The refill inside `nextCode`: the last two bytes are carried over and one more block is read. */
    method Refill(width: nat)
      requires Valid() && lastbit - curbit <= width <= 12 && 1 <= width <= |Remaining()|
      modifies this`pos, this`zeroDataBlock, this`blocks, this`getDone, this`lastByte, this`curbit, this`lastbit, buf
      ensures Ready(width) && Remaining() == old(Remaining())
    {
      hide BitsOf, Serialize, Payload, WellCut;
      ghost var left, unread := lastbit - curbit, blocks;
      RefillKeepsBits(buf[..lastByte], blocks, left, width);
      FirstIsBytes(unread);
      Carry();
      var data := GetDataBlock();
      Store(data);
      Advance(data);
      assert buf[..lastByte] == buf[..2] + data;
    }

    /** The extraction at the end of `nextCode`: up to three bytes, shifted and masked. */
    method Peek(width: nat) returns (code: nat)
      requires Ready(width) && 1 <= width <= 12
      ensures code < Pow2(width) && ToBits(code, width) == BitsOf(buf[..])[curbit..curbit + width]
    {
      hide BitsOf, Serialize, Pow2, ToBits, Low, Shr, LittleEndian, WellCut;
      var end := curbit + width;
      var j := end / 8;
      var i := curbit / 8;
      var ret;
      if i == j {
        ret := buf[i];
        FieldOne(buf[..], i, curbit % 8, width);
      } else if i + 1 == j {
        ret := buf[i] + 256 * buf[i + 1];
        FieldTwo(buf[..], i, curbit % 8, width);
      } else {
        ret := buf[i] + 256 * buf[i + 1] + 65536 * buf[i + 2];
        FieldThree(buf[..], i, curbit % 8, width);
      }
      code := Low(Shr(ret, curbit % 8), width);
      LowBound(Shr(ret, curbit % 8), width);
    }

    method Extract(width: nat) returns (code: nat)
      requires Ready(width) && 1 <= width <= 12
      modifies this`curbit
      ensures Valid() && code < Pow2(width)
      ensures ToBits(code, width) == old(Remaining())[..width] && Remaining() == old(Remaining())[width..]
    {
      hide BitsOf, Serialize, Pow2, ToBits, WellCut;
      code := Peek(width);
      BitsOfSplit(buf[..], lastByte);
      assert buf[..][..lastByte] == buf[..lastByte];
      FieldInPrefix(BitsOf(buf[..]), BitsOf(buf[..lastByte]), BitsOf(Payload(blocks)), curbit, width);
      curbit := curbit + width;
    }

    /** `nextCode`, once its one-time Clear has been returned. */
    method ReadCode(width: nat) returns (code: nat)
      requires Valid() && 1 <= width <= 12 && width <= |Remaining()|
      modifies this`pos, this`zeroDataBlock, this`blocks, this`getDone, this`lastByte, this`curbit, this`lastbit, buf
      ensures Valid() && code < Pow2(width)
      ensures ToBits(code, width) == old(Remaining())[..width] && Remaining() == old(Remaining())[width..]
    {
      hide BitsOf, Serialize, Pow2, ToBits;
      if curbit + width >= lastbit {
        Refill(width);
      }
      code := Extract(width);
    }

    /** After End, only the terminator is left to read, if the last refill has not met it already. */
    method SkipToTerminator()
      requires Valid() && |Remaining()| < 8
      modifies this`pos, this`zeroDataBlock, this`blocks
      ensures pos <= |file| && file[pos..] == tail
    {
      if zeroDataBlock { return; }
      NothingLeft(blocks);
      var data := GetDataBlock();
    }
  }
}
