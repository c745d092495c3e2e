/** The byte output of gif.mod/gif/writegif.c: a 255-byte accumulator flushed as data sub-blocks. */
module GifPacket {
  import opened SubBlocks

  class Packet {
    const accum: array<nat>
    var count: nat
    var file: Bytes
    // The file as it stood when the packet was opened, the full blocks since, and every byte handed over.
    ghost var header: Bytes
    ghost var blocks: seq<Bytes>
    ghost var bytes: Bytes

    ghost predicate Valid()
      reads this, accum
    {
      && accum.Length == 256 && count < 255
      && AreBytes(accum[..count])
      && (forall i :: 0 <= i < |blocks| ==> |blocks[i]| == 255 && AreBytes(blocks[i]))
      && file == header + Serialize(blocks)
      && bytes == Payload(blocks) + accum[..count]
    }

    constructor (file: Bytes)
      ensures Valid() && header == this.file == file && bytes == [] && blocks == []
      ensures fresh(accum)
    {
      accum := new nat[256];
      count := 0;
      this.file, header := file, file;
      blocks, bytes := [], [];
    }

    /** `flush_char`: what was accumulated becomes one more block. */
    method Flush()
      requires accum.Length == 256 && count <= 255
      modifies this`count, this`file, this`blocks
      ensures count == 0
      ensures file == old(file) + if old(count) == 0 then [] else [old(count)] + old(accum[..count])
      ensures blocks == old(blocks) + if old(count) == 0 then [] else [old(accum[..count])]
    {
      if count != 0 {
        file := file + [count];
        file := file + accum[..count];
        blocks := blocks + [accum[..count]];
        count := 0;
      }
    }

    /** `char_out`: one more byte. */
    method Put(c: nat)
      requires Valid() && c < 256
      modifies this`count, this`file, this`blocks, this`bytes, accum
      ensures Valid() && bytes == old(bytes) + [c]
    {
      accum[count] := c;
      count := count + 1;
      assert accum[..count] == old(accum[..count]) + [c];
      bytes := bytes + [c];
      if count == 255 {
        AppendBlock(blocks, accum[..count]);
        Flush();
      }
    }

    /** The last flush: the file now holds every byte, cut so that a reader can follow. */
    method Finish()
      requires Valid()
      modifies this`count, this`file, this`blocks
      ensures file == header + Serialize(blocks) && bytes == Payload(blocks) && WellCut(blocks) && FullButLast(blocks)
    {
      ghost var full, last := blocks, accum[..count];
      if count != 0 {
        AppendBlock(full, last);
      }
      Flush();
      assert blocks == if last == [] then full else full + [last];
    }
  }
}
