/** Variable-width code output: `output` of gif.mod/gif/writegif.c and the globals it keeps. */
module GifCodeWriter {
  import opened Bits
  import opened GifPacket
  import opened LzwReference
  import opened SubBlocks

  function MaxCode(nBits: nat): nat {
    Pow2(nBits) - 1
  }

  /** The writer's limit on `free_ent` for codes of a given width. */
  function Limit(nBits: nat): nat {
    if nBits == MAX_BITS then MAX_CODES else MaxCode(nBits)
  }

  /** The writer widens its codes exactly when the decoder, after the same code, widens its own. */
  lemma WidthLockstep(d: Decoder, code: nat, clear: bool)
    requires d.Good() && d.minBits <= 8 && d.Accepts(code) && code != d.End()
    requires clear ==> code == d.Clear()
    requires code == d.Clear() ==> clear || d == Fresh(d.minBits)
    ensures d.Step(code).width ==
            if clear then d.minBits + 1
            else if |d.Step(code).words| > Limit(d.width) then d.width + 1
            else d.width
  {
    MinBitsBound(d.minBits);
    assert Pow2(d.minBits + 1) == 2 * Pow2(d.minBits);
    if code != d.Clear() { WordLength(d, code); }
  }

  /** The packet carries the given bits, and less than a byte of zero bits after them. */
  ghost predicate EndsWith(packet: Packet, bits: seq<bool>)
    reads packet
  {
    var padding := 8 * |Payload(packet.blocks)| - |bits|;
    0 <= padding < 8 && BitsOf(Payload(packet.blocks)) == bits + ToBits(0, padding)
  }

  class CodeWriter {
    const packet: Packet
    const initBits: nat
    var nBits: nat
    var maxCode: nat
    var freeEnt: nat
    var accumulator: nat
    var curBits: nat
    var clearFlag: bool
    // The codes written so far and where a decoder stands after reading them.
    ghost const minBits: nat
    ghost var codes: seq<nat>
    ghost var decoder: Decoder

    /** The bits written so far: those in the packet, then those still in the accumulator. */
    ghost function Written(): seq<bool>
      reads this`accumulator, this`curBits, packet
    {
      BitsOf(packet.bytes) + ToBits(accumulator, curBits)
    }

    /** The writer's code width is the one the decoder will read the next code with. */
    ghost predicate Lockstep()
      reads this`nBits, this`maxCode, this`decoder
    {
      && nBits == decoder.width
      && maxCode == Limit(nBits)
    }

    ghost predicate BitsValid()
      reads this`accumulator, this`curBits, packet, packet.accum
    {
      packet.Valid() && curBits < 8 && accumulator < Pow2(curBits)
    }

    ghost predicate Valid()
      reads this`nBits, this`maxCode, this`accumulator, this`curBits, this`codes, this`decoder
      reads packet, packet.accum
    {
      && BitsValid()
      && 2 <= minBits <= 8 && initBits == minBits + 1
      && Accepted(Fresh(minBits), codes) && decoder == Run(Fresh(minBits), codes)
      && decoder.Good() && decoder.minBits == minBits
      && Lockstep()
      && Written() == Pack(Fresh(minBits), codes)
    }

    constructor (packet: Packet, initBits: nat)
      requires packet.Valid() && packet.bytes == []
      requires 3 <= initBits <= 9
      ensures Valid() && this.packet == packet && this.initBits == initBits && minBits == initBits - 1
      ensures codes == [] && decoder == Fresh(minBits) && !clearFlag && freeEnt == Pow2(minBits) + 2
    {
      this.packet, this.initBits := packet, initBits;
      nBits := initBits;
      maxCode := MaxCode(initBits);
      accumulator, curBits, clearFlag := 0, 0, false;
      freeEnt := Pow2(initBits - 1) + 2;
      minBits, codes, decoder := initBits - 1, [], Fresh(initBits - 1);
      new;
      hide Serialize, Payload, Initial;
      FreshIsGood(minBits);
    }

    /** `char_out(cur_accum & 0xff); cur_accum >>= 8; cur_bits -= 8`. */
    method PutLowByte(ghost target: seq<bool>)
      requires packet.Valid() && curBits >= 8 && accumulator < Pow2(curBits) && Written() == target
      modifies this`accumulator, this`curBits
      modifies packet`count, packet`file, packet`blocks, packet`bytes, packet.accum
      ensures packet.Valid() && accumulator < Pow2(curBits) && Written() == target
      ensures curBits == old(curBits) - 8
    {
      hide ToBits, BitsOf, Serialize, Payload, Pow2;
      TakeByte(accumulator, curBits);
      BitsOfOneMore(packet.bytes, accumulator % 256);
      packet.Put(accumulator % 256);
      accumulator, curBits := accumulator / 256, curBits - 8;
    }

    /** The first half of `output`: the code joins the accumulator, whole bytes leave it. */
    method PutCode(code: nat)
      requires BitsValid() && code < Pow2(nBits)
      modifies this`accumulator, this`curBits
      modifies packet`count, packet`file, packet`blocks, packet`bytes, packet.accum
      ensures BitsValid() && Written() == old(Written()) + ToBits(code, nBits)
    {
      hide ToBits, BitsOf, Serialize, Payload, Pow2, Shl, Low;
      LowIdentity(accumulator, curBits);
      accumulator := Low(accumulator, curBits);
      ghost var before := accumulator;
      ShlBound(code, curBits, nBits);
      ToBitsJoin(before, code, curBits, nBits);
      if curBits > 0 {
        accumulator := accumulator + Shl(code, curBits);
      } else {
        accumulator := code;
      }
      curBits := curBits + nBits;
      ghost var target := old(Written()) + ToBits(code, nBits);
      assert BitsOf(packet.bytes) + (ToBits(before, old(curBits)) + ToBits(code, nBits)) == target;
      while curBits >= 8
        invariant packet.Valid() && accumulator < Pow2(curBits) && Written() == target
      {
        PutLowByte(target);
      }
    }

    /** The second half of `output`: the width for the next code. */
    method Resize()
      modifies this`nBits, this`maxCode, this`clearFlag
      ensures !clearFlag
      ensures if old(clearFlag) then nBits == initBits && maxCode == MaxCode(nBits)
              else if old(freeEnt > maxCode) then
                nBits == old(nBits) + 1 && maxCode == Limit(nBits)
              else nBits == old(nBits) && maxCode == old(maxCode)
    {
      if freeEnt > maxCode || clearFlag {
        if clearFlag {
          nBits := initBits;
          maxCode := MaxCode(nBits);
          clearFlag := false;
        } else {
          nBits := nBits + 1;
          if nBits == MAX_BITS {
            maxCode := MAX_CODES;
          } else {
            maxCode := MaxCode(nBits);
          }
        }
      }
    }

    /** `output` of any code but End: the decoder that reads it keeps the same width. */
    method Output(code: nat)
      requires Valid() && code != decoder.End() && decoder.Accepts(code)
      requires freeEnt == |decoder.Step(code).words|
      requires clearFlag ==> code == decoder.Clear()
      requires code == decoder.Clear() ==> clearFlag || decoder == Fresh(minBits)
      modifies this`accumulator, this`curBits, this`nBits, this`maxCode, this`clearFlag, this`codes, this`decoder
      modifies packet`count, packet`file, packet`blocks, packet`bytes, packet.accum
      ensures Valid() && !clearFlag
      ensures codes == old(codes) + [code] && decoder == old(decoder).Step(code)
    {
      hide Pack, Run, Accepted, ToBits, BitsOf, Serialize, Payload, Pow2, Decoder.Good, Decoder.Step, Decoder.Accepts;
      hide Packet.Valid;
      StepIsGood(decoder, code);
      Append(Fresh(minBits), codes, code);
      WidthLockstep(decoder, code, clearFlag);
      PutCode(code);
      Resize();
      codes, decoder := codes + [code], decoder.Step(code);
    }

    /** The rest of the accumulator, padded with zero bits to a whole byte. */
    method Drain()
      requires BitsValid()
      modifies this`accumulator
      modifies packet`count, packet`file, packet`blocks, packet`bytes, packet.accum
      ensures packet.Valid()
      ensures |old(Written())| <= 8 * |packet.bytes| < |old(Written())| + 8
      ensures BitsOf(packet.bytes) == old(Written()) + ToBits(0, 8 * |packet.bytes| - |old(Written())|)
    {
      hide ToBits, BitsOf, Serialize, Payload, Pow2;
      ghost var target := Written();
      var left: int := curBits;
      while left > 0
        invariant packet.Valid() && left <= curBits
        invariant 0 < left ==> left == curBits && BitsValid() && Written() == target
        invariant left <= 0 ==>
          && |target| <= 8 * |packet.bytes| < |target| + 8
          && BitsOf(packet.bytes) == target + ToBits(0, 8 * |packet.bytes| - |target|)
      {
        PadByte(accumulator, curBits);
        BitsOfOneMore(packet.bytes, accumulator);
        packet.Put(accumulator % 256);
        accumulator, left := accumulator / 256, left - 8;
      }
      assert curBits == 0 ==> target == BitsOf(packet.bytes) + ToBits(0, 0);
    }

    /** `output` of the End code: the accumulator is drained and the packet flushed. */
    method OutputEnd(code: nat)
      requires Valid() && code == decoder.End() && decoder.previous != []
      modifies this`accumulator, this`curBits, this`nBits, this`maxCode, this`clearFlag
      modifies packet`count, packet`file, packet`blocks, packet`bytes, packet.accum
      ensures packet.file == packet.header + Serialize(packet.blocks)
      ensures WellCut(packet.blocks) && FullButLast(packet.blocks)
      ensures EndsWith(packet, Pack(Fresh(minBits), codes) + ToBits(code, decoder.width))
    {
      hide Pack, Run, Accepted, ToBits, Serialize, Payload, Pow2, BitsOf;
      StepIsGood(decoder, code);
      PutCode(code);
      Resize();
      Drain();
      packet.Finish();
    }
  }
}
