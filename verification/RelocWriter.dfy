/** `RelocInfoWriter` of v8.mod/src/assembler.cpp: entries are written toward lower addresses. */
module RelocWriter {
  import opened RelocFormat

  /** The bytes from hi down to lo, in the order in which an iterator reads them. */
  function Backward(s: Bytes, lo: nat, hi: nat): (b: Bytes)
    requires lo <= hi <= |s|
    ensures |b| == hi - lo
  {
    if lo == hi then [] else [s[hi - 1]] + Backward(s, lo, hi - 1)
  }

  lemma {:induction false} BackwardAppend(s: Bytes, lo: nat, hi: nat)
    requires 0 < lo <= hi <= |s|
    ensures Backward(s, lo - 1, hi) == Backward(s, lo, hi) + [s[lo - 1]]
    decreases hi
  {
    if lo < hi { BackwardAppend(s, lo, hi - 1); }
  }

  lemma {:induction false} BackwardSame(s: Bytes, t: Bytes, lo: nat, hi: nat)
    requires lo <= hi <= |s| == |t| && forall i :: lo <= i < hi ==> s[i] == t[i]
    ensures Backward(s, lo, hi) == Backward(t, lo, hi)
    decreases hi
  {
    if lo < hi { BackwardSame(s, t, lo, hi - 1); }
  }

  /** The longest encoding: jump tag, 4 chunks, tag, pc delta, tag, data. */
  function MaxSize(size: nat): nat { 8 + size }

  lemma AtLast(base: Bytes, more: Bytes, all: Bytes)
    requires more != [] && all + [] == base + more
    ensures all == base + more && all[|all| - 1] == more[|more| - 1]
    ensures all[..|all| - 1] == base + more[..|more| - 1]
  {
  }

  lemma JumpFits(pcDelta: nat)
    requires 64 <= pcDelta < 0x1_0000_0000
    ensures 0 < pcDelta / 64 < Pow128(4)
  {
    assert Pow128(4) == 0x1000_0000;
  }

  class RelocInfoWriter {
    const buffer: array<nat>
    const size: nat
    var pos: nat
    var lastPc: int
    var lastData: int

    /** Everything written so far, in reading order. */
    ghost function Written(): Bytes
      requires pos <= buffer.Length
      reads this`pos, buffer
    {
      Backward(buffer[..], pos, buffer.Length)
    }

    constructor (buffer: array<nat>, pc: int, size: nat)
      requires size == 4 || size == 8
      ensures this.buffer == buffer && this.size == size && pos == buffer.Length
      ensures lastPc == pc && lastData == 0
    {
      this.buffer, this.size := buffer, size;
      pos, lastPc, lastData := buffer.Length, pc, 0;
    }

    /** `*--pos_ = b`. */
    method Put(b: nat)
      requires 0 < pos <= buffer.Length && b < 256
      modifies this`pos, buffer
      ensures pos == old(pos) - 1 && Written() == old(Written()) + [b]
    {
      ghost var before := buffer[..];
      pos := pos - 1;
      buffer[pos] := b;
      BackwardSame(before, buffer[..], pos + 1, buffer.Length);
      BackwardAppend(buffer[..], pos + 1, buffer.Length);
    }

    method WriteExtraTag(extra: nat, top: nat)
      requires 0 < pos <= buffer.Length && extra < 16 && top < 4
      modifies this`pos, buffer
      ensures pos == old(pos) - 1 && Written() == old(Written()) + [ExtraTag(extra, top)]
    {
      Put(ExtraTag(extra, top));
    }

    /** `*pos_ = *pos_ | kLastChunkTag`, on an even byte. */
    method TagLast()
      requires pos < buffer.Length && buffer[pos] % 2 == 0 && buffer[pos] < 255
      modifies buffer
      ensures Written() == old(Written())[..buffer.Length - pos - 1] + [old(buffer[pos]) + 1]
      ensures old(Written())[buffer.Length - pos - 1] == old(buffer[pos])
    {
      ghost var before := buffer[..];
      buffer[pos] := buffer[pos] + 1;
      BackwardSame(before, buffer[..], pos + 1, buffer.Length);
      BackwardAppend(before, pos + 1, buffer.Length);
      BackwardAppend(buffer[..], pos + 1, buffer.Length);
    }

    lemma LastByte()
      requires pos <= buffer.Length && Written() != []
      ensures pos < buffer.Length && Written()[|Written()| - 1] == buffer[pos]
    {
      BackwardAppend(buffer[..], pos + 1, buffer.Length);
    }

    /** The loop of `WriteVariableLengthPCJump`: chunks of seven bits, the last one tagged afterwards. */
    method WriteChunks(pcJump0: nat)
      requires 0 < pcJump0 < Pow128(4) && 4 <= pos <= buffer.Length
      modifies this`pos, buffer
      ensures old(pos) - 4 <= pos <= old(pos) && Written() == old(Written()) + TaggedChunks(pcJump0)
    {
      hide Backward;
      ghost var base, n: nat := Written(), 4;
      var pcJump: nat := pcJump0;
      while pcJump > 0
        invariant pcJump < Pow128(n) && n <= 4 && pos == old(pos) - 4 + n <= buffer.Length && n <= pos
        invariant Written() + Chunks(pcJump) == base + Chunks(pcJump0)
        decreases pcJump
      {
        Put(2 * (pcJump % 128));
        pcJump := pcJump / 128;
        n := n - 1;
      }
      TagLastChunk(pcJump0);
      AtLast(base, Chunks(pcJump0), Written());
      LastByte();
      TagLast();
      ghost var chunks := Chunks(pcJump0);
      assert Written() == base + chunks[..|chunks| - 1] + [chunks[|chunks| - 1] + 1];
    }

    /** `WriteVariableLengthPCJump`: what is left for the short form. */
    method WriteJump(pcDelta: nat) returns (low: nat)
      requires pcDelta < 0x1_0000_0000 && 5 <= pos <= buffer.Length
      modifies this`pos, buffer
      ensures low == pcDelta % 64 && old(pos) - 5 <= pos <= old(pos) && Written() == old(Written()) + Jump(pcDelta)
    {
      hide Backward, TaggedChunks, Pow128;
      if pcDelta < 64 { return pcDelta; }
      WriteExtraTag(PC_JUMP_TAG, 1);
      JumpFits(pcDelta);
      WriteChunks(pcDelta / 64);
      low := pcDelta % 64;
    }

    method WriteTaggedPC(pcDelta: nat, tag: nat)
      requires pcDelta < 0x1_0000_0000 && tag < 4 && 6 <= pos <= buffer.Length
      modifies this`pos, buffer
      ensures old(pos) - 6 <= pos <= old(pos)
      ensures Written() == old(Written()) + Jump(pcDelta) + [pcDelta % 64 * 4 + tag]
    {
      var low := WriteJump(pcDelta);
      Put(low * 4 + tag);
    }

    method WriteTaggedData(dataDelta: int, tag: nat)
      requires Small(dataDelta) && tag < 2 && 0 < pos <= buffer.Length
      modifies this`pos, buffer
      ensures pos == old(pos) - 1 && Written() == old(Written()) + [(2 * dataDelta + tag) % 256]
    {
      Put((2 * dataDelta + tag) % 256);
    }

    method WriteExtraTaggedPC(pcDelta: nat, extra: nat)
      requires pcDelta < 0x1_0000_0000 && extra < 16 && 7 <= pos <= buffer.Length
      modifies this`pos, buffer
      ensures old(pos) - 7 <= pos <= old(pos)
      ensures Written() == old(Written()) + Jump(pcDelta) + [ExtraTag(extra, 0), pcDelta % 64]
    {
      var low := WriteJump(pcDelta);
      WriteExtraTag(extra, 0);
      Put(low);
    }

    method WriteExtraTaggedData(dataDelta: int, top: nat)
      requires top < 4 && size + 1 <= pos <= buffer.Length
      modifies this`pos, buffer
      ensures pos == old(pos) - 1 - size
      ensures Written() == old(Written()) + [ExtraTag(DATA_JUMP_TAG, top)] + DataBytes(dataDelta, size)
    {
      WriteExtraTag(DATA_JUMP_TAG, top);
      ghost var base := Written();
      var rest := dataDelta;
      for i := 0 to size
        invariant pos == old(pos) - 1 - i
        invariant Written() + DataBytes(rest, size - i) == base + DataBytes(dataDelta, size)
      {
        Put(rest % 256);
        rest := rest / 256;
      }
    }

    /** The long form: a pc jump tag, then a data jump tag and a whole word. */
    method WriteLongData(pcDelta: nat, mode: nat, dataDelta: int)
      requires pcDelta < 0x1_0000_0000 && HasData(mode) && MaxSize(size) <= pos <= buffer.Length
      requires mode == COMMENT || !Small(dataDelta)
      modifies this`pos, buffer
      ensures old(pos) - MaxSize(size) <= pos < old(pos)
      ensures Written() == old(Written()) + (Jump(pcDelta) + Body(pcDelta % 64, mode, dataDelta, size))
    {
      hide Jump, DataBytes, Backward;
      WriteExtraTaggedPC(pcDelta, PC_JUMP_TAG);
      WriteExtraTaggedData(dataDelta, DataTag(mode));
    }

    /** The short form of a position where its data delta allows it. */
    method WritePosition(pcDelta: nat, mode: nat, dataDelta: int)
      requires pcDelta < 0x1_0000_0000 && IsPosition(mode) && MaxSize(size) <= pos <= buffer.Length
      modifies this`pos, buffer
      ensures old(pos) - MaxSize(size) <= pos < old(pos)
      ensures Written() == old(Written()) + (Jump(pcDelta) + Body(pcDelta % 64, mode, dataDelta, size))
    {
      hide Jump, DataBytes, Backward;
      if -64 <= dataDelta && dataDelta < 64 {
        WriteTaggedPC(pcDelta, POSITION_TAG);
        WriteTaggedData(dataDelta, DataTag(mode));
      } else {
        WriteLongData(pcDelta, mode, dataDelta);
      }
    }

    /** `Write`: the entry's encoding, in at most MaxSize bytes. */
    method Write(e: Entry)
      requires size == 4 || size == 8
      requires lastPc <= e.pc < lastPc + 0x1_0000_0000 && e.mode < MAX_MODES && InRange(e.data, size)
      requires MaxSize(size) <= pos <= buffer.Length
      modifies this`pos, this`lastPc, this`lastData, buffer
      ensures old(pos) - MaxSize(size) <= pos < old(pos)
      ensures Written() == old(Written()) + Encode(old(lastPc), old(lastData), e, size)
      ensures lastPc == e.pc && lastData == NextData(old(lastData), e)
    {
      hide Jump, DataBytes, Wrap, Backward, InRange;
      var pcDelta: nat := e.pc - lastPc;
      if e.mode == EMBEDDED_OBJECT {
        WriteTaggedPC(pcDelta, EMBEDDED_OBJECT_TAG);
      } else if e.mode == CODE_TARGET {
        WriteTaggedPC(pcDelta, CODE_TARGET_TAG);
      } else if IsPosition(e.mode) {
        WritePosition(pcDelta, e.mode, Wrap(e.data - lastData, size));
        lastData := e.data;
      } else if e.mode == COMMENT {
        WriteLongData(pcDelta, COMMENT, Wrap(e.data - lastData, size));
        lastData := e.data;
      } else {
        WriteExtraTaggedPC(pcDelta, e.mode);
      }
      lastPc := e.pc;
    }
  }
}
