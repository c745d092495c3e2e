/** `RelocIterator` of v8.mod/src/assembler.cpp, on bytes that a `RelocInfoWriter` wrote. */
module RelocIterator {
  import Bits
  import opened RelocFormat
  import opened RelocWriter

  /** Between entries, after the jump of an entry, or after the pc of an entry in long form. */
  datatype Phase = Boundary | Jumped | Placed

  /** The bytes still to be read. */
  function Ahead(lastPc: int, lastData: int, todo: seq<Entry>, phase: Phase, size: nat): Bytes
    requires Writable(lastPc, todo, size)
  {
    if phase.Boundary? || todo == [] then EncodeAll(lastPc, lastData, todo, size)
    else
      var e := todo[0];
      var low, delta := (e.pc - lastPc) % 64, Wrap(e.data - lastData, size);
      (if phase.Jumped? then Body(low, e.mode, delta, size)
       else [ExtraTag(DATA_JUMP_TAG, DataTag(e.mode))] + DataBytes(delta, size))
      + EncodeAll(e.pc, NextData(lastData, e), todo[1..], size)
  }

  /** The program counter the iterator shows in each phase. */
  function Shown(lastPc: int, todo: seq<Entry>, phase: Phase): int
    requires todo != []
  {
    match phase
    case Boundary => lastPc
    case Jumped => todo[0].pc - (todo[0].pc - lastPc) % 64
    case Placed => todo[0].pc
  }

  /** The entry is written in the long form. */
  predicate Long(mode: nat, delta: int) {
    HasData(mode) && !(IsPosition(mode) && Small(delta))
  }

  lemma ChunkShape(left: nat, tail: Bytes)
    requires left > 0
    ensures TaggedChunks(left) + tail != []
    ensures left < 128 ==> TaggedChunks(left) + tail == [2 * left + 1] + tail
    ensures left >= 128 ==> TaggedChunks(left) + tail == [2 * (left % 128)] + (TaggedChunks(left / 128) + tail)
  {
  }

  lemma ChunkValue(left: nat, scale: nat)
    ensures left * scale == left % 128 * scale + left / 128 * (scale * 128)
  {
    assert left == left % 128 + 128 * (left / 128);
  }

  lemma WordStep(bytes: Bytes, i: nat, scale: nat, tail: Bytes)
    requires i < |bytes|
    ensures bytes[i..] + tail != [] && (bytes[i..] + tail)[0] == bytes[i]
    ensures (bytes[i..] + tail)[1..] == bytes[i + 1..] + tail
    ensures scale * Bits.LittleEndian(bytes[i..]) == scale * bytes[i] + 256 * scale * Bits.LittleEndian(bytes[i + 1..])
  {
    assert bytes[i..] == [bytes[i]] + bytes[i + 1..];
    assert bytes[i..][1..] == bytes[i + 1..];
    assert scale * (bytes[i] + 256 * Bits.LittleEndian(bytes[i + 1..]))
        == scale * bytes[i] + scale * (256 * Bits.LittleEndian(bytes[i + 1..]));
  }

  lemma AtPlaced(lastPc: int, lastData: int, todo: seq<Entry>, size: nat)
    requires Writable(lastPc, todo, size) && todo != []
    ensures Ahead(lastPc, lastData, todo, Placed, size)
            == [59 + 64 * DataTag(todo[0].mode)]
               + (DataBytes(Wrap(todo[0].data - lastData, size), size)
                  + EncodeAll(todo[0].pc, NextData(lastData, todo[0]), todo[1..], size))
  {
    hide DataBytes, EncodeAll, Wrap;
  }

  lemma FirstOfAll(lastPc: int, lastData: int, todo: seq<Entry>, size: nat)
    requires Writable(lastPc, todo, size) && todo != []
    ensures EncodeAll(lastPc, lastData, todo, size)
            == Jump(todo[0].pc - lastPc)
               + Body((todo[0].pc - lastPc) % 64, todo[0].mode, Wrap(todo[0].data - lastData, size), size)
               + EncodeAll(todo[0].pc, NextData(lastData, todo[0]), todo[1..], size)
  {
    hide Jump, Body, Wrap;
  }

  lemma Regroup(a: Bytes, b: Bytes, c: Bytes, d: Bytes)
    ensures a + b + c + d == a + (b + (c + d))
  {
  }

  /** What the next bytes are at a boundary: a jump, or the body of the entry itself. */
  lemma AtBoundary(lastPc: int, lastData: int, todo: seq<Entry>, size: nat)
    requires Writable(lastPc, todo, size) && todo != []
    ensures var d := todo[0].pc - lastPc;
            && 0 <= d < 0x1_0000_0000
            && (d < 64 ==> Ahead(lastPc, lastData, todo, Boundary, size) == Ahead(lastPc, lastData, todo, Jumped, size)
                           && Shown(lastPc, todo, Jumped) == lastPc)
            && (d >= 64 ==> 0 < d / 64 < Pow128(4)
                            && Ahead(lastPc, lastData, todo, Boundary, size)
                               == [ExtraTag(PC_JUMP_TAG, 1)]
                                  + (TaggedChunks(d / 64) + Ahead(lastPc, lastData, todo, Jumped, size))
                            && Shown(lastPc, todo, Jumped) == lastPc + 64 * (d / 64))
  {
    hide DataBytes, TaggedChunks, Wrap, Body, EncodeAll;
    var e := todo[0];
    var d := e.pc - lastPc;
    var body := Body(d % 64, e.mode, Wrap(e.data - lastData, size), size);
    var tail := EncodeAll(e.pc, NextData(lastData, e), todo[1..], size);
    FirstOfAll(lastPc, lastData, todo, size);
    if d >= 64 {
      JumpFits(d);
      Regroup([ExtraTag(PC_JUMP_TAG, 1)], TaggedChunks(d / 64), body, tail);
    } else {
      assert [] + body == body;
    }
  }

  /** What the next bytes are once the jump has been read, by the kind of entry. */
  lemma AtBody(lastPc: int, lastData: int, todo: seq<Entry>, size: nat)
    requires Writable(lastPc, todo, size) && todo != []
    ensures var e := todo[0];
            var low, delta, tail := (e.pc - lastPc) % 64, Wrap(e.data - lastData, size),
                                    EncodeAll(e.pc, NextData(lastData, e), todo[1..], size);
            var ahead := Ahead(lastPc, lastData, todo, Jumped, size);
            && 0 <= low < 64
            && (e.mode == EMBEDDED_OBJECT ==> ahead == [4 * low] + tail)
            && (e.mode == CODE_TARGET ==> ahead == [4 * low + 1] + tail)
            && (IsPosition(e.mode) && Small(delta) ==>
                  ahead == [4 * low + 2, (2 * delta + DataTag(e.mode)) % 256] + tail)
            && (Long(e.mode, delta) ==>
                  ahead == [63, low] + Ahead(lastPc, lastData, todo, Placed, size))
            && (e.mode != EMBEDDED_OBJECT && e.mode != CODE_TARGET && !HasData(e.mode) ==>
                  ahead == [4 * e.mode + 3, low] + tail)
  {
    hide DataBytes, TaggedChunks, Wrap, EncodeAll;
  }

  /** The signed byte, shifted right by its tag bit. */
  lemma SignedByte(delta: int, tag: nat)
    requires Small(delta) && tag < 2
    ensures var b := (2 * delta + tag) % 256; b % 2 == tag && (if b < 128 then b else b - 256) / 2 == delta
  {
  }

  /** The first byte of each kind of token leads back to it. */
  lemma ModeTags(mode: nat, low: int)
    requires mode < MAX_MODES
    ensures 127 % 4 == 3 && 127 / 4 % 16 == PC_JUMP_TAG && 63 % 4 == 3 && 63 / 4 % 16 == PC_JUMP_TAG
    ensures (59 + 64 * DataTag(mode)) % 4 == 3 && (59 + 64 * DataTag(mode)) / 4 % 16 == DATA_JUMP_TAG
    ensures (4 * mode + 3) % 4 == 3 && (4 * mode + 3) / 4 % 16 == mode
    ensures low >= 0 ==> 4 * low % 4 == 0 && 4 * low / 4 == low
    ensures low >= 0 ==> (4 * low + 1) % 4 == 1 && (4 * low + 1) / 4 == low
    ensures low >= 0 ==> (4 * low + 2) % 4 == 2 && (4 * low + 2) / 4 == low
  {
  }

  lemma AheadSize(lastPc: int, lastData: int, todo: seq<Entry>, phase: Phase, size: nat)
    requires Writable(lastPc, todo, size) && todo != []
    ensures |Ahead(lastPc, lastData, todo, phase, size)| > 0
  {
    hide DataBytes, TaggedChunks, Wrap;
  }

  lemma {:induction false} NothingWanted(lastData: int, data: int, entries: seq<Entry>, size: nat)
    ensures Deliver(lastData, data, entries, {}, size) == []
    decreases entries
  {
    if entries != [] {
      var e := entries[0];
      NothingWanted(NextData(lastData, e), DataAfter(lastData, data, e, {}, size), entries[1..], size);
    }
  }

  lemma {:induction false} BackwardDrop(s: Bytes, lo: nat, hi: nat, n: nat)
    requires lo + n <= hi <= |s|
    ensures Backward(s, lo, hi)[n..] == Backward(s, lo, hi - n)
    decreases n
  {
    if n > 0 {
      BackwardDrop(s, lo, hi - 1, n - 1);
      assert Backward(s, lo, hi)[n..] == Backward(s, lo, hi - 1)[n - 1..];
    }
  }

  class RelocIterator {
    const buffer: array<nat>
    const size: nat
    const end: nat
    const mask: set<nat>
    var pos: nat
    var pc: int
    var mode: nat
    var data: int
    var done: bool
    // What is still to come, and what the writer's registers were at this point.
    ghost var todo: seq<Entry>
    ghost var lastPc: int
    ghost var lastData: int
    ghost var phase: Phase

    ghost function Rest(): Bytes
      requires end <= pos <= buffer.Length
      reads this`pos, buffer
    {
      Backward(buffer[..], end, pos)
    }

    ghost predicate Synced()
      reads this`pos, this`pc, this`data, this`todo, this`lastPc, this`lastData, this`phase, buffer
    {
      && (size == 4 || size == 8) && end <= pos <= buffer.Length
      && Writable(lastPc, todo, size)
      && (todo == [] ==> phase.Boundary?)
      && (todo != [] ==> pc == Shown(lastPc, todo, phase))
      && (todo != [] && phase.Placed? ==> Long(todo[0].mode, Wrap(todo[0].data - lastData, size)))
      && Rest() == Ahead(lastPc, lastData, todo, phase, size)
    }

    /** `*--pos_`. */
    method ReadByte() returns (b: nat)
      requires end < pos <= buffer.Length
      modifies this`pos
      ensures pos == old(pos) - 1 && old(Rest()) != [] && b == old(Rest())[0] && Rest() == old(Rest())[1..]
    {
      pos := pos - 1;
      b := buffer[pos];
    }

    /** `SetMode`. */
    method SetMode(m: nat) returns (wanted: bool)
      modifies this`mode
      ensures wanted == (m in mask) && (wanted ==> mode == m)
    {
      wanted := m in mask;
      if wanted { mode := m; }
    }

    /** `AdvanceReadVariableLengthPCJump`. */
    method ReadLongJump(ghost jump: nat, ghost tail: Bytes)
      requires end <= pos <= buffer.Length && 0 < jump < Pow128(4) && Rest() == TaggedChunks(jump) + tail
      modifies this`pos, this`pc
      ensures end <= pos <= buffer.Length && Rest() == tail && pc == old(pc) + 64 * jump
    {
      var pcJump := 0;
      var i := 0;
      var scale := 1;
      ghost var left := jump;
      while i < 4
        invariant 0 <= i <= 4 && end <= pos <= buffer.Length && 0 < left < Pow128(4 - i)
        invariant pc == old(pc)
        invariant scale == Pow128(i) && jump == pcJump + left * scale
        invariant Rest() == TaggedChunks(left) + tail
      {
        ChunkShape(left, tail);
        var part := ReadByte();
        assert part / 2 == if left < 128 then left else left % 128;
        pcJump := pcJump + part / 2 * scale;
        if part % 2 == 1 {
          assert pcJump == jump;
          break;
        }
        ChunkValue(left, scale);
        left := left / 128;
        scale := scale * 128;
        i := i + 1;
      }
      pc := pc + 64 * pcJump;
    }

    /** `AdvanceReadData`: a whole word, lowest byte first, is added to the data. */
    method ReadData(ghost delta: int, ghost tail: Bytes)
      requires end <= pos <= buffer.Length && Rest() == DataBytes(delta, size) + tail
      modifies this`pos, this`data
      ensures end <= pos <= buffer.Length && Rest() == tail && data == Wrap(old(data) + delta, size)
    {
      ghost var bytes := DataBytes(delta, size);
      var x, scale := 0, 1;
      for i := 0 to size
        invariant end <= pos <= buffer.Length && data == old(data) && scale == Pow256(i)
        invariant Rest() == bytes[i..] + tail
        invariant x + scale * Bits.LittleEndian(bytes[i..]) == Bits.LittleEndian(bytes)
      {
        WordStep(bytes, i, scale, tail);
        var b := ReadByte();
        x := x + scale * b;
        scale := 256 * scale;
      }
      assert bytes[size..] == [];
      ghost var k := WordOfDataBytes(delta, size);
      WrapSame(data + x, data + delta, -k, size);
      data := Wrap(data + x, size);
    }

    /** The bytes after the first entry. */
    ghost function Tail(): Bytes
      requires todo != [] && Writable(lastPc, todo, size)
      reads this`todo, this`lastPc, this`lastData
    {
      EncodeAll(todo[0].pc, NextData(lastData, todo[0]), todo[1..], size)
    }

    /** The entry has been read: the iterator is at the next boundary. */
    ghost method Pass()
      requires todo != [] && Writable(lastPc, todo, size) && (size == 4 || size == 8)
      requires end <= pos <= buffer.Length && pc == todo[0].pc && Rest() == Tail()
      modifies this`todo, this`lastPc, this`lastData, this`phase
      ensures todo == old(todo)[1..] && lastPc == old(todo)[0].pc && lastData == NextData(old(lastData), old(todo)[0])
      ensures phase.Boundary? && Synced()
    {
      lastData := NextData(lastData, todo[0]);
      lastPc := todo[0].pc;
      todo := todo[1..];
      phase := Boundary;
    }

    /** What one token may do: it reads part of the first entry, or the rest of it. */
    twostate predicate Consumed(stop: bool)
      requires old(todo) != []
      reads this
    {
      var e := old(todo)[0];
      if todo == old(todo) then
        && !stop && lastPc == old(lastPc) && lastData == old(lastData) && data == old(data)
      else
        && todo == old(todo)[1..] && lastPc == e.pc && lastData == NextData(old(lastData), e) && phase.Boundary?
        && pc == e.pc && data == DataAfter(old(lastData), old(data), e, mask, size)
        && stop == (e.mode in mask) && (stop ==> mode == e.mode)
    }

    ghost function Delta(): int
      requires todo != []
      reads this`todo, this`lastData
    {
      Wrap(todo[0].data - lastData, size)
    }

    ghost predicate JumpNext()
      requires todo != []
      reads this`todo, this`lastPc, this`phase
    {
      phase.Boundary? && todo[0].pc - lastPc >= 64
    }

    lemma NonEmpty()
      requires Synced() && end < pos
      ensures todo != []
    {
      hide Backward;
      assert |Rest()| == pos - end;
    }

    /** The next token, by the state of the first entry. */
    lemma NextToken()
      requires Synced() && end < pos
      ensures todo != [] && Writable(lastPc, todo, size)
      ensures todo[0].mode < MAX_MODES
      ensures JumpNext() ==>
        var d := todo[0].pc - lastPc;
        && 0 < d / 64 < Pow128(4) && pc + 64 * (d / 64) == Shown(lastPc, todo, Jumped)
        && Rest() == [127] + (TaggedChunks(d / 64) + Ahead(lastPc, lastData, todo, Jumped, size))
      ensures phase.Placed? ==>
        && pc == todo[0].pc && Long(todo[0].mode, Delta())
        && Rest() == [59 + 64 * DataTag(todo[0].mode)] + (DataBytes(Delta(), size) + Tail())
      ensures !JumpNext() && !phase.Placed? ==>
        var e, low := todo[0], todo[0].pc - pc;
        && 0 <= low < 64
        && (e.mode == EMBEDDED_OBJECT ==> Rest() == [4 * low] + Tail())
        && (e.mode == CODE_TARGET ==> Rest() == [4 * low + 1] + Tail())
        && (IsPosition(e.mode) && Small(Delta()) ==>
              Rest() == [4 * low + 2] + ([(2 * Delta() + DataTag(e.mode)) % 256] + Tail()))
        && (Long(e.mode, Delta()) ==> Rest() == [63] + ([low] + Ahead(lastPc, lastData, todo, Placed, size)))
        && (e.mode != EMBEDDED_OBJECT && e.mode != CODE_TARGET && !HasData(e.mode) ==>
              Rest() == [4 * e.mode + 3] + ([low] + Tail()))
    {
      hide EncodeAll, Body, DataBytes, Wrap, TaggedChunks, Backward, Ahead;
      NonEmpty();
      if phase.Placed? {
        AtPlaced(lastPc, lastData, todo, size);
      } else {
        AtBoundary(lastPc, lastData, todo, size);
        if !JumpNext() { AtBody(lastPc, lastData, todo, size); }
      }
    }

    lemma SomethingLeft()
      requires end <= pos <= buffer.Length && Rest() != []
      ensures end < pos
    {
    }

    /** A jump tag: the variable-length form, or the six bits of the long form. */
    method ReadJumpToken(b: nat)
      requires todo != [] && Writable(lastPc, todo, size) && end <= pos <= buffer.Length
      requires (size == 4 || size == 8) && !phase.Placed?
      requires JumpNext() ==>
        var d := todo[0].pc - lastPc;
        && b == 127 && 0 < d / 64 < Pow128(4) && pc + 64 * (d / 64) == Shown(lastPc, todo, Jumped)
        && Rest() == TaggedChunks(d / 64) + Ahead(lastPc, lastData, todo, Jumped, size)
      requires !JumpNext() ==>
        && b == 63 && Long(todo[0].mode, Delta()) && 0 <= todo[0].pc - pc
        && Rest() == [todo[0].pc - pc] + Ahead(lastPc, lastData, todo, Placed, size)
      modifies this`pos, this`pc, this`phase
      ensures Synced() && end <= pos <= old(pos)
    {
      hide TaggedChunks, Ahead, Backward, Wrap;
      if b / 64 == 1 {
        ReadLongJump((todo[0].pc - lastPc) / 64, Ahead(lastPc, lastData, todo, Jumped, size));
        phase := Jumped;
      } else {
        SomethingLeft();
        var low := ReadByte();
        pc := pc + low;
        phase := Placed;
      }
    }

    /** `DebugInfoModeFromTag`. */
    function ModeFromTag(tag: nat): nat {
      if tag == 1 then STATEMENT_POSITION else if tag == 0 then POSITION else COMMENT
    }

    /** The data byte of a short position: skipped, unless this kind of position is wanted. */
    method ReadPositionToken() returns (stop: bool)
      requires todo != [] && Writable(lastPc, todo, size) && end <= pos <= buffer.Length && (size == 4 || size == 8)
      requires IsPosition(todo[0].mode) && Small(Delta()) && pc == todo[0].pc
      requires Rest() == [(2 * Delta() + DataTag(todo[0].mode)) % 256] + Tail()
      modifies this`pos, this`mode, this`data, this`todo, this`lastPc, this`lastData, this`phase
      ensures Synced() && pos <= old(pos) && Consumed(stop)
    {
      hide EncodeAll, Backward, Wrap, Writable, NextData;
      ghost var e, delta := todo[0], Delta();
      SomethingLeft();
      SignedByte(delta, DataTag(e.mode));
      var b := ReadByte();
      stop := false;
      if POSITION in mask || STATEMENT_POSITION in mask {
        stop := SetMode(ModeFromTag(b % 2));
        if stop {
          var signed: int := b;
          if b >= 128 { signed := signed - 256; }
          data := Wrap(data + signed / 2, size);
        }
      }
      Pass();
    }

    lemma SkipWord(word: Bytes, tail: Bytes)
      requires end <= pos <= buffer.Length && |word| == size && Rest() == word + tail
      ensures end + size <= pos && Backward(buffer[..], end, pos - size) == tail
    {
      assert |Rest()| == pos - end;
      BackwardDrop(buffer[..], end, pos, size);
      assert Rest()[size..] == tail;
    }

    /** The word of a long entry: added whenever any mode with data is wanted, otherwise skipped. */
    method ReadDataToken(b: nat) returns (stop: bool)
      requires todo != [] && Writable(lastPc, todo, size) && end <= pos <= buffer.Length && (size == 4 || size == 8)
      requires Long(todo[0].mode, Delta()) && pc == todo[0].pc && b == 59 + 64 * DataTag(todo[0].mode)
      requires Rest() == DataBytes(Delta(), size) + Tail()
      modifies this`pos, this`mode, this`data, this`todo, this`lastPc, this`lastData, this`phase
      ensures Synced() && pos <= old(pos) && Consumed(stop)
    {
      hide EncodeAll, Backward, Wrap, DataBytes;
      stop := false;
      if POSITION in mask || STATEMENT_POSITION in mask || COMMENT in mask {
        ReadData(Delta(), Tail());
        stop := SetMode(ModeFromTag(b / 64));
      } else {
        SkipWord(DataBytes(Delta(), size), Tail());
        pos := pos - size;
      }
      Pass();
    }

    lemma SyncedFacts()
      requires Synced()
      ensures (size == 4 || size == 8) && end <= pos <= buffer.Length
    {
    }

    /** An entry without data leaves the running data alone. */
    lemma NoDelta(lastData: int, data: int, e: Entry, mask: set<nat>, size: nat)
      requires !HasData(e.mode)
      ensures DataAfter(lastData, data, e, mask, size) == data
    {
      hide Wrap;
    }

    /** The tokens with an extra tag. */
    method DefaultToken(b: nat) returns (stop: bool)
      requires todo != [] && Writable(lastPc, todo, size) && end <= pos <= buffer.Length && (size == 4 || size == 8)
      requires todo[0].mode < MAX_MODES
      requires JumpNext() ==>
        var d := todo[0].pc - lastPc;
        && b == 127 && 0 < d / 64 < Pow128(4) && pc + 64 * (d / 64) == Shown(lastPc, todo, Jumped)
        && Rest() == TaggedChunks(d / 64) + Ahead(lastPc, lastData, todo, Jumped, size)
      requires phase.Placed? ==>
        && pc == todo[0].pc && Long(todo[0].mode, Delta()) && b == 59 + 64 * DataTag(todo[0].mode)
        && Rest() == DataBytes(Delta(), size) + Tail()
      requires !JumpNext() && !phase.Placed? ==>
        var e, low := todo[0], todo[0].pc - pc;
        && 0 <= low < 64
        && if HasData(e.mode) then
             b == 63 && Long(e.mode, Delta()) && Rest() == [low] + Ahead(lastPc, lastData, todo, Placed, size)
           else b == 4 * e.mode + 3 && Rest() == [low] + Tail()
      modifies this`pos, this`pc, this`mode, this`data, this`todo, this`lastPc, this`lastData, this`phase
      ensures Synced() && pos <= old(pos) && Consumed(stop)
    {
      hide Backward, EncodeAll, DataBytes, TaggedChunks, Wrap, Ahead, Shown, Synced, DataAfter, NextData, Writable;
      ModeTags(todo[0].mode, todo[0].pc - pc);
      stop := false;
      if b / 4 % 16 == PC_JUMP_TAG {
        ReadJumpToken(b);
      } else if b / 4 % 16 == DATA_JUMP_TAG {
        stop := ReadDataToken(b);
      } else {
        NoDelta(lastData, data, todo[0], mask, size);
        SomethingLeft();
        var low := ReadByte();
        pc := pc + low;
        stop := SetMode(b / 4 % 16);
        Pass();
      }
    }

    /** One turn of the loop of `next`. */
    method Token() returns (stop: bool)
      requires Synced() && end < pos
      modifies this`pos, this`pc, this`mode, this`data, this`todo, this`lastPc, this`lastData, this`phase
      ensures Synced() && pos < old(pos) && Consumed(stop)
    {
      hide Backward, EncodeAll, DataBytes, TaggedChunks, Wrap, Ahead, Shown, Synced, DataAfter, NextData, Writable;
      SyncedFacts();
      NextToken();
      if !HasData(todo[0].mode) { NoDelta(lastData, data, todo[0], mask, size); }
      ghost var e := todo[0];
      ModeTags(e.mode, e.pc - pc);
      var b := ReadByte();
      stop := false;
      if b % 4 == EMBEDDED_OBJECT_TAG {
        pc := pc + b / 4;
        stop := SetMode(EMBEDDED_OBJECT);
        Pass();
      } else if b % 4 == CODE_TARGET_TAG {
        pc := pc + b / 4;
        stop := SetMode(CODE_TARGET);
        Pass();
      } else if b % 4 == POSITION_TAG {
        pc := pc + b / 4;
        stop := ReadPositionToken();
      } else {
        stop := DefaultToken(b);
      }
    }

    /** What the iterator shows, and what it will stop at from here on. */
    ghost function Current(): Entry
      reads this`pc, this`mode, this`data
    {
      Entry(pc, mode, data)
    }

    ghost function Coming(): seq<Entry>
      reads this`todo, this`lastData, this`data
    {
      Deliver(lastData, data, todo, mask, size)
    }

    /** After `next`: either at the first entry still to be delivered, or done. */
    ghost predicate At(out: seq<Entry>)
      reads this, buffer
    {
      if out == [] then done else !done && Synced() && Current() == out[0] && Coming() == out[1..]
    }

    /** What the first entry contributes to the deliveries. */
    lemma TokenDelivers()
      requires Synced() && end < pos
      ensures todo != []
      ensures var e := todo[0];
              var data' := DataAfter(lastData, data, e, mask, size);
              Coming() == (if e.mode in mask then [Entry(e.pc, e.mode, data')] else [])
                          + Deliver(NextData(lastData, e), data', todo[1..], mask, size)
    {
      NonEmpty();
    }

    lemma NothingAhead()
      requires Synced() && pos <= end
      ensures Coming() == []
    {
      hide Backward;
      assert |Rest()| == 0;
      if todo != [] { AheadSize(lastPc, lastData, todo, phase, size); }
    }

    /** `next`. */
    method Next()
      requires Synced() && !done
      modifies this`pos, this`pc, this`mode, this`data, this`todo, this`lastPc, this`lastData, this`phase, this`done
      ensures At(old(Coming()))
    {
      hide Synced, Deliver, DataAfter;
      ghost var out := Coming();
      SyncedFacts();
      while pos > end
        invariant Synced() && !done && Coming() == out
        decreases pos
      {
        SyncedFacts();
        TokenDelivers();
        var stop := Token();
        if stop {
          return;
        }
      }
      NothingAhead();
      done := true;
    }

    /** The constructor of the source: it already moves to the first wanted entry. */
    constructor (buffer: array<nat>, end: nat, pc: int, size: nat, mask: set<nat>, ghost entries: seq<Entry>)
      requires (size == 4 || size == 8) && end <= buffer.Length && Writable(pc, entries, size)
      requires Backward(buffer[..], end, buffer.Length) == EncodeAll(pc, 0, entries, size)
      ensures this.buffer == buffer && this.size == size && this.mask == mask
      ensures At(Deliver(0, 0, entries, mask, size))
    {
      this.buffer, this.end, this.size, this.mask := buffer, end, size, mask;
      this.pc, this.mode, this.data, this.done := pc, 0, 0, false;
      pos := buffer.Length;
      todo, lastPc, lastData, phase := entries, pc, 0, Boundary;
      new;
      if mask == {} {
        pos := end;
        NothingWanted(0, 0, entries, size);
        done := true;
      } else {
        Next();
      }
    }
  }

  lemma {:induction false} EverythingWanted(entries: seq<Entry>, mask: set<nat>)
    requires forall m :: 0 <= m < MAX_MODES ==> m in mask
    requires forall i :: 0 <= i < |entries| ==> entries[i].mode < MAX_MODES
    ensures Wanted(entries, mask) == entries
  {
    if entries != [] {
      EverythingWanted(entries[1..], mask);
      assert entries[0].mode in mask;
    }
  }
}
