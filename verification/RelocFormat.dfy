/**
 The compact encoding of relocation info (v8.mod/src/assembler.cpp), in the order in which it is read:
 delta-coded program counters and data, tagged short forms, and variable-length jumps.
 */
module RelocFormat {
  import opened Arithmetic
  import Bits
  type Bytes = seq<nat>

  // Relocation modes.
  const CODE_TARGET: nat := 2
  const EMBEDDED_OBJECT: nat := 3
  const COMMENT: nat := 7
  const POSITION: nat := 8
  const STATEMENT_POSITION: nat := 9
  const MAX_MODES: nat := 14

  // Tags.
  const EMBEDDED_OBJECT_TAG: nat := 0
  const CODE_TARGET_TAG: nat := 1
  const POSITION_TAG: nat := 2
  const DEFAULT_TAG: nat := 3
  const DATA_JUMP_TAG: nat := 14
  const PC_JUMP_TAG: nat := 15

  datatype Entry = Entry(pc: int, mode: nat, data: int)

  predicate IsPosition(mode: nat) {
    mode == POSITION || mode == STATEMENT_POSITION
  }

  /** The modes that carry data. */
  predicate HasData(mode: nat) {
    IsPosition(mode) || mode == COMMENT
  }

  // ------------------------------------------------------------------ machine words

  /** 256 to the power n. */
  function Pow256(n: nat): (p: nat)
    ensures p >= 1
  {
    if n == 0 then 1 else 256 * Pow256(n - 1)
  }

  /** The signed value of a word of `size` bytes. */
  function Wrap(v: int, size: nat): int {
    (v + Pow256(size) / 2) % Pow256(size) - Pow256(size) / 2
  }

  predicate InRange(v: int, size: nat) {
    -(Pow256(size) / 2) <= v < Pow256(size) - Pow256(size) / 2
  }

  lemma RemainderOfSmall(v: int, m: int)
    requires 0 <= v < m
    ensures v % m == v
  {
  }

  lemma WrapIdentity(v: int, size: nat)
    requires InRange(v, size)
    ensures Wrap(v, size) == v
  {
    RemainderOfSmall(v + Pow256(size) / 2, Pow256(size));
  }

  lemma WrapInRange(v: int, size: nat)
    ensures InRange(Wrap(v, size), size)
  {
  }

  lemma WrapSame(a: int, b: int, k: int, size: nat)
    requires a == b + Pow256(size) * k
    ensures Wrap(a, size) == Wrap(b, size)
  {
    var m, h := Pow256(size), Pow256(size) / 2;
    var q := (b + h) / m;
    assert b + h == m * q + (b + h) % m;
    assert m * (q + k) == m * q + m * k;
    Quotient(a + h, m, q + k, (b + h) % m);
  }

  lemma WrapIsSame(v: int, size: nat) returns (k: int)
    ensures Wrap(v, size) == v + Pow256(size) * k
  {
    var h := Pow256(size) / 2;
    k := -((v + h) / Pow256(size));
    assert v + h == Pow256(size) * ((v + h) / Pow256(size)) + (v + h) % Pow256(size);
  }

  /** Adding a wrapped difference restores the word it was taken from. */
  lemma DeltaRestores(last: int, data: int, size: nat)
    requires InRange(data, size)
    ensures Wrap(last + Wrap(data - last, size), size) == data
  {
    var k := WrapIsSame(data - last, size);
    WrapSame(last + Wrap(data - last, size), data, k, size);
    WrapIdentity(data, size);
  }

  // ------------------------------------------------------------------ the encoding

  /** The low bytes of a word, lowest first. */
  function DataBytes(v: int, size: nat): (b: Bytes)
    ensures |b| == size
    decreases size
  {
    if size == 0 then [] else [v % 256] + DataBytes(v / 256, size - 1)
  }

  lemma {:induction false} WordOfDataBytes(v: int, size: nat) returns (k: int)
    ensures v == Bits.LittleEndian(DataBytes(v, size)) + Pow256(size) * k
    decreases size
  {
    if size == 0 {
      k := v;
    } else {
      k := WordOfDataBytes(v / 256, size - 1);
      assert v == v % 256 + 256 * (v / 256);
      assert 256 * (Pow256(size - 1) * k) == Pow256(size) * k;
    }
  }

  /** Seven bits to a byte, lowest first; bit 0 tags the last one. */
  function TaggedChunks(jump: nat): Bytes
    requires jump > 0
  {
    if jump < 128 then [2 * jump + 1] else [2 * (jump % 128)] + TaggedChunks(jump / 128)
  }

  /** The chunks before the last one is tagged. */
  function Chunks(jump: nat): Bytes {
    if jump == 0 then [] else [2 * (jump % 128)] + Chunks(jump / 128)
  }

  lemma {:induction false} TagLastChunk(jump: nat)
    requires jump > 0
    ensures Chunks(jump) != [] && Chunks(jump)[|Chunks(jump)| - 1] % 2 == 0 && Chunks(jump)[|Chunks(jump)| - 1] < 255
    ensures TaggedChunks(jump) == Chunks(jump)[..|Chunks(jump)| - 1] + [Chunks(jump)[|Chunks(jump)| - 1] + 1]
    decreases jump
  {
    if jump >= 128 { TagLastChunk(jump / 128); }
  }

  function ExtraTag(extra: nat, top: nat): nat {
    top * 64 + extra * 4 + DEFAULT_TAG
  }

  /** The bits of a pc delta that do not fit the short form. */
  function Jump(pcDelta: nat): Bytes {
    if pcDelta < 64 then [] else [ExtraTag(PC_JUMP_TAG, 1)] + TaggedChunks(pcDelta / 64)
  }

  predicate Small(dataDelta: int) {
    -64 <= dataDelta < 64
  }

  function DataTag(mode: nat): nat {
    if mode == POSITION then 0 else if mode == STATEMENT_POSITION then 1 else 2
  }

  /** An entry whose pc delta has been reduced to its low six bits. */
  function Body(low: nat, mode: nat, dataDelta: int, size: nat): Bytes {
    if mode == EMBEDDED_OBJECT then [low * 4 + EMBEDDED_OBJECT_TAG]
    else if mode == CODE_TARGET then [low * 4 + CODE_TARGET_TAG]
    else if IsPosition(mode) && Small(dataDelta) then
      [low * 4 + POSITION_TAG, (2 * dataDelta + DataTag(mode)) % 256]
    else if HasData(mode) then
      [ExtraTag(PC_JUMP_TAG, 0), low, ExtraTag(DATA_JUMP_TAG, DataTag(mode))] + DataBytes(dataDelta, size)
    else [ExtraTag(mode, 0), low]
  }

  /** The bytes of an entry, given what was written before it. */
  function Encode(lastPc: int, lastData: int, e: Entry, size: nat): Bytes
    requires lastPc <= e.pc
  {
    Jump(e.pc - lastPc) + Body((e.pc - lastPc) % 64, e.mode, Wrap(e.data - lastData, size), size)
  }

  /** The tables at assembler.cpp:86-114, in numbers: modes, and what follows the jump. */
  lemma EncodingTable(lastPc: int, lastData: int, e: Entry, size: nat)
    requires lastPc <= e.pc
    ensures var d, delta := e.pc - lastPc, Wrap(e.data - lastData, size);
            Encode(lastPc, lastData, e, size) == Jump(d) +
              if e.mode == 3 then [4 * (d % 64)]
              else if e.mode == 2 then [4 * (d % 64) + 1]
              else if e.mode == 8 && -64 <= delta <= 63 then [4 * (d % 64) + 2, 2 * delta % 256]
              else if e.mode == 9 && -64 <= delta <= 63 then [4 * (d % 64) + 2, (2 * delta + 1) % 256]
              else if e.mode == 8 then [63, d % 64, 59] + DataBytes(delta, size)
              else if e.mode == 9 then [63, d % 64, 123] + DataBytes(delta, size)
              else if e.mode == 7 then [63, d % 64, 187] + DataBytes(delta, size)
              else [4 * e.mode + 3, d % 64]
  {
    hide Wrap, DataBytes, Jump;
  }

  /** The jump in numbers: none below 64, and else one byte for every seven bits of what is left above the low six. */
  lemma JumpTable(d: nat)
    requires d < 0x1_0000_0000
    ensures Jump(d) ==
            if d < 0x40 then []
            else if d < 0x2000 then [127, 2 * (d / 64) + 1]
            else if d < 0x10_0000 then [127, 2 * (d / 64 % 128), 2 * (d / 64 / 128) + 1]
            else if d < 0x800_0000 then
              [127, 2 * (d / 64 % 128), 2 * (d / 64 / 128 % 128), 2 * (d / 64 / 128 / 128) + 1]
            else
              [127, 2 * (d / 64 % 128), 2 * (d / 64 / 128 % 128), 2 * (d / 64 / 128 / 128 % 128),
               2 * (d / 64 / 128 / 128 / 128) + 1]
  {
    if d >= 0x2000 { assert TaggedChunks(d / 64) == [2 * (d / 64 % 128)] + TaggedChunks(d / 64 / 128); }
    if d >= 0x10_0000 {
      assert TaggedChunks(d / 64 / 128) == [2 * (d / 64 / 128 % 128)] + TaggedChunks(d / 64 / 128 / 128);
    }
    if d >= 0x800_0000 {
      assert TaggedChunks(d / 64 / 128 / 128)
          == [2 * (d / 64 / 128 / 128 % 128)] + TaggedChunks(d / 64 / 128 / 128 / 128);
    }
  }

  /** The words in numbers: what fits them. */
  lemma WordRange(v: int)
    ensures InRange(v, 4) <==> -0x8000_0000 <= v < 0x8000_0000
    ensures InRange(v, 8) <==> -0x8000_0000_0000_0000 <= v < 0x8000_0000_0000_0000
  {
    assert Pow256(4) == 0x1_0000_0000;
    assert Pow256(8) == 0x1_0000_0000_0000_0000;
  }

  lemma BytesFromFourth(v: int, more: nat)
    ensures DataBytes(v, 4 + more)
            == [v % 256, v / 256 % 256, v / 256 / 256 % 256, v / 256 / 256 / 256 % 256]
               + DataBytes(v / 256 / 256 / 256 / 256, more)
  {
    var a, b, c := v / 256, v / 256 / 256, v / 256 / 256 / 256;
    assert DataBytes(v, 4 + more) == [v % 256] + DataBytes(a, 3 + more);
    assert DataBytes(a, 3 + more) == [a % 256] + DataBytes(b, 2 + more);
    assert DataBytes(b, 2 + more) == [b % 256] + DataBytes(c, 1 + more);
    assert DataBytes(c, 1 + more) == [c % 256] + DataBytes(c / 256, more);
  }

  /** Their bytes, lowest first. */
  lemma WordBytes(v: int)
    ensures DataBytes(v, 4) == [v % 256, v / 256 % 256, v / 256 / 256 % 256, v / 256 / 256 / 256 % 256]
    ensures DataBytes(v, 8)[..4] == DataBytes(v, 4) && DataBytes(v, 8)[4..] == DataBytes(v / 256 / 256 / 256 / 256, 4)
  {
    BytesFromFourth(v, 4);
    BytesFromFourth(v, 0);
  }

  function NextData(lastData: int, e: Entry): int {
    if HasData(e.mode) then e.data else lastData
  }

  /** Entries a writer may be given: program counters do not decrease, and deltas and words fit. */
  ghost predicate Writable(lastPc: int, entries: seq<Entry>, size: nat)
    decreases entries
  {
    entries == [] ||
    (&& lastPc <= entries[0].pc < lastPc + 0x1_0000_0000 && entries[0].mode < MAX_MODES
     && InRange(entries[0].data, size) && Writable(entries[0].pc, entries[1..], size))
  }

  /** In numbers: modes up to 13, and gaps below 2^32. */
  lemma OneWritable(lastPc: int, e: Entry, size: nat)
    ensures Writable(lastPc, [e], size) <==>
            0 <= e.pc - lastPc < 0x1_0000_0000 && e.mode <= 13 && InRange(e.data, size)
  {
    assert Writable(e.pc, [e][1..], size);
  }

  function EncodeAll(lastPc: int, lastData: int, entries: seq<Entry>, size: nat): Bytes
    requires Writable(lastPc, entries, size)
    decreases entries
  {
    if entries == [] then []
    else Encode(lastPc, lastData, entries[0], size)
         + EncodeAll(entries[0].pc, NextData(lastData, entries[0]), entries[1..], size)
  }

  function Pow128(n: nat): (p: nat)
    ensures p >= 1
  {
    if n == 0 then 1 else 128 * Pow128(n - 1)
  }

  /** How many bytes the chunks of a jump take. */
  lemma {:induction false} ChunkCount(jump: nat, n: nat)
    requires 0 < jump && 1 <= n && jump < Pow128(n)
    ensures 1 <= |TaggedChunks(jump)| <= n
    decreases n
  {
    if jump >= 128 { ChunkCount(jump / 128, n - 1); }
  }

  /** No entry takes more than 16 bytes, or 12 where words have 4 bytes. */
  lemma EntrySize(lastPc: int, lastData: int, e: Entry, size: nat)
    requires lastPc <= e.pc < lastPc + 0x1_0000_0000 && e.mode < MAX_MODES && 1 <= size
    ensures 1 <= |Encode(lastPc, lastData, e, size)| <= 8 + size
  {
    var d := e.pc - lastPc;
    if d >= 64 {
      assert Pow128(4) == 0x1000_0000;
      ChunkCount(d / 64, 4);
    }
  }

  // ------------------------------------------------------------------ what an iterator delivers

  /** Whether an iterator with this mask adds the entry's data delta to its running data. */
  predicate Counted(mode: nat, dataDelta: int, mask: set<nat>) {
    if IsPosition(mode) && Small(dataDelta) then mode in mask
    else HasData(mode) && (POSITION in mask || STATEMENT_POSITION in mask || COMMENT in mask)
  }

  function DataAfter(lastData: int, data: int, e: Entry, mask: set<nat>, size: nat): int {
    var delta := Wrap(e.data - lastData, size);
    if Counted(e.mode, delta, mask) then Wrap(data + delta, size) else data
  }

  /** The entries an iterator with this mask stops at, with the data it then shows. */
  function Deliver(lastData: int, data: int, entries: seq<Entry>, mask: set<nat>, size: nat): seq<Entry>
    decreases entries
  {
    if entries == [] then []
    else
      var e := entries[0];
      var data' := DataAfter(lastData, data, e, mask, size);
      (if e.mode in mask then [Entry(e.pc, e.mode, data')] else [])
      + Deliver(NextData(lastData, e), data', entries[1..], mask, size)
  }

  /** The entries whose mode is wanted. */
  function Wanted(entries: seq<Entry>, mask: set<nat>): seq<Entry> {
    if entries == [] then []
    else (if entries[0].mode in mask then [entries[0]] else []) + Wanted(entries[1..], mask)
  }

  /** The same program counters and modes. */
  ghost predicate SamePlaces(a: seq<Entry>, b: seq<Entry>) {
    |a| == |b| && forall i :: 0 <= i < |a| ==> a[i].pc == b[i].pc && a[i].mode == b[i].mode
  }

  /** The same data wherever the mode carries data. */
  ghost predicate SameData(a: seq<Entry>, b: seq<Entry>) {
    |a| == |b| && forall i :: 0 <= i < |a| && HasData(b[i].mode) ==> a[i].data == b[i].data
  }

  /** With any mask, iterating delivers the program counters and modes of exactly the wanted entries. */
  lemma {:induction false} PlacesAreExact(lastData: int, data: int, entries: seq<Entry>, mask: set<nat>, size: nat)
    ensures SamePlaces(Deliver(lastData, data, entries, mask, size), Wanted(entries, mask))
    decreases entries
  {
    if entries != [] {
      var e := entries[0];
      PlacesAreExact(NextData(lastData, e), DataAfter(lastData, data, e, mask, size), entries[1..], mask, size);
    }
  }

  /** The running data stays a machine word, whatever the mask. */
  lemma {:induction false} DeliversWords(lastData: int, data: int, entries: seq<Entry>, mask: set<nat>, size: nat)
    requires InRange(data, size)
    ensures forall e :: e in Deliver(lastData, data, entries, mask, size) ==> InRange(e.data, size)
    decreases entries
  {
    if entries != [] {
      var e := entries[0];
      WrapInRange(data + Wrap(e.data - lastData, size), size);
      DeliversWords(NextData(lastData, e), DataAfter(lastData, data, e, mask, size), entries[1..], mask, size);
    }
  }

  // ------------------------------------------------------------------ the data shown

  /** The short data deltas of positions skipped so far, once e has been passed. */
  function Lost(lastData: int, lost: int, e: Entry, mask: set<nat>, size: nat): int {
    var delta := Wrap(e.data - lastData, size);
    if (e.mode == 8 || e.mode == 9) && -64 <= delta <= 63 && e.mode !in mask then lost + delta else lost
  }

  /** The data written last. */
  function LastData(lastData: int, e: Entry): int {
    if e.mode == 7 || e.mode == 8 || e.mode == 9 then e.data else lastData
  }

  /**
   What an iterator shows that reads the long deltas of all entries and the short ones of wanted positions: the data
   of the entry, or the last before it, less the short deltas of the positions skipped so far.
   */
  function DataShown(lastData: int, lost: int, entries: seq<Entry>, mask: set<nat>, size: nat): seq<Entry>
    decreases entries
  {
    if entries == [] then []
    else
      var e := entries[0];
      var last', lost' := LastData(lastData, e), Lost(lastData, lost, e, mask, size);
      (if e.mode in mask then [Entry(e.pc, e.mode, Wrap(last' - lost', size))] else [])
      + DataShown(last', lost', entries[1..], mask, size)
  }

  /** Words are equal when their integers differ by whole turns. */
  lemma WrapOfWrapped(a: int, b: int, size: nat)
    ensures Wrap(Wrap(a, size) + b, size) == Wrap(a + b, size)
    ensures Wrap(a + Wrap(b, size), size) == Wrap(a + b, size)
  {
    hide Wrap;
    var j := WrapIsSame(a, size);
    var k := WrapIsSame(b, size);
    WrapSame(Wrap(a, size) + b, a + b, j, size);
    WrapSame(a + Wrap(b, size), a + b, k, size);
  }

  /** One entry: the running data stays the last data less what was lost. */
  lemma OneShown(lastData: int, lost: int, e: Entry, mask: set<nat>, size: nat)
    requires 7 in mask || 8 in mask || 9 in mask
    ensures NextData(lastData, e) == LastData(lastData, e)
    ensures DataAfter(lastData, Wrap(lastData - lost, size), e, mask, size)
            == Wrap(LastData(lastData, e) - Lost(lastData, lost, e, mask, size), size)
  {
    hide Wrap;
    var delta := Wrap(e.data - lastData, size);
    WrapOfWrapped(lastData - lost, delta, size);
    WrapOfWrapped(lastData - lost, e.data - lastData, size);
    var k := WrapIsSame(e.data - lastData, size);
    WrapSame(e.data - (lost + delta), lastData - lost, -k, size);
  }

  /** With at least one mode with data wanted, that is what iterating delivers. */
  lemma {:induction false} DeliversShown(lastData: int, lost: int, entries: seq<Entry>, mask: set<nat>, size: nat)
    requires 7 in mask || 8 in mask || 9 in mask
    ensures Deliver(lastData, Wrap(lastData - lost, size), entries, mask, size)
            == DataShown(lastData, lost, entries, mask, size)
    decreases entries
  {
    hide Wrap, DataAfter, NextData, LastData, Lost;
    if entries != [] {
      var e := entries[0];
      OneShown(lastData, lost, e, mask, size);
      DeliversShown(LastData(lastData, e), Lost(lastData, lost, e, mask, size), entries[1..], mask, size);
    }
  }

  /** With none, the data stays what it was. */
  lemma {:induction false} DeliversNoData(lastData: int, data: int, entries: seq<Entry>, mask: set<nat>, size: nat)
    requires 7 !in mask && 8 !in mask && 9 !in mask
    ensures forall e :: e in Deliver(lastData, data, entries, mask, size) ==> e.data == data
    decreases entries
  {
    if entries != [] { DeliversNoData(NextData(lastData, entries[0]), data, entries[1..], mask, size); }
  }

  /** No position is skipped that has a short delta. */
  ghost predicate NoneSkipped(lastData: int, entries: seq<Entry>, mask: set<nat>, size: nat)
    decreases entries
  {
    entries == [] ||
    var e := entries[0];
    && ((e.mode == 8 || e.mode == 9) && -64 <= Wrap(e.data - lastData, size) <= 63 ==> e.mode in mask)
    && NoneSkipped(NextData(lastData, e), entries[1..], mask, size)
  }

  /** Then the data shown is right. */
  lemma {:induction false} ShownIsExact(lastPc: int, lastData: int, entries: seq<Entry>, mask: set<nat>, size: nat)
    requires Writable(lastPc, entries, size) && NoneSkipped(lastData, entries, mask, size)
    ensures SameData(DataShown(lastData, 0, entries, mask, size), Wanted(entries, mask))
    decreases entries
  {
    hide Wrap, InRange;
    if entries != [] {
      var e := entries[0];
      WrapIdentity(e.data, size);
      ShownIsExact(e.pc, NextData(lastData, e), entries[1..], mask, size);
    }
  }

  /** The masks with which no data delta is lost: both position modes, or no mode with data at all. */
  predicate KeepsData(mask: set<nat>) {
    (POSITION in mask && STATEMENT_POSITION in mask)
    || (POSITION !in mask && STATEMENT_POSITION !in mask && COMMENT !in mask)
  }

  /** With both position modes wanted, the running data is the data written last. */
  lemma DataFollows(lastData: int, e: Entry, mask: set<nat>, size: nat)
    requires InRange(e.data, size) && POSITION in mask && STATEMENT_POSITION in mask
    ensures DataAfter(lastData, lastData, e, mask, size) == NextData(lastData, e)
  {
    DeltaRestores(lastData, e.data, size);
  }

  lemma {:induction false} DataIsExact(lastPc: int, lastData: int, entries: seq<Entry>, mask: set<nat>, size: nat)
    requires Writable(lastPc, entries, size) && POSITION in mask && STATEMENT_POSITION in mask
    ensures SameData(Deliver(lastData, lastData, entries, mask, size), Wanted(entries, mask))
    decreases entries
  {
    hide Wrap, InRange, DataAfter;
    if entries != [] {
      var e := entries[0];
      DataFollows(lastData, e, mask, size);
      DataIsExact(e.pc, NextData(lastData, e), entries[1..], mask, size);
    }
  }

  lemma {:induction false} NoDataWanted(lastData: int, data: int, entries: seq<Entry>, mask: set<nat>, size: nat)
    requires POSITION !in mask && STATEMENT_POSITION !in mask && COMMENT !in mask
    ensures SameData(Deliver(lastData, data, entries, mask, size), Wanted(entries, mask))
    decreases entries
  {
    if entries != [] {
      var e := entries[0];
      NoDataWanted(NextData(lastData, e), DataAfter(lastData, data, e, mask, size), entries[1..], mask, size);
    }
  }

  /** A skipped position, followed by an entry whose data is wanted. */
  function Spoiler(mask: set<nat>): seq<Entry> {
    var skipped := if POSITION !in mask then POSITION else STATEMENT_POSITION;
    var wanted := if COMMENT in mask then COMMENT else if POSITION in mask then POSITION else STATEMENT_POSITION;
    [Entry(0, skipped, 1), Entry(0, wanted, 2)]
  }

  lemma TwoEntries(e: Entry, f: Entry, mask: set<nat>, size: nat)
    requires e.mode !in mask && f.mode in mask
    ensures var data := DataAfter(0, 0, e, mask, size);
            Deliver(0, 0, [e, f], mask, size)
            == [Entry(f.pc, f.mode, DataAfter(NextData(0, e), data, f, mask, size))]
    ensures Wanted([e, f], mask) == [f]
  {
    hide DataAfter;
    var s, r, data, last := [e, f], [f], DataAfter(0, 0, e, mask, size), NextData(0, e);
    assert s[1..] == r && r[1..] == [];
    assert Deliver(NextData(last, f), DataAfter(last, data, f, mask, size), [], mask, size) == [];
    assert Deliver(last, data, r, mask, size) == [Entry(f.pc, f.mode, DataAfter(last, data, f, mask, size))];
    assert Wanted(r, mask) == r;
  }

  lemma SmallWords(size: nat)
    requires 1 <= size
    ensures InRange(0, size) && InRange(1, size) && InRange(2, size)
  {
    assert Pow256(size) >= 256;
  }

  /** A data delta of one, counted or not. */
  lemma DeltaOfOne(lastData: int, e: Entry, mask: set<nat>, size: nat)
    requires 1 <= size && e.data == lastData + 1
    ensures DataAfter(lastData, 0, e, mask, size) == if Counted(e.mode, 1, mask) then 1 else 0
  {
    SmallWords(size);
    WrapIdentity(1, size);
  }

  lemma SpoilerSpoils(mask: set<nat>, size: nat)
    requires !KeepsData(mask) && 1 <= size
    ensures Writable(0, Spoiler(mask), size)
    ensures !SameData(Deliver(0, 0, Spoiler(mask), mask, size), Wanted(Spoiler(mask), mask))
  {
    hide DataAfter, Deliver, Wanted, InRange;
    var s := Spoiler(mask);
    SmallWords(size);
    TwoEntries(s[0], s[1], mask, size);
    DeltaOfOne(0, s[0], mask, size);
    DeltaOfOne(1, s[1], mask, size);
    assert s[1..] == [s[1]] && [s[1]][1..] == [];
    assert Writable(0, s[1..], size);
  }

  /**
   Data is exact for every list of entries exactly when the mask keeps data; any other mask skips some data
   deltas without adding them.
   */
  lemma DataIsExactIff(mask: set<nat>, size: nat)
    requires 1 <= size
    ensures KeepsData(mask) <==> forall entries :: Writable(0, entries, size) ==>
      SameData(Deliver(0, 0, entries, mask, size), Wanted(entries, mask))
  {
    if KeepsData(mask) {
      forall entries | Writable(0, entries, size)
        ensures SameData(Deliver(0, 0, entries, mask, size), Wanted(entries, mask))
      {
        if POSITION in mask {
          DataIsExact(0, 0, entries, mask, size);
        } else {
          NoDataWanted(0, 0, entries, mask, size);
        }
      }
    } else {
      SpoilerSpoils(mask, size);
    }
  }
}
