/** Whole runs: a list of entries is written, then iterated over with some mask. */
module RelocRoundTrip {
  import opened Arithmetic
  import opened RelocFormat
  import I = RelocIterator
  import W = RelocWriter

  lemma Room(i: nat, n: nat, max: nat)
    requires i < n
    ensures i * max + max <= n * max && (i + 1) * max == i * max + max
  {
    Ordered(i + 1, n, max);
    assert (i + 1) * max == i * max + max;
  }

  lemma Rejoin(a: Bytes, b: Bytes, c: Bytes)
    ensures a + (b + c) == (a + b) + c
  {
  }

  method WriteAll(w: W.RelocInfoWriter, entries: seq<Entry>)
    requires (w.size == 4 || w.size == 8) && Writable(w.lastPc, entries, w.size)
    requires |entries| * W.MaxSize(w.size) <= w.pos <= w.buffer.Length
    modifies w, w.buffer
    ensures old(w.pos) - |entries| * W.MaxSize(w.size) <= w.pos <= w.buffer.Length
    ensures w.Written() == old(w.Written()) + EncodeAll(old(w.lastPc), old(w.lastData), entries, w.size)
  {
    hide Encode, W.Backward;
    ghost var all := old(w.Written()) + EncodeAll(old(w.lastPc), old(w.lastData), entries, w.size);
    var i: nat := 0;
    while i < |entries|
      invariant i <= |entries| && Writable(w.lastPc, entries[i..], w.size)
      invariant old(w.pos) - i * W.MaxSize(w.size) <= w.pos <= w.buffer.Length
      invariant w.Written() + EncodeAll(w.lastPc, w.lastData, entries[i..], w.size) == all
    {
      Room(i, |entries|, W.MaxSize(w.size));
      ghost var before, rest := w.Written(), entries[i..];
      ghost var pc, data := w.lastPc, w.lastData;
      assert rest[0] == entries[i] && rest[1..] == entries[i + 1..];
      w.Write(entries[i]);
      Rejoin(before, Encode(pc, data, entries[i], w.size), EncodeAll(w.lastPc, w.lastData, rest[1..], w.size));
      i := i + 1;
    }
    assert entries[i..] == [];
  }

  /** The loop every user of an iterator writes. */
  method Collect(it: I.RelocIterator, ghost coming: seq<Entry>) returns (out: seq<Entry>)
    requires it.At(coming)
    modifies it
    ensures out == coming
  {
    hide I.RelocIterator.Synced, Deliver;
    ghost var rest := coming;
    out := [];
    while !it.done
      invariant it.At(rest) && out + rest == coming
      decreases |rest|
    {
      out := out + [Entry(it.pc, it.mode, it.data)];
      rest := rest[1..];
      it.Next();
    }
  }

  lemma Nothing(s: Bytes)
    ensures W.Backward(s, |s|, |s|) == []
  {
  }

  /** What the data shown are, starting from an empty iterator. */
  lemma DataOfRun(pc: int, entries: seq<Entry>, mask: set<nat>, size: nat)
    requires (size == 4 || size == 8) && Writable(pc, entries, size)
    ensures forall e :: e in Deliver(0, 0, entries, mask, size) ==> InRange(e.data, size)
    ensures if 7 in mask || 8 in mask || 9 in mask then
              Deliver(0, 0, entries, mask, size) == DataShown(0, 0, entries, mask, size)
            else forall e :: e in Deliver(0, 0, entries, mask, size) ==> e.data == 0
  {
    hide Deliver, DataShown, Wrap, InRange;
    WordRange(0);
    WrapIdentity(0, size);
    DeliversWords(0, 0, entries, mask, size);
    if 7 in mask || 8 in mask || 9 in mask {
      DeliversShown(0, 0, entries, mask, size);
    } else {
      DeliversNoData(0, 0, entries, mask, size);
    }
  }

  /** When they are right: no short position is skipped, both position modes are wanted, or no data is. */
  lemma DataIsRight(pc: int, entries: seq<Entry>, mask: set<nat>, size: nat)
    requires (size == 4 || size == 8) && Writable(pc, entries, size)
    ensures KeepsData(mask) || ((7 in mask || 8 in mask || 9 in mask) && NoneSkipped(0, entries, mask, size)) ==>
      SameData(Deliver(0, 0, entries, mask, size), Wanted(entries, mask))
  {
    hide Deliver, DataShown, Wanted, SameData, NoneSkipped, InRange;
    if KeepsData(mask) {
      if POSITION in mask {
        DataIsExact(pc, 0, entries, mask, size);
      } else {
        NoDataWanted(0, 0, entries, mask, size);
      }
    } else if NoneSkipped(0, entries, mask, size) {
      DataOfRun(pc, entries, mask, size);
      ShownIsExact(pc, 0, entries, mask, size);
    }
  }

  lemma {:induction false} ModesAreSmall(pc: int, entries: seq<Entry>, size: nat)
    requires Writable(pc, entries, size)
    ensures forall i :: 0 <= i < |entries| ==> entries[i].mode < MAX_MODES
    decreases entries
  {
    if entries != [] { ModesAreSmall(entries[0].pc, entries[1..], size); }
  }

  /**
   Whatever the mask, iterating over what was written delivers the program counters and modes of exactly the
   wanted entries, in order; their data too, where the mask keeps data, and otherwise the data that the skipped
   deltas leave, always a machine word. With the full mask nothing is missing.
   */
  method RoundTrip(pc: int, entries: seq<Entry>, size: nat, mask: set<nat>) returns (out: seq<Entry>)
    requires (size == 4 || size == 8) && Writable(pc, entries, size)
    ensures out == Deliver(0, 0, entries, mask, size) && forall e :: e in out ==> InRange(e.data, size)
    ensures SamePlaces(out, Wanted(entries, mask))
    ensures if 7 in mask || 8 in mask || 9 in mask then out == DataShown(0, 0, entries, mask, size)
            else forall e :: e in out ==> e.data == 0
    ensures KeepsData(mask) ==> SameData(out, Wanted(entries, mask))
    ensures (7 in mask || 8 in mask || 9 in mask) && NoneSkipped(0, entries, mask, size) ==>
      SameData(out, Wanted(entries, mask))
    ensures (forall m :: 0 <= m < MAX_MODES ==> m in mask) ==> SamePlaces(out, entries) && SameData(out, entries)
  {
    hide EncodeAll, Deliver, DataShown, Wanted, SamePlaces, SameData, NoneSkipped, InRange, W.Backward;
    NonNegative(|entries|, W.MaxSize(size));
    var buffer := new nat[|entries| * W.MaxSize(size)];
    var w := new W.RelocInfoWriter(buffer, pc, size);
    Nothing(buffer[..]);
    WriteAll(w, entries);
    var it := new I.RelocIterator(buffer, w.pos, pc, size, mask, entries);
    out := Collect(it, Deliver(0, 0, entries, mask, size));
    PlacesAreExact(0, 0, entries, mask, size);
    DataOfRun(pc, entries, mask, size);
    DataIsRight(pc, entries, mask, size);
    if forall m :: 0 <= m < MAX_MODES ==> m in mask {
      ModesAreSmall(pc, entries, size);
      I.EverythingWanted(entries, mask);
      assert POSITION in mask && STATEMENT_POSITION in mask;
    }
  }
}
