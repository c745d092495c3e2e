/** `nextLWZ` of gif.mod/gif/readGIF.c: prefix and suffix tables, and an output stack. */
module GifLzwReader {
  import opened Bits
  import opened GifBitReader
  import opened LzwReference

  function Reversed(s: seq<nat>): (r: seq<nat>)
    ensures |r| == |s|
    ensures forall i :: 0 <= i < |s| ==> r[i] == s[|s| - 1 - i]
  {
    if s == [] then [] else [s[|s| - 1]] + Reversed(s[..|s| - 1])
  }

  lemma ReversedPush(s: seq<nat>, x: nat)
    ensures Reversed(s + [x]) == [x] + Reversed(s)
  {
    assert (s + [x])[..|s|] == s;
  }

  /** The bits hold the codes, each as wide as the decoder expects, then End and less than a byte more. */
  ghost predicate HoldsCodes(bits: seq<bool>, d: Decoder, codes: seq<nat>) {
    var end := Run(d, codes);
    var needed := Pack(d, codes) + ToBits(end.End(), end.width);
    needed <= bits && |bits| < |needed| + 8
  }

  lemma Peel(bits: seq<bool>, head: seq<bool>, rest: seq<bool>)
    requires head + rest <= bits
    ensures |head| <= |bits| && bits[..|head|] == head && rest <= bits[|head|..]
  {
    assert bits[..|head + rest|] == head + rest;
    assert bits[|head|..|head + rest|] == rest;
  }

  /** Reading the next code off such bits. */
  lemma FirstCode(d: Decoder, codes: seq<nat>)
    requires Accepted(d, codes) && codes != []
    ensures d.Accepts(codes[0])
    ensures Pack(d, codes) == ToBits(codes[0], d.width) + Pack(d.Step(codes[0]), codes[1..])
    ensures Run(d, codes) == Run(d.Step(codes[0]), codes[1..])
  {
    hide ToBits, Decoder.Step, Decoder.Accepts;
  }

  lemma Associate(a: seq<bool>, b: seq<bool>, c: seq<bool>)
    ensures (a + b) + c == a + (b + c)
  {
  }

  lemma HoldsNext(bits: seq<bool>, d: Decoder, codes: seq<nat>)
    requires HoldsCodes(bits, d, codes) && d.Good() && Accepted(d, codes) && codes != []
    ensures d.width <= |bits| && bits[..d.width] == ToBits(codes[0], d.width) && codes[0] < Pow2(d.width)
    ensures HoldsCodes(bits[d.width..], d.Step(codes[0]), codes[1..])
  {
    hide ToBits, Decoder.Good, Pow2, Decoder.Step, Decoder.Accepts, Pack, Run, Accepted;
    FirstCode(d, codes);
    StepIsGood(d, codes[0]);
    var rest := Pack(d.Step(codes[0]), codes[1..]);
    var end := Run(d, codes);
    var last := ToBits(end.End(), end.width);
    Associate(ToBits(codes[0], d.width), rest, last);
    Peel(bits, ToBits(codes[0], d.width), rest + last);
  }

  lemma EndFits(d: Decoder)
    requires d.Good()
    ensures d.End() < Pow2(d.width)
  {
    MinBitsBound(d.minBits);
    Pow2Monotone(d.minBits + 1, d.width);
    assert Pow2(d.minBits + 1) == 2 * Pow2(d.minBits);
  }

  lemma HoldsEnd(bits: seq<bool>, d: Decoder)
    requires HoldsCodes(bits, d, []) && d.Good()
    ensures d.width <= |bits| < d.width + 8 && bits[..d.width] == ToBits(d.End(), d.width)
    ensures d.End() < Pow2(d.width)
  {
    hide ToBits, Decoder.Good;
    EndFits(d);
    assert Pack(d, []) + ToBits(d.End(), d.width) == ToBits(d.End(), d.width);
  }

  /** Codes that lead to a decoder ready for End produce pixels unless there are none of them left. */
  lemma {:induction false} SomethingToDecode(d: Decoder, codes: seq<nat>)
    requires d.Good() && Accepted(d, codes) && Run(d, codes).previous != []
    ensures codes == [] <==> Decode(d, codes) == []
    decreases codes
  {
    hide ToBits, Pow2;
    if codes != [] {
      StepIsGood(d, codes[0]);
      if codes[0] == d.Clear() {
        SomethingToDecode(d.Step(codes[0]), codes[1..]);
      } else {
        WordLength(d, codes[0]);
      }
    }
  }

  ghost predicate Spelled(prefix: seq<nat>, suffix: seq<nat>, words: seq<Pixels>, clear: nat, k: nat)
    requires |prefix| == |suffix| == MAX_CODES && k < |words| <= MAX_CODES
  {
    && prefix[k] < k && (prefix[k] < clear || clear + 2 <= prefix[k])
    && words[k] == words[prefix[k]] + [suffix[k]]
  }

  /** Prefix and suffix tables that spell the dictionary; prefixes strictly decrease. */
  ghost predicate Spell(prefix: seq<nat>, suffix: seq<nat>, words: seq<Pixels>, clear: nat) {
    && |prefix| == |suffix| == MAX_CODES && clear + 2 <= |words| <= MAX_CODES
    && (forall k :: 0 <= k < clear ==> suffix[k] == k && words[k] == [k])
    && (forall k :: clear + 2 <= k < |words| ==> Spelled(prefix, suffix, words, clear, k))
  }

  lemma WidthInRange(d: Decoder)
    requires d.Good()
    ensures 3 <= d.width <= 12
  {
  }

  /** The reader's doubling of `max_code_size` is the decoder's widening. */
  lemma StepInCounters(d: Decoder, code: nat)
    requires d.Good() && d.Accepts(code) && d.previous != [] && code != d.Clear() && code != d.End()
    ensures Pow2(d.width) < MAX_CODES <==> d.width < MAX_BITS
    ensures Pow2(d.width + 1) == 2 * Pow2(d.width)
    ensures d.Step(code).previous == d.Word(code) && d.Step(code).minBits == d.minBits
    ensures code < |d.Step(code).words| && d.Step(code).words[code] == d.Word(code)
    ensures |d.words| < MAX_CODES ==>
      && d.Step(code).words == d.words + [d.previous + [d.Word(code)[0]]]
      && d.Step(code).width == if |d.words| + 1 >= Pow2(d.width) && d.width < MAX_BITS then d.width + 1 else d.width
    ensures |d.words| == MAX_CODES ==> d.Step(code).words == d.words && d.Step(code).width == d.width
  {
    hide Initial;
    WordLength(d, code);
    Pow2Monotone(d.width, MAX_BITS);
    assert Pow2(MAX_BITS) == MAX_CODES && Pow2(MAX_BITS - 1) < MAX_CODES;
    if d.width < MAX_BITS { Pow2Monotone(d.width, MAX_BITS - 1); }
  }

  lemma SpellGrows(prefix: seq<nat>, suffix: seq<nat>, words: seq<Pixels>, clear: nat, old_: nat, first: nat)
    requires Spell(prefix, suffix, words, clear) && |words| < MAX_CODES
    requires old_ < |words| && old_ != clear && old_ != clear + 1
    ensures Spell(prefix[|words| := old_], suffix[|words| := first], words + [words[old_] + [first]], clear)
  {
    var n, p, s := |words|, prefix[|words| := old_], suffix[|words| := first];
    var more := words + [words[old_] + [first]];
    forall k | clear + 2 <= k < |more| ensures Spelled(p, s, more, clear, k) {
      if k < n { assert Spelled(prefix, suffix, words, clear, k); }
    }
  }

  /** What follows Clear is another Clear or a literal. */
  lemma FirstAfterClear(minBits: nat, codes: seq<nat>)
    requires 2 <= minBits < MAX_BITS
    requires Accepted(Fresh(minBits), codes) && Run(Fresh(minBits), codes).previous != []
    ensures codes != [] && (codes[0] == Pow2(minBits) || codes[0] < Pow2(minBits))
    ensures Run(Fresh(minBits), codes) == Run(Fresh(minBits).Step(codes[0]), codes[1..])
    ensures Decode(Fresh(minBits), codes)
            == (if codes[0] == Pow2(minBits) then [] else [codes[0]])
               + Decode(Fresh(minBits).Step(codes[0]), codes[1..])
    ensures codes[0] == Pow2(minBits) ==> Fresh(minBits).Step(codes[0]) == Fresh(minBits)
    ensures codes[0] != Pow2(minBits) ==> Fresh(minBits).Step(codes[0]) == Fresh(minBits).(previous := [codes[0]])
    ensures Fresh(minBits).Step(codes[0]).Good()
  {
    FreshIsGood(minBits);
    StepIsGood(Fresh(minBits), codes[0]);
  }

  lemma NothingReversed()
    ensures Reversed([]) == []
  {
  }

  lemma FirstStep(d: Decoder, codes: seq<nat>)
    requires d.Good() && Accepted(d, codes) && codes != []
    ensures codes[0] != d.End() && d.Accepts(codes[0])
    ensures codes[0] == d.Clear() ==> d.Step(codes[0]) == Fresh(d.minBits)
    ensures Decode(d, codes)
            == (if codes[0] == d.Clear() then [] else d.Word(codes[0])) + Decode(d.Step(codes[0]), codes[1..])
  {
  }

  class LzwReader {
    const bits: BitReader
    const prefix: array<nat>
    const suffix: array<nat>
    const stack: array<nat>
    const setCodeSize: nat
    const clearCode: nat
    const endCode: nat
    var sp: nat
    var firstCode: nat
    var oldCode: nat
    var codeSize: nat
    var maxCode: nat
    var maxCodeSize: nat
    var returnClear: bool
    // Where the reference decoder stands, and the codes before End that are still to be read.
    ghost var decoder: Decoder
    ghost var codes: seq<nat>

    ghost predicate ArraysValid() {
      && prefix.Length == suffix.Length == MAX_CODES && stack.Length == 2 * MAX_CODES
      && prefix != suffix && prefix != stack && suffix != stack
      && bits.buf != prefix && bits.buf != suffix && bits.buf != stack
    }

    /** The reader's counters against the reference decoder: the widths are in lockstep. */
    ghost predicate Lockstep()
      reads this`codeSize, this`maxCode, this`maxCodeSize, this`decoder
    {
      && 2 <= setCodeSize < MAX_BITS && decoder.Good() && decoder.minBits == setCodeSize
      && clearCode == decoder.Clear() && endCode == decoder.End()
      && codeSize == decoder.width && maxCodeSize == Pow2(codeSize) && maxCode == |decoder.words|
    }

    /** The tables spell the dictionary and `oldcode`/`firstcode` describe the previous string. */
    ghost predicate TablesValid()
      requires ArraysValid()
      reads this`oldCode, this`firstCode, this`decoder, prefix, suffix
    {
      && Spell(prefix[..], suffix[..], decoder.words, clearCode)
      && (decoder.previous != [] ==>
            && oldCode < |decoder.words| && oldCode != clearCode && oldCode != endCode
            && decoder.words[oldCode] == decoder.previous && firstCode == decoder.previous[0])
    }

    ghost predicate Valid()
      reads this, prefix, suffix, stack, bits, bits.buf
      ensures Valid() ==> sp <= stack.Length
    {
      && ArraysValid() && Lockstep() && StreamFor(decoder) && sp <= stack.Length
      && (if returnClear then decoder == Fresh(setCodeSize) && sp == 0 else TablesValid() && decoder.previous != [])
    }

    /** The bits still to be read hold the codes still to be read, for a decoder in state d. */
    ghost predicate StreamFor(d: Decoder)
      reads this`codes, bits, bits.buf
    {
      && bits.Valid() && Accepted(d, codes) && Run(d, codes).previous != []
      && HoldsCodes(bits.Remaining(), d, codes)
    }

    /** The pixels still to be returned: those on the stack, top first, then those of the codes to come. */
    ghost function Output(): seq<nat>
      requires sp <= stack.Length
      reads this`sp, this`decoder, this`codes, stack
    {
      Reversed(stack[..sp]) + Decode(decoder, codes)
    }

    /** `initLWZ`. */
    constructor (bits: BitReader, codeSize: nat, ghost codes: seq<nat>)
      requires bits.Valid() && 2 <= codeSize <= 8
      requires Accepted(Fresh(codeSize), codes) && Run(Fresh(codeSize), codes).previous != []
      requires HoldsCodes(bits.Remaining(), Fresh(codeSize), codes)
      ensures Valid() && this.bits == bits && fresh(prefix) && fresh(suffix) && fresh(stack)
      ensures Output() == Decode(Fresh(codeSize), codes)
    {
      this.bits, setCodeSize := bits, codeSize;
      this.codeSize, clearCode, endCode := codeSize + 1, Pow2(codeSize), Pow2(codeSize) + 1;
      maxCodeSize, maxCode := 2 * Pow2(codeSize), Pow2(codeSize) + 2;
      prefix, suffix, stack := new nat[MAX_CODES], new nat[MAX_CODES], new nat[2 * MAX_CODES];
      firstCode, oldCode, sp, returnClear := 0, 0, 0, true;
      decoder, this.codes := Fresh(codeSize), codes;
      new;
      hide Accepted, Run, HoldsCodes, Decode, BitReader.Valid;
      FreshIsGood(codeSize);
    }

    /** `nextCode` after its first call: the next code of the stream. */
    method NextCode() returns (code: nat)
      requires Lockstep() && StreamFor(decoder) && !returnClear
      modifies this`codes
      modifies bits`pos, bits`zeroDataBlock, bits`blocks, bits`getDone
      modifies bits`lastByte, bits`curbit, bits`lastbit, bits.buf
      ensures old(codes) != [] ==> code == old(codes)[0] && codes == old(codes)[1..] && StreamFor(decoder.Step(code))
      ensures old(codes) == [] ==> code == endCode && bits.Valid() && |bits.Remaining()| < 8
    {
      hide ToBits, Decoder.Good, Decoder.Step, Decoder.Accepts, Pow2, BitReader.Remaining, HoldsCodes;
      ghost var before := bits.Remaining();
      WidthInRange(decoder);
      if codes != [] {
        HoldsNext(before, decoder, codes);
      } else {
        HoldsEnd(before, decoder);
      }
      code := bits.ReadCode(codeSize);
      if codes != [] {
        ToBitsInjective(code, codes[0], codeSize);
        codes := codes[1..];
      } else {
        ToBitsInjective(code, decoder.End(), codeSize);
      }
    }

    /** The table and counter reset on reading Clear. */
    method ClearTables()
      requires ArraysValid() && clearCode + 2 <= MAX_CODES
      requires decoder == Fresh(setCodeSize) && clearCode == decoder.Clear()
      modifies this`codeSize, this`maxCode, this`maxCodeSize, this`sp, prefix, suffix
      ensures codeSize == setCodeSize + 1 && maxCodeSize == 2 * clearCode && maxCode == clearCode + 2 && sp == 0
      ensures TablesValid()
    {
      for i := 0 to clearCode
        invariant forall k :: 0 <= k < i ==> suffix[k] == k
      {
        prefix[i], suffix[i] := 0, i;
      }
      for i := clearCode to MAX_CODES
        invariant forall k :: 0 <= k < clearCode ==> suffix[k] == k
      {
        prefix[i], suffix[i] := 0, 0;
      }
      codeSize, maxCodeSize, maxCode, sp := setCodeSize + 1, 2 * clearCode, clearCode + 2, 0;
    }

    lemma TableAt(code: nat)
      requires ArraysValid() && Spell(prefix[..], suffix[..], decoder.words, clearCode) && code < |decoder.words|
      ensures code < MAX_CODES
      ensures code < clearCode ==> decoder.words[code] == [code] == [suffix[code]]
      ensures clearCode + 2 <= code ==>
        && prefix[code] < code && (prefix[code] < clearCode || clearCode + 2 <= prefix[code])
        && decoder.words[code] == decoder.words[prefix[code]] + [suffix[code]]
    {
      if clearCode + 2 <= code {
        assert Spelled(prefix[..], suffix[..], decoder.words, clearCode, code);
      } else if code < clearCode {
        assert suffix[..][code] == code;
      }
    }

    method Push(x: nat)
      requires sp < stack.Length
      modifies this`sp, stack
      ensures sp == old(sp) + 1 && Reversed(stack[..sp]) == [x] + Reversed(old(stack[..sp]))
    {
      stack[sp] := x;
      sp := sp + 1;
      assert stack[..sp] == old(stack[..sp]) + [x];
      ReversedPush(old(stack[..sp]), x);
    }

    /** The string of a data code goes onto the stack, last pixel first. */
    method PushWord(incode: nat)
      requires ArraysValid() && Lockstep() && TablesValid() && sp == 0
      requires decoder.previous != [] && decoder.Accepts(incode) && incode != clearCode && incode != endCode
      modifies this`sp, this`firstCode, stack
      ensures 0 < sp <= stack.Length && Reversed(stack[..sp]) == decoder.Word(incode)
      ensures firstCode == decoder.Word(incode)[0]
    {
      hide Decoder.Good, Reversed, Pow2, Spell;
      WordLength(decoder, incode);
      ghost var word := decoder.Word(incode);
      var code: nat := incode;
      if code >= maxCode {
        Push(firstCode);
        code := oldCode;
      }
      assert Reversed([]) == [];
      assert decoder.words[code] + Reversed(stack[..sp]) == word;
      while code >= clearCode
        invariant ArraysValid() && sp <= |word| && code < |decoder.words| && code != clearCode && code != endCode
        invariant decoder.words[code] + Reversed(stack[..sp]) == word
        decreases code
      {
        TableAt(code);
        Push(suffix[code]);
        if code == prefix[code] { assert false; }
        code := prefix[code];
      }
      TableAt(code);
      firstCode := suffix[code];
      Push(firstCode);
    }

    /** The new table entry, one behind the encoder's, and the width for the next code. */
    method AddEntry(incode: nat)
      requires ArraysValid() && Lockstep() && Spell(prefix[..], suffix[..], decoder.words, clearCode)
      requires decoder.previous != [] && decoder.Accepts(incode) && incode != clearCode && incode != endCode
      requires decoder.Word(incode) != [] && firstCode == decoder.Word(incode)[0]
      requires oldCode < |decoder.words| && decoder.words[oldCode] == decoder.previous
      requires oldCode != clearCode && oldCode != endCode
      modifies this`oldCode, this`codeSize, this`maxCode, this`maxCodeSize, this`decoder, prefix, suffix
      ensures Lockstep() && TablesValid() && decoder == old(decoder).Step(incode)
    {
      hide Decoder.Good, Spell, Pow2, Decoder.Accepts;
      StepIsGood(decoder, incode);
      StepInCounters(decoder, incode);
      WordLength(decoder, incode);
      var code := maxCode;
      if code < MAX_CODES {
        SpellGrows(prefix[..], suffix[..], decoder.words, clearCode, oldCode, firstCode);
        prefix[code] := oldCode;
        suffix[code] := firstCode;
        assert prefix[..] == old(prefix[..])[code := oldCode] && suffix[..] == old(suffix[..])[code := firstCode];
        maxCode := maxCode + 1;
        if maxCode >= maxCodeSize && maxCodeSize < MAX_CODES {
          maxCodeSize := maxCodeSize * 2;
          codeSize := codeSize + 1;
        }
      }
      oldCode := incode;
      decoder := decoder.Step(incode);
    }

    /** Between Clear and the first literal after it. */
    ghost predicate Cleared()
      reads this, prefix, suffix, bits, bits.buf
    {
      && ArraysValid() && Lockstep() && Spell(prefix[..], suffix[..], decoder.words, clearCode)
      && StreamFor(decoder) && sp == 0 && !returnClear
    }

    /** One turn of the inner loop: another Clear, or the literal that ends it. */
    method ReadFirst()
      requires Cleared() && decoder == Fresh(setCodeSize)
      modifies this`firstCode, this`oldCode, this`decoder, this`codes
      modifies bits`pos, bits`zeroDataBlock, bits`blocks, bits`getDone
      modifies bits`lastByte, bits`curbit, bits`lastbit, bits.buf
      ensures Cleared() && |codes| < |old(codes)|
      ensures if firstCode == clearCode then
                decoder == Fresh(setCodeSize) && Decode(decoder, codes) == old(Decode(decoder, codes))
              else
                && oldCode == firstCode < clearCode && decoder.previous == [firstCode]
                && firstCode < |decoder.words| && decoder.words[firstCode] == [firstCode]
                && [firstCode] + Decode(decoder, codes) == old(Decode(decoder, codes))
    {
      hide Run, Accepted, Decode, HoldsCodes, BitReader.Valid, Spell, Initial, Decoder.Good, Decoder.Step;
      FirstAfterClear(setCodeSize, codes);
      firstCode := NextCode();
      oldCode := firstCode;
      decoder := decoder.Step(firstCode);
    }

    /** The Clear branch: reset, skip further Clears, and return the first literal. */
    method AfterClear() returns (v: nat)
      requires ArraysValid() && StreamFor(Fresh(setCodeSize)) && !returnClear && 2 <= setCodeSize < MAX_BITS
      requires clearCode == Pow2(setCodeSize) && endCode == clearCode + 1
      modifies this, prefix, suffix
      modifies bits`pos, bits`zeroDataBlock, bits`blocks, bits`getDone
      modifies bits`lastByte, bits`curbit, bits`lastbit, bits.buf
      ensures Valid() && sp == 0
      ensures [v] + Decode(decoder, codes) == Decode(Fresh(setCodeSize), old(codes))
    {
      hide Decode, StreamFor, Spell, Initial, Decoder.Good;
      decoder := Fresh(setCodeSize);
      FreshIsGood(setCodeSize);
      MinBitsBound(setCodeSize);
      ClearTables();
      ReadFirst();
      while firstCode == clearCode
        invariant Cleared()
        invariant if firstCode == clearCode then
                    decoder == Fresh(setCodeSize) && Decode(decoder, codes) == Decode(Fresh(setCodeSize), old(codes))
                  else
                    && oldCode == firstCode < clearCode && decoder.previous == [firstCode]
                    && firstCode < |decoder.words| && decoder.words[firstCode] == [firstCode]
                    && [firstCode] + Decode(decoder, codes) == Decode(Fresh(setCodeSize), old(codes))
        decreases |codes|
      {
        ReadFirst();
      }
      v := firstCode;
    }

    /** What the next code can be, and what it contributes. */
    lemma NextStep()
      requires Valid() && sp == 0
      ensures Output() == Decode(decoder, codes) && (codes == [] <==> Output() == [])
      ensures codes != [] ==>
        && codes[0] != endCode && decoder.Accepts(codes[0])
        && (codes[0] == clearCode ==> decoder.Step(codes[0]) == Fresh(setCodeSize))
        && Output() == (if codes[0] == clearCode then [] else decoder.Word(codes[0]))
                       + Decode(decoder.Step(codes[0]), codes[1..])
      ensures clearCode == Pow2(setCodeSize)
    {
      hide HoldsCodes, BitReader.Valid, Spell, Decoder.Step, Decode;
      assert stack[..0] == [];
      NothingReversed();
      SomethingToDecode(decoder, codes);
      if codes != [] { FirstStep(decoder, codes); }
    }

    lemma ArrayFacts()
      requires ArraysValid()
      ensures stack != prefix && stack != suffix && stack != bits.buf && prefix != bits.buf && suffix != bits.buf
      ensures stack.Length == 2 * MAX_CODES
    {
    }

    lemma LockstepFacts()
      requires Lockstep()
      ensures decoder.Good() && clearCode == decoder.Clear() && endCode == decoder.End()
    {
    }

    lemma TableFacts()
      requires ArraysValid() && TablesValid() && decoder.previous != []
      ensures Spell(prefix[..], suffix[..], decoder.words, clearCode) && oldCode < |decoder.words|
      ensures decoder.words[oldCode] == decoder.previous && oldCode != clearCode && oldCode != endCode
    {
      hide Spell;
    }

    /** A data code: its string onto the stack, then the table entry. */
    method TakeWord(code: nat)
      requires ArraysValid() && Lockstep() && TablesValid() && sp == 0 && decoder.previous != []
      requires decoder.Accepts(code) && code != clearCode && code != endCode
      modifies this`sp, this`firstCode, this`oldCode, this`codeSize, this`maxCode, this`maxCodeSize, this`decoder
      modifies prefix, suffix, stack
      ensures Lockstep() && TablesValid() && decoder == old(decoder).Step(code) && decoder.previous != []
      ensures 0 < sp <= stack.Length && Reversed(stack[..sp]) == old(decoder).Word(code)
    {
      hide LzwReader.Lockstep, LzwReader.TablesValid;
      hide Spell, Decoder.Good, Decoder.Step, Decoder.Accepts, Decoder.Word, Reversed;
      LockstepFacts();
      TableFacts();
      WordLength(decoder, code);
      StepInCounters(decoder, code);
      PushWord(code);
      assert prefix[..] == old(prefix[..]) && suffix[..] == old(suffix[..]);
      AddEntry(code);
    }

    /** A data code: its string, then the table entry, then the first pixel of the string. */
    method PopWord(code: nat) returns (v: nat)
      requires ArraysValid() && Lockstep() && TablesValid() && sp == 0 && !returnClear && decoder.previous != []
      requires decoder.Accepts(code) && code != clearCode && code != endCode && StreamFor(decoder.Step(code))
      modifies this`sp, this`firstCode, this`oldCode, this`codeSize, this`maxCode, this`maxCodeSize, this`decoder
      modifies prefix, suffix, stack
      ensures Valid() && [v] + Output() == old(decoder.Word(code) + Decode(decoder.Step(code), codes))
    {
      hide LzwReader.StreamFor, LzwReader.Lockstep, LzwReader.TablesValid;
      hide Decode, Decoder.Step, Decoder.Accepts, Decoder.Word, Reversed, LzwReader.ArraysValid;
      ArrayFacts();
      TakeWord(code);
      sp := sp - 1;
      v := stack[sp];
      ReversedPush(stack[..sp], v);
      assert stack[..sp] + [v] == stack[..sp + 1];
    }

    /** `nextLWZ`, called when the stack is empty: the next pixel, or -2 once End has been read. */
    method NextPixel() returns (v: int)
      requires Valid() && sp == 0
      modifies this, prefix, suffix, stack
      modifies bits`pos, bits`zeroDataBlock, bits`blocks, bits`getDone
      modifies bits`lastByte, bits`curbit, bits`lastbit, bits.buf
      ensures old(Output()) != [] ==> v >= 0 && Valid() && [v] + Output() == old(Output())
      ensures old(Output()) == [] ==> v == -2 && bits.pos <= |bits.file| && bits.file[bits.pos..] == bits.tail
    {
      hide Decode, StreamFor, TablesValid, Decoder.Good, Decoder.Step, Reversed, BitReader.Valid;
      NextStep();
      var code;
      if returnClear {
        returnClear := false;
        code := clearCode;
      } else {
        code := NextCode();
      }
      if code == clearCode {
        v := AfterClear();
        assert stack[..0] == [];
        return;
      }
      if code == endCode {
        bits.SkipToTerminator();
        return -2;
      }
      v := PopWord(code);
    }

    /** `readLWZ`: the top of the stack, or the next code's string. */
    method Read() returns (v: int)
      requires Valid()
      modifies this, prefix, suffix, stack
      modifies bits`pos, bits`zeroDataBlock, bits`blocks, bits`getDone
      modifies bits`lastByte, bits`curbit, bits`lastbit, bits.buf
      ensures old(Output()) != [] ==> v >= 0 && Valid() && [v] + Output() == old(Output())
      ensures old(Output()) == [] ==> v == -2 && bits.pos <= |bits.file| && bits.file[bits.pos..] == bits.tail
    {
      hide Decode, StreamFor, TablesValid, Decoder.Good, Reversed;
      if sp > 0 {
        sp := sp - 1;
        v := stack[sp];
        ReversedPush(stack[..sp], stack[sp]);
        assert stack[..sp] + [stack[sp]] == old(stack[..sp]);
      } else {
        v := NextPixel();
      }
    }
  }
}
