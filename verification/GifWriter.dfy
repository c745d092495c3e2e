/** `putImage` of gif.mod/gif/writegif.c: LZW compression of one image. */
module GifWriter {
  import opened Bits
  import opened GifCodeWriter
  import opened GifGreedy
  import opened GifImage
  import opened GifInterlace
  import opened GifPacket
  import opened GifStringTable
  import opened LzwEncoder
  import opened LzwReference
  import opened SubBlocks

  // ------------------------------------------------------------------ fetching pixels

  /** The pixels not fetched yet: `left - 1` more of the current run, then the rows still to come. */
  function Rest(interlaced: bool, width: nat, height: nat, data: seq<nat>,
                dp: nat, left: nat, pass: nat, cury: nat): seq<nat>
    requires IsImage(width, height, data) && pass <= 3
    requires 1 <= left && dp + left - 1 <= |data|
  {
    data[dp..dp + left - 1] + if interlaced then GatherAfter(data, width, height, pass, cury) else []
  }

  lemma Uncons(data: seq<nat>, from: nat, to: nat, tail: seq<nat>)
    requires from < to <= |data|
    ensures data[from..to] + tail == [data[from]] + (data[from + 1..to] + tail)
  {
    assert data[from..to] == [data[from]] + data[from + 1..to];
  }

  lemma RestEmpty(interlaced: bool, width: nat, height: nat, data: seq<nat>, dp: nat, left: nat, pass: nat, cury: nat)
    requires IsImage(width, height, data) && pass <= 3 && 1 <= left && dp + left - 1 <= |data|
    ensures Rest(interlaced, width, height, data, dp, left, pass, cury) == []
            <==> left == 1 && (!interlaced || GatherAfter(data, width, height, pass, cury) == [])
  {
  }

  /** Inside a run, the pixel at `dp` is next. */
  lemma RestInRun(interlaced: bool, width: nat, height: nat, data: seq<nat>, dp: nat, left: nat, pass: nat, cury: nat)
    requires IsImage(width, height, data) && pass <= 3 && 2 <= left && dp + left - 1 <= |data|
    ensures Rest(interlaced, width, height, data, dp, left, pass, cury)
            == [data[dp]] + Rest(interlaced, width, height, data, dp + 1, left - 1, pass, cury)
  {
    Uncons(data, dp, dp + left - 1, if interlaced then GatherAfter(data, width, height, pass, cury) else []);
  }

  /** At the end of a run, the first pixel of the next row is next. */
  lemma RestNewRun(width: nat, height: nat, data: seq<nat>, dp: nat, pass0: nat, cury0: nat, pass: nat, cury: nat)
    requires IsImage(width, height, data) && pass0 <= 3 && pass <= 3 && dp <= |data|
    requires 1 <= width && cury * width + width <= |data|
    requires GatherAfter(data, width, height, pass0, cury0)
             == data[cury * width..cury * width + width] + GatherAfter(data, width, height, pass, cury)
    ensures Rest(true, width, height, data, dp, 1, pass0, cury0)
            == [data[cury * width]] + Rest(true, width, height, data, cury * width + 1, width, pass, cury)
  {
    hide GatherAfter, IsImage;
    var start := cury * width;
    var after := GatherAfter(data, width, height, pass0, cury0);
    assert data[dp..dp] + after == after;
    Uncons(data, start, start + width, GatherAfter(data, width, height, pass, cury));
  }

  /** The end of a run: the next interlaced row, if there is one. */
  method NextRun(interlaced: bool, width: nat, height: nat, data: seq<nat>, pass0: nat, cury0: nat)
    returns (done: bool, pass: nat, cury: nat)
    requires IsImage(width, height, data) && width >= 1 && pass0 <= 3
    ensures pass <= 3
    ensures done ==> !interlaced || GatherAfter(data, width, height, pass0, cury0) == []
    ensures !done ==>
      && interlaced && cury * width + width <= |data|
      && GatherAfter(data, width, height, pass0, cury0)
         == data[cury * width..cury * width + width] + GatherAfter(data, width, height, pass, cury)
  {
    hide RowsFrom, Gather, GatherAfter, IsImage;
    pass, cury, done := pass0, cury0, !interlaced;
    if interlaced {
      pass, cury := NextWriterRow(pass, cury, height);
      if cury >= height {
        GatherNothing(data, width, height, pass0, cury0);
        done := true;
      } else {
        GatherNextRow(data, width, height, pass0, cury0, pass, cury);
      }
    }
  }

  /** The pixel fetch at the top of the loop. The byte read past a run is discarded. */
  method NextPixel(interlaced: bool, width: nat, height: nat, data: seq<nat>,
                   dp0: nat, left0: nat, pass0: nat, cury0: nat)
    returns (done: bool, c: nat, dp: nat, left: nat, pass: nat, cury: nat)
    requires IsImage(width, height, data) && width >= 1 && pass0 <= 3
    requires 1 <= left0 && dp0 + left0 - 1 <= |data|
    ensures done <==> Rest(interlaced, width, height, data, dp0, left0, pass0, cury0) == []
    ensures !done ==>
      && c in data && pass <= 3 && 1 <= left && dp + left - 1 <= |data|
      && Rest(interlaced, width, height, data, dp0, left0, pass0, cury0)
         == [c] + Rest(interlaced, width, height, data, dp, left, pass, cury)
  {
    hide RowsFrom, Gather, GatherAfter, IsImage, Rest;
    RestEmpty(interlaced, width, height, data, dp0, left0, pass0, cury0);
    pass, cury, done := pass0, cury0, false;
    c := if dp0 < |data| then data[dp0] else 0;
    dp, left := dp0 + 1, left0 - 1;
    if left == 0 {
      done, pass, cury := NextRun(interlaced, width, height, data, pass, cury);
      if !done {
        RestNewRun(width, height, data, dp0, pass0, cury0, pass, cury);
        dp, left := cury * width, width;
        c := data[dp];
        dp := dp + 1;
      }
    } else {
      RestInRun(interlaced, width, height, data, dp0, left0, pass, cury);
    }
  }

  // ------------------------------------------------------------------ encoder against decoder

  /**
   The encoder's strings against the decoder's: the same while no data code has been read since Clear,
   otherwise one more, which extends the decoder's previous string by the head of the current match.
   */
  ghost predicate OneAhead(words: seq<Pixels>, d: Decoder, matched: Pixels) {
    && matched != []
    && if d.previous == [] then words == d.words
       else
         && |words| == |d.words| + 1 <= MAX_CODES
         && words[..|d.words|] == d.words
         && words[|d.words|] == d.previous + [matched[0]]
  }

  lemma InitialEntries(d: Decoder)
    requires d.Good()
    ensures d.Clear() + 2 <= |d.words| <= MAX_CODES
    ensures d.words[d.Clear()] == [] && d.words[d.End()] == []
    ensures forall k :: 0 <= k < d.Clear() ==> d.words[k] == [k]
    ensures d.previous == [] ==> |d.words| == d.Clear() + 2
  {
    var base := d.words[..d.Clear() + 2];
    assert d.words[d.Clear()] == base[d.Clear()] && d.words[d.End()] == base[d.End()];
    forall k | 0 <= k < d.Clear() ensures d.words[k] == [k] {
      assert d.words[k] == base[k];
    }
  }

  /** The decoder catches up on reading the code of the match, even when that code is not yet in its dictionary. */
  lemma CatchUp(words: seq<Pixels>, d: Decoder, ent: nat)
    requires d.Good() && ent < |words| && OneAhead(words, d, words[ent])
    ensures d.Accepts(ent) && ent != d.Clear() && ent != d.End()
    ensures d.Emits(ent) == words[ent]
    ensures d.Step(ent).words == words && d.Step(ent).previous == words[ent]
  {
    hide Decoder.Good;
    InitialEntries(d);
    if ent < |d.words| {
      assert d.words[ent] == words[..|d.words|][ent];
    }
    if d.previous != [] && ent == |d.words| {
      assert words[ent][0] == d.previous[0];
    }
    assert d.Word(ent) == words[ent];
    assert d.previous != [] ==> words == words[..|d.words|] + [words[|d.words|]];
  }

  lemma DecodeNothing(d: Decoder)
    ensures Decode(d, []) == []
  {
  }

  // ------------------------------------------------------------------ the compressor

  class Compressor {
    const writer: CodeWriter
    const table: StringTable
    // The string of every code the encoder has assigned, and the key of every one since the last Clear.
    ghost var words: seq<Pixels>
    ghost var keys: seq<nat>

    ghost predicate Valid()
      reads this, writer, writer.packet, writer.packet.accum, table, table.htab, table.codetab
    {
      && writer.Valid() && !writer.clearFlag
      && writer.freeEnt == |words| && Dictionary(writer.minBits, words, keys)
      && table.Sound(Pow2(writer.minBits) + 2, keys)
      && table.codetab != writer.packet.accum && table.htab as object != writer.packet.accum
      && table.htab as object != table.codetab
    }

    lemma MinBitsOf()
      requires Valid()
      ensures 2 <= writer.minBits <= 8
    {
    }

    lemma TableIsThatOfKeys()
      requires Valid()
      ensures AreKeys(keys) && table.htab[..] == TableOf(keys)
      ensures table.htab.Length == HSIZE && table.codetab.Length == HSIZE
    {
    }

    ghost function Repr(): set<object>
      reads this, writer
    {
      {this, writer, table, table.htab, table.codetab, writer.packet, writer.packet.accum}
    }

    /** The pixels a decoder has after the codes written so far. */
    ghost function Decoded(): seq<nat>
      reads this, writer
    {
      Decode(Fresh(writer.minBits), writer.codes)
    }

    constructor (packet: Packet, initBits: nat)
      requires packet.Valid() && packet.bytes == [] && 3 <= initBits <= 9
      ensures Valid() && fresh(writer) && fresh(table) && fresh(table.htab) && fresh(table.codetab)
      ensures writer.packet == packet && writer.minBits == initBits - 1
      ensures writer.codes == [] && writer.decoder == Fresh(initBits - 1)
      ensures words == Initial(initBits - 1) && keys == []
    {
      hide Initial, CodeWriter.Valid, StringTable.Sound, Packet.Valid, Dictionary;
      writer := new CodeWriter(packet, initBits);
      table := new StringTable();
      words, keys := Initial(initBits - 1), [];
      new;
      table.Clear(Pow2(initBits - 1) + 2);
      InitialDictionary(initBits - 1);
    }

    /** The miss branch up to the table update: the code of the match goes out. */
    method EmitMatch(ent: nat)
      requires Valid() && ent < |words| && OneAhead(words, writer.decoder, words[ent])
      modifies writer`accumulator, writer`curBits, writer`nBits, writer`maxCode, writer`clearFlag
      modifies writer`codes, writer`decoder
      modifies writer.packet`count, writer.packet`file, writer.packet`blocks, writer.packet`bytes, writer.packet.accum
      ensures Valid() && writer.codes == old(writer.codes) + [ent]
      ensures writer.decoder.words == words && writer.decoder.previous == words[ent]
      ensures Decoded() == old(Decoded()) + words[ent]
    {
      hide Initial, Pack, Run, Accepted, Decode, Decoder.Good, Decoder.Step, Decoder.Accepts, Decoder.Emits, OneAhead;
      hide StringTable.Sound, ToBits, BitsOf, Serialize, Payload, Spelled, Distinct;
      Bounds(writer.minBits, words, keys);
      CatchUp(words, writer.decoder, ent);
      Append(Fresh(writer.minBits), writer.codes, ent);
      writer.Output(ent);
    }

    /** `cl_block`: a full table is cleared and the decoder told so. */
    method ClearBlock()
      requires Valid()
      modifies writer`accumulator, writer`curBits, writer`nBits, writer`maxCode, writer`clearFlag, writer`freeEnt
      modifies writer`codes, writer`decoder, this`words, this`keys, table`filled, table.htab
      modifies writer.packet`count, writer.packet`file, writer.packet`blocks, writer.packet`bytes, writer.packet.accum
      ensures Valid() && writer.decoder == Fresh(writer.minBits)
      ensures words == Initial(writer.minBits) && keys == []
      ensures writer.codes == old(writer.codes) + [Pow2(writer.minBits)] && Decoded() == old(Decoded())
    {
      hide Initial, Pack, Run, Accepted, Decode, Serialize, Payload, BitsOf, Decoder.Good, Decoder.Step;
      hide Decoder.Accepts, Decoder.Emits, Decoder.Clear, Decoder.End, Fresh, Pow2, Dictionary;
      hide StringTable.Sound;
      TableIsThatOfKeys();
      words, keys := Initial(writer.minBits), [];
      table.Clear(Pow2(writer.minBits) + 2);
      FreshIsGood(writer.minBits);
      InitialDictionary(writer.minBits);
      ClearStep(writer.decoder);
      writer.freeEnt := Pow2(writer.initBits - 1) + 2;
      writer.clearFlag := true;
      Append(Fresh(writer.minBits), writer.codes, Pow2(writer.minBits));
      writer.Output(Pow2(writer.initBits - 1));
    }

    /** The table update of the miss branch. */
    method Learn(ent: nat, c: nat, slot: nat)
      requires Valid() && ent < |words| < 4096 && c < 256 && IsKey(Key(c, ent))
      requires slot == Slot(table.htab[..], Key(c, ent)) && (table.htab[slot] == -1 || table.htab[slot] == 0)
      modifies writer`freeEnt, this`words, this`keys, table`filled, table.htab, table.codetab
      ensures Valid() && words == old(words) + [old(words[ent]) + [c]] && keys == old(keys) + [Key(c, ent)]
    {
      hide Initial, Decode, CodeWriter.Valid, StringTable.Sound, Dictionary, Key, IsKey, Slot;
      Learned(writer.minBits, words, keys, ent, c);
      Bounds(writer.minBits, words, keys);
      table.Insert(slot, c, ent, writer.freeEnt, Pow2(writer.minBits) + 2, keys);
      writer.freeEnt := writer.freeEnt + 1;
      words := words + [words[ent] + [c]];
      keys := keys + [Key(c, ent)];
    }

    /** The whole miss branch: `output(ent); ent = c`, then a new table entry or a cleared table. */
    method Miss(ent: nat, c: nat, slot: nat)
      requires Valid() && ent < |words| && OneAhead(words, writer.decoder, words[ent])
      requires c < Pow2(writer.minBits) && c < 256 && IsKey(Key(c, ent))
      requires slot == Slot(table.htab[..], Key(c, ent)) && (table.htab[slot] == -1 || table.htab[slot] == 0)
      modifies writer`accumulator, writer`curBits, writer`nBits, writer`maxCode, writer`clearFlag, writer`freeEnt
      modifies writer`codes, writer`decoder, this`words, this`keys, table`filled, table.htab, table.codetab
      modifies writer.packet`count, writer.packet`file, writer.packet`blocks, writer.packet`bytes, writer.packet.accum
      ensures Valid() && c < |words| && words[c] == [c] && OneAhead(words, writer.decoder, [c])
      ensures Decoded() == old(Decoded()) + old(words[ent])
      ensures if old(|words|) < 4096 then
                && words == old(words) + [old(words[ent]) + [c]] && keys == old(keys) + [Key(c, ent)]
                && writer.codes == old(writer.codes) + [ent]
              else
                && words == Initial(writer.minBits) && keys == []
                && writer.codes == old(writer.codes) + [ent] + [Pow2(writer.minBits)]
    {
      hide Initial, Pack, Run, Accepted, Decode, Decoder.Good, Serialize, Payload, StringTable.Sound, Dictionary;
      hide Key, IsKey, Slot;
      Bounds(writer.minBits, words, keys);
      EmitMatch(ent);
      if writer.freeEnt < MAX_CODES {
        Learn(ent, c, slot);
      } else {
        ClearBlock();
      }
      Bounds(writer.minBits, words, keys);
      InitialWords(writer.minBits, words, keys, c);
    }

    /** The first code of every image is Clear. */
    method Start()
      requires Valid() && writer.codes == [] && writer.decoder == Fresh(writer.minBits)
      requires words == Initial(writer.minBits)
      modifies writer`accumulator, writer`curBits, writer`nBits, writer`maxCode, writer`clearFlag
      modifies writer`codes, writer`decoder
      modifies writer.packet`count, writer.packet`file, writer.packet`blocks, writer.packet`bytes, writer.packet.accum
      ensures Valid() && Decoded() == [] && writer.decoder == Fresh(writer.minBits)
      ensures writer.codes == [Pow2(writer.minBits)]
    {
      hide Initial, Pack, Accepted, Decode, Serialize, Payload, StringTable.Sound, Dictionary;
      Append(Fresh(writer.minBits), writer.codes, Pow2(writer.minBits));
      DecodeNothing(Fresh(writer.minBits));
      writer.Output(Pow2(writer.initBits - 1));
    }

    /**
     One turn of the loop: the match grows by the pixel, or its code goes out and a new match starts. A pair whose
     key is above 0 is found exactly if it has been learned since the last Clear; the pair with key 0 may have been
     forgotten.
     */
    method Consume(ent: nat, c: nat) returns (next: nat)
      requires Valid() && ent < |words| && OneAhead(words, writer.decoder, words[ent])
      requires c < Pow2(writer.minBits) && c < 256
      modifies writer`accumulator, writer`curBits, writer`nBits, writer`maxCode, writer`clearFlag, writer`freeEnt
      modifies writer`codes, writer`decoder, this`words, this`keys, table`filled, table.htab, table.codetab
      modifies writer.packet`count, writer.packet`file, writer.packet`blocks, writer.packet`bytes, writer.packet.accum
      ensures Valid() && next < |words| && OneAhead(words, writer.decoder, words[next])
      ensures Decoded() + words[next] == old(Decoded() + words[ent]) + [c]
      ensures AreKeys(old(keys)) && IsKey(4096 * c + ent)
      ensures var hit := GifStringTable.Found(TableOf(old(keys)), 4096 * c + ent);
              && (hit ==> 4096 * c + ent in old(keys)) && (4096 * c + ent > 0 && !hit ==> 4096 * c + ent !in old(keys))
              && if hit then
                   && words == old(words) && keys == old(keys) && writer.codes == old(writer.codes)
                   && words[next] == words[ent] + [c]
                 else if old(|words|) < 4096 then
                   && next == c && words == old(words) + [old(words[ent]) + [c]]
                   && keys == old(keys) + [4096 * c + ent] && writer.codes == old(writer.codes) + [ent]
                 else
                   && next == c && words == Initial(writer.minBits) && keys == []
                   && writer.codes == old(writer.codes) + [ent] + [Pow2(writer.minBits)]
      ensures old(Distinct(words)) && (c > 0 || ent > 0) ==>
        forall k :: Pow2(writer.minBits) + 2 <= k < |old(words)| && old(words)[k] == old(words[ent]) + [c] ==>
          next == k && writer.codes == old(writer.codes)
    {
      hide Initial, Decode, CodeWriter.Valid, StringTable.Sound, Dictionary, Slot, TableOf;
      Bounds(writer.minBits, words, keys);
      TableIsThatOfKeys();
      ghost var words0, keys0 := words, keys;
      var hit, slot, code := table.Find(c, ent, Pow2(writer.minBits) + 2, keys);
      if hit {
        WordOfKey(writer.minBits, words, keys, code, c, ent);
        next := code;
      } else {
        Miss(ent, c, slot);
        next := c;
      }
      if Distinct(words0) { ExtensionFound(writer.minBits, words0, keys0, ent, c, hit, next); }
    }

    /** The same turn, against the compression of the pixels still to come. */
    method Advance(ent: nat, c: nat, ghost rest: Pixels, ghost target: seq<nat>, ghost forgets: bool)
      returns (next: nat)
      requires Valid() && ent < |words| && OneAhead(words, writer.decoder, words[ent])
      requires c < Pow2(writer.minBits) && c < 256
      requires Tracked(writer.minBits, words, keys, ent, [c] + rest, writer.codes, target, forgets)
      modifies writer`accumulator, writer`curBits, writer`nBits, writer`maxCode, writer`clearFlag, writer`freeEnt
      modifies writer`codes, writer`decoder, this`words, this`keys, table`filled, table.htab, table.codetab
      modifies writer.packet`count, writer.packet`file, writer.packet`blocks, writer.packet`bytes, writer.packet.accum
      ensures Valid() && next < |words| && OneAhead(words, writer.decoder, words[next])
      ensures Decoded() + words[next] == old(Decoded() + words[ent]) + [c]
      ensures Tracked(writer.minBits, words, keys, next, rest, writer.codes, target, forgets)
    {
      hide Initial, Decode, CodeWriter.Valid, StringTable.Sound, Dictionary, OneAhead, Tracked, Valid;
      hide GifStringTable.Found, IsKey, TableOf, AreKeys, Pow2;
      MinBitsOf();
      ghost var words0, keys0, codes0 := words, keys, writer.codes;
      next := Consume(ent, c);
      TurnTracked(writer.minBits, words0, keys0, ent, c, rest, codes0, target, forgets,
                  words, keys, next, writer.codes);
    }

    /** The last code and End. */
    method Finish(ent: nat)
      requires Valid() && ent < |words| && OneAhead(words, writer.decoder, words[ent])
      modifies writer`accumulator, writer`curBits, writer`nBits, writer`maxCode, writer`clearFlag
      modifies writer`codes, writer`decoder
      modifies writer.packet`count, writer.packet`file, writer.packet`blocks, writer.packet`bytes, writer.packet.accum
      ensures CodesFor(writer.minBits, writer.codes, old(Decoded() + words[ent]))
      ensures writer.codes == old(writer.codes) + [ent]
      ensures Carry(writer.packet.blocks, writer.minBits, writer.codes) && FullButLast(writer.packet.blocks)
      ensures ZeroPadded(writer.packet.blocks, writer.minBits, writer.codes)
      ensures writer.packet.file == writer.packet.header + Serialize(writer.packet.blocks)
    {
      hide Initial, Pack, Run, Accepted, Decode, Serialize, Payload, StringTable.Sound, Decoder.Good, Packet.Valid;
      hide Dictionary;
      EmitMatch(ent);
      writer.OutputEnd(Pow2(writer.initBits - 1) + 1);
    }
  }

  function MinBits(bpp: int): nat {
    if bpp <= 1 then 2 else bpp
  }

  /** The first pixel is data[0]; the rest follows it. */
  lemma FirstPixel(interlaced: bool, width: nat, height: nat, data: seq<nat>)
    requires IsImage(width, height, data) && width >= 1 && height >= 1
    ensures 1 <= (if interlaced then width else width * height) <= |data|
    ensures PixelOrder(interlaced, width, height, data)
            == [data[0]] + Rest(interlaced, width, height, data, 1, if interlaced then width else width * height, 0, 0)
  {
    RowFits(0, width, height);
    if interlaced {
      StartsAtRowZero(data, width, height);
      Uncons(data, 0, width, GatherAfter(data, width, height, 0, 0));
    } else {
      assert data[1..] + [] == data[1..];
    }
  }

  /** A fresh compressor's first match is its first pixel. */
  lemma FirstMatch(compressor: Compressor, ent: nat)
    requires compressor.Valid() && compressor.writer.decoder == Fresh(compressor.writer.minBits)
    requires compressor.words == Initial(compressor.writer.minBits)
    requires ent < Pow2(compressor.writer.minBits)
    ensures ent < |compressor.words| && compressor.words[ent] == [ent]
    ensures OneAhead(compressor.words, compressor.writer.decoder, compressor.words[ent])
  {
  }

  lemma MoveOver(done: seq<nat>, c: nat, rest: seq<nat>)
    ensures done + ([c] + rest) == (done + [c]) + rest
    ensures done + [] == done
  {
  }

  /**
   `putImage`: the image appended to the file is one byte of code size, data sub-blocks and a terminator,
   and the sub-blocks carry codes that a GIF decoder turns back into the image's pixels. After a Clear these are the
   codes of longest-match compression, with a Clear whenever 4096 strings are known, unless the table forgets key 0.
   */
  method PutImage(file0: Bytes, interlaced: bool, bpp: int, width: nat, height: nat, data: seq<nat>)
    returns (file: Bytes, ghost blocks: seq<Bytes>, ghost codes: seq<nat>)
    requires IsImage(width, height, data) && width >= 1 && height >= 1 && bpp <= 8
    requires forall i :: 0 <= i < |data| ==> data[i] < Pow2(MinBits(bpp))
    ensures MinBits(bpp) == if bpp <= 1 then 2 else bpp
    ensures |file0| + 2 <= |file| && file0 + [MinBits(bpp)] <= file && file[|file| - 1] == 0
    ensures file == file0 + [MinBits(bpp)] + Serialize(blocks) + [0]
    ensures CodesFor(MinBits(bpp), codes, PixelOrder(interlaced, width, height, data))
    ensures Carry(blocks, MinBits(bpp), codes) && forall i :: 0 <= i < |blocks| - 1 ==> |blocks[i]| == 255
    ensures ZeroPadded(blocks, MinBits(bpp), codes)
    ensures var pixels := PixelOrder(interlaced, width, height, data);
            var target := [Pow2(MinBits(bpp))] + Compress(MinBits(bpp), Initial(MinBits(bpp)), pixels);
            codes == target <==> !Forgets(MinBits(bpp), Initial(MinBits(bpp)), [], pixels)
  {
    hide IsImage, Rest, PixelOrder, Decode, CodeWriter.Valid, StringTable.Sound, Serialize, Carry, ZeroPadded, CodesFor;
    hide Initial;
    hide Packet.Valid, Compressor.Valid, Tracked, Compress, Forgets;
    FirstPixel(interlaced, width, height, data);
    PixelBound(MinBits(bpp));
    var packet := new Packet(file0 + [MinBits(bpp)]);
    var compressor := new Compressor(packet, MinBits(bpp) + 1);
    compressor.Start();
    var left: nat := if interlaced then width else width * height;
    var dp: nat, pass: nat, cury: nat, done := 1, 0, 0, false;
    var ent: nat := data[0];
    ghost var pixels := PixelOrder(interlaced, width, height, data);
    FirstMatch(compressor, ent);
    ghost var target := [Pow2(MinBits(bpp))] + Compress(MinBits(bpp), Initial(MinBits(bpp)), pixels);
    ghost var forgets := Forgets(MinBits(bpp), Initial(MinBits(bpp)), [], pixels);
    ghost var rest := Rest(interlaced, width, height, data, dp, left, pass, cury);
    FirstInStep(MinBits(bpp), ent, rest);
    while !done
      invariant compressor.Valid() && ent < |compressor.words| && fresh(compressor.Repr())
      invariant compressor.writer.packet == packet && packet.header == file0 + [MinBits(bpp)]
      invariant compressor.writer.minBits == MinBits(bpp)
      invariant OneAhead(compressor.words, compressor.writer.decoder, compressor.words[ent])
      invariant pass <= 3 && 1 <= left && dp + left - 1 <= |data|
      invariant Tracked(MinBits(bpp), compressor.words, compressor.keys, ent, rest, compressor.writer.codes,
                        target, forgets)
      invariant rest == if done then [] else Rest(interlaced, width, height, data, dp, left, pass, cury)
      invariant done ==> compressor.Decoded() + compressor.words[ent] == pixels
      invariant !done ==> compressor.Decoded() + compressor.words[ent]
                          + Rest(interlaced, width, height, data, dp, left, pass, cury) == pixels
      decreases !done, if done then 0 else |Rest(interlaced, width, height, data, dp, left, pass, cury)|
    {
      var last, c, dp1, left1, pass1, cury1 := NextPixel(interlaced, width, height, data, dp, left, pass, cury);
      done := last;
      if done { rest := []; }
      MoveOver(compressor.Decoded() + compressor.words[ent], 0, []);
      if !done {
        dp, left, pass, cury := dp1, left1, pass1, cury1;
        MoveOver(compressor.Decoded() + compressor.words[ent], c,
                 Rest(interlaced, width, height, data, dp, left, pass, cury));
        rest := Rest(interlaced, width, height, data, dp, left, pass, cury);
        ent := compressor.Advance(ent, c, rest, target, forgets);
      }
    }
    EndInStep(MinBits(bpp), compressor.words, compressor.keys, ent, compressor.writer.codes, target, forgets);
    compressor.Finish(ent);
    file := packet.file + [0];
    blocks, codes := packet.blocks, compressor.writer.codes;
  }
}
