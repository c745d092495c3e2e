/** Images whose codes are known, and one on which the writer of gif.mod/gif/writegif.c forgets a string. */
module GifExamples {
  import opened Bits
  import opened GifGreedy
  import opened GifImage
  import opened GifStringTable
  import opened GifWriter
  import opened LzwEncoder
  import opened LzwReference
  import opened SubBlocks

  /** A dictionary in use: what has been learned, with distinct strings. */
  ghost predicate InUse(words: seq<Pixels>, keys: seq<nat>) {
    Dictionary(8, words, keys) && Distinct(words) && |words| == 258 + |keys|
  }

  lemma Pow2Of8()
    ensures Pow2(8) == 256
  {
  }

  /** One step of the compression of 8-bit pixels: a single pixel is the longest match, and the pair is learned. */
  lemma LearnPair(words: seq<Pixels>, keys: seq<nat>, p: nat, q: nat, rest: Pixels)
    requires InUse(words, keys) && |words| < 4096 && p < 256 && q < 256 && 4096 * q + p !in keys
    ensures InUse(words + [[p, q]], keys + [4096 * q + p])
    ensures Compress(8, words, [p, q] + rest) == [p] + Compress(8, words + [[p, q]], [q] + rest)
    ensures Forgets(8, words, keys, [p, q] + rest) == Forgets(8, words + [[p, q]], keys + [4096 * q + p], [q] + rest)
  {
    hide Dictionary, Distinct, Compress, Forgets, Initial, Longest, Lost;
    Pow2Of8();
    Bounds(8, words, keys);
    InitialWords(8, words, keys, p);
    KeyParts(q, p);
    assert words[p] + ([q] + rest) == [p, q] + rest && words[p] + [q] == [p, q];
    MatchIsLongest(8, words, keys, p, [q] + rest);
    CompressStep(8, words, words[p], p, [q] + rest);
    MissForgets(8, words, keys, p, q, rest);
    Learned(8, words, keys, p, q);
    StillDistinct(8, words, keys, p, q);
  }

  lemma InUseAtStart()
    ensures InUse(Initial(8), [])
  {
    Pow2Of8();
    InitialDictionary(8);
  }

  // ------------------------------------------------------------------ three equal pixels

  /** Two equal pixels are a string of their own from the second match on. */
  lemma SevensCompressed()
    ensures Compress(8, Initial(8), [7, 7, 7]) == [7, 258]
  {
    hide Dictionary, Distinct, Compress, Initial, Pow2, Longest;
    InUseAtStart();
    var words, keys := Initial(8) + [[7, 7]], [4096 * 7 + 7];
    LearnPair(Initial(8), [], 7, 7, [7]);
    assert [7, 7] + [7] == [7, 7, 7] && [7] + [7] == [7, 7] && [] + [4096 * 7 + 7] == keys;
    assert words[258] + [] == [7, 7];
    Pow2Of8();
    MatchIsLongest(8, words, keys, 258, []);
    CompressStep(8, words, words[258], 258, []);
  }

  /** The four codes, in 9 bits each. */
  lemma SevensPacked()
    ensures Pack(Fresh(8), [256, 7, 258]) == ToBits(256, 9) + ToBits(7, 9) + ToBits(258, 9)
    ensures var last := Run(Fresh(8), [256, 7, 258]); last.width == 9 && last.End() == 257
  {
    hide Initial, ToBits;
    Pow2Of8();
    assert Pow2(9) == 512;
    var d := Fresh(8);
    assert d.Step(256) == d;
    var one := d.Step(7);
    assert one == d.(previous := [7]);
    var two := one.Step(258);
    assert two.width == 9 && two.minBits == 8;
    assert [256, 7, 258][1..] == [7, 258] && [7, 258][1..] == [258] && [258][1..] == [];
    assert Run(two, []) == two && Run(one, [258]) == two && Run(d, [7, 258]) == two;
    assert Pack(one, [258]) == ToBits(258, 9) + [] && Pack(d, [7, 258]) == ToBits(7, 9) + Pack(one, [258]);
    assert Pack(d, [256, 7, 258]) == ToBits(256, 9) + Pack(d, [7, 258]);
  }

  lemma SevensPowers()
    ensures Pow2(9) == 512 && Pow2(18) == 0x4_0000 && Pow2(27) == 0x800_0000 && Pow2(36) == 0x10_0000_0000
  {
  }

  /** They fill four and a half bytes. */
  lemma SevensBytes()
    ensures ToBits(256, 9) + ToBits(7, 9) + ToBits(258, 9) + ToBits(257, 9) + ToBits(0, 4) == BitsOf([0, 15, 8, 12, 8])
  {
    hide ToBits, BitsOf, Pow2, Shl;
    SevensPowers();
    ShlIsMultiply(7, 9);
    ShlIsMultiply(258, 18);
    ShlIsMultiply(257, 27);
    ShlIsMultiply(0, 36);
    ToBitsJoin(256, 7, 9, 9);
    ToBitsJoin(0xF00, 258, 18, 9);
    ToBitsJoin(0x408_0F00, 257, 27, 9);
    ToBitsJoin(0x8_0C08_0F00, 0, 36, 4);
    LittleEndianBits([0, 15, 8, 12, 8]);
    assert LittleEndian([0, 15, 8, 12, 8]) == 0x8_0C08_0F00;
  }

  lemma {:induction false} BytesDetermined(a: Bytes, b: Bytes)
    requires AreBytes(a) && AreBytes(b) && BitsOf(a) == BitsOf(b)
    ensures a == b
  {
    if a != [] && b != [] {
      Pow2Of8();
      assert BitsOf(a)[..8] == ByteBits(a[0]) && BitsOf(a)[8..] == BitsOf(a[1..]);
      assert BitsOf(b)[..8] == ByteBits(b[0]) && BitsOf(b)[8..] == BitsOf(b[1..]);
      ToBitsInjective(a[0], b[0], 8);
      BytesDetermined(a[1..], b[1..]);
    }
  }

  /** Few bytes make one block. */
  lemma OneBlock(blocks: seq<Bytes>)
    requires WellCut(blocks) && FullButLast(blocks) && 1 <= |Payload(blocks)| < 255
    ensures AreBytes(Payload(blocks)) && Serialize(blocks) == [|Payload(blocks)|] + Payload(blocks)
  {
    assert |Payload(blocks)| == |blocks[0]| + |Payload(blocks[1..])|;
    assert |blocks| < 2;
    assert blocks[1..] == [] && Payload([]) == [] && Serialize([]) == [];
  }

  lemma SevensInBlocks(blocks: seq<Bytes>, codes: seq<nat>)
    requires codes == [256, 7, 258] && Carry(blocks, 8, codes) && ZeroPadded(blocks, 8, codes) && FullButLast(blocks)
    ensures Serialize(blocks) == [5, 0, 15, 8, 12, 8]
  {
    hide Serialize, Pack, Run, ToBits, BitsOf, Payload;
    SevensPacked();
    SevensBytes();
    assert |Payload(blocks)| == 5;
    OneBlock(blocks);
    BytesDetermined(Payload(blocks), [0, 15, 8, 12, 8]);
  }

  lemma PixelOrderOfRow(data: seq<nat>)
    ensures IsImage(|data|, 1, data) && PixelOrder(false, |data|, 1, data) == data
  {
  }

  lemma NothingForgotten(pixels: Pixels)
    requires !SuccessiveZeros(pixels)
    ensures !Forgets(8, Initial(8), [], pixels)
  {
    if Forgets(8, Initial(8), [], pixels) { OnlyZerosForget(8, Initial(8), [], pixels); }
  }

  /** A 3 by 1 image of equal pixels: Clear, the pixel, and the string of two; with End they make one block. */
  method PutSevens() returns (file: Bytes, ghost codes: seq<nat>)
    ensures codes == [256, 7, 258] && file == [8, 5, 0, 15, 8, 12, 8, 0]
  {
    hide Compress, Forgets, Initial, Serialize, PixelOrder, Carry, ZeroPadded, CodesFor;
    var data := [7, 7, 7];
    Pow2Of8();
    PixelOrderOfRow(data);
    ghost var blocks;
    file, blocks, codes := PutImage([], false, 8, 3, 1, data);
    SevensCompressed();
    NothingForgotten(data);
    SevensInBlocks(blocks, codes);
  }

  // ------------------------------------------------------------------ a string forgotten

  /** A key whose first slot is empty is stored there. */
  lemma StoredFirst(keys: seq<nat>, key: nat, first: nat)
    requires AreKeys(keys) && IsKey(key) && first < 5003 && FirstSlot(key) == first && TableOf(keys)[first] == -1
    ensures AreKeys(keys + [key]) && TableOf(keys + [key]) == TableOf(keys)[first := key]
  {
    hide FirstSlot;
    assert (keys + [key])[..|keys|] == keys;
  }

  /** A key whose first slot is taken is stored in the second one, if that is empty or holds key 0. */
  lemma StoredSecond(keys: seq<nat>, key: nat, first: nat, second: nat)
    requires AreKeys(keys) && IsKey(key) && first < 5003 && FirstSlot(key) == first
    requires TableOf(keys)[first] > 0 && TableOf(keys)[first] != key
    requires second == NextProbe(first, Displacement(first)) && TableOf(keys)[second] <= 0
    ensures AreKeys(keys + [key]) && TableOf(keys + [key]) == TableOf(keys)[second := key]
  {
    hide FirstSlot, NextProbe, Displacement;
    assert (keys + [key])[..|keys|] == keys;
  }

  /** The hashes of the pairs below. */
  lemma Hashes()
    ensures Hash(1, 16) == 0 && Hash(21, 1) == 337 && Hash(157, 21) == 2501 && Hash(0, 157) == 157
    ensures Hash(0, 0) == 0 && Hash(5, 0) == 80 && Hash(156, 5) == 2501 && Hash(0, 156) == 156
  {
  }

  lemma EmptyTable(i: nat)
    requires i < 5003
    ensures TableOf([])[i] == -1
  {
  }

  lemma FirstSlots()
    ensures FirstSlot(4112) == 0 && FirstSlot(86017) == 337 && FirstSlot(643093) == 2501 && FirstSlot(157) == 157
    ensures FirstSlot(0) == 0 && FirstSlot(20480) == 80 && FirstSlot(638981) == 2501 && FirstSlot(156) == 156
  {
    hide Hash;
    Hashes();
  }

  /** The search for key 0 goes from slot 0 down past 5002, and ends at the empty slot 5001. */
  lemma ZeroMissed(htab: seq<int>)
    requires |htab| == 5003 && htab[0] > 0 && htab[5002] > 0 && htab[5001] == -1
    ensures Slot(htab, 0) == 5001
  {
    hide Hash;
    Hashes();
    assert Seek(htab, 0, 5002, 1, HSIZE - 2) == 5001;
  }

  /** Key 0 goes to slot 5002, because slot 0 is taken; three keys later another one is put over it. */
  lemma PairsLoseZero()
    ensures var keys := [4112, 86017, 643093, 157, 0, 20480, 638981, 156]; AreKeys(keys) && Lost(keys)
  {
    hide TableOf, FirstSlot, Seek;
    FirstSlots();
    EmptyTable(0); EmptyTable(337); EmptyTable(2501); EmptyTable(157); EmptyTable(80); EmptyTable(156);
    EmptyTable(5001); EmptyTable(5002);
    StoredFirst([], 4112, 0);
    StoredFirst([] + [4112], 86017, 337);
    var three := [] + [4112] + [86017] + [643093];
    StoredFirst([] + [4112] + [86017], 643093, 2501);
    StoredFirst(three, 157, 157);
    StoredSecond(three + [157], 0, 0, 5002);
    StoredFirst(three + [157] + [0], 20480, 80);
    StoredSecond(three + [157] + [0] + [20480], 638981, 2501, 5002);
    StoredFirst(three + [157] + [0] + [20480] + [638981], 156, 156);
    var keys := three + [157] + [0] + [20480] + [638981] + [156];
    assert keys == [4112, 86017, 643093, 157, 0, 20480, 638981, 156];
    assert keys[4] == 0;
    ZeroMissed(TableOf(keys));
  }

  /** The key of pixels i and i + 1. */
  function PairKey(pixels: Pixels, i: nat): nat
    requires i + 1 < |pixels|
  {
    4096 * pixels[i + 1] + pixels[i]
  }

  /** The keys of the first n pairs of successive pixels. */
  function PairKeys(pixels: Pixels, n: nat): (keys: seq<nat>)
    requires n < |pixels|
    ensures |keys| == n && forall i :: 0 <= i < n ==> keys[i] == PairKey(pixels, i)
  {
    if n == 0 then [] else PairKeys(pixels, n - 1) + [PairKey(pixels, n - 1)]
  }

  lemma NoPairTwice(pixels: Pixels, n: nat)
    requires 0 < n < |pixels| && forall i, j :: 0 <= i < j < n ==> PairKey(pixels, i) != PairKey(pixels, j)
    ensures PairKey(pixels, n - 1) !in PairKeys(pixels, n - 1)
  {
    hide PairKeys;
  }

  lemma InUseLength(words: seq<Pixels>, keys: seq<nat>)
    requires InUse(words, keys)
    ensures |words| == 258 + |keys| && AreKeys(keys)
  {
  }

  /** The next of these pairs is learned. */
  lemma LearnNext(pixels: Pixels, n: nat, words: seq<Pixels>)
    requires 0 < n < |pixels| && n < 3838 && forall i :: 0 <= i < |pixels| ==> pixels[i] < 256
    requires forall i, j :: 0 <= i < j < n ==> PairKey(pixels, i) != PairKey(pixels, j)
    requires InUse(words, PairKeys(pixels, n - 1))
    ensures InUse(words + [[pixels[n - 1], pixels[n]]], PairKeys(pixels, n))
    ensures Forgets(8, words, PairKeys(pixels, n - 1), pixels[n - 1..])
            == Forgets(8, words + [[pixels[n - 1], pixels[n]]], PairKeys(pixels, n), pixels[n..])
  {
    hide InUse, Forgets, Initial, Pow2, Compress;
    InUseLength(words, PairKeys(pixels, n - 1));
    assert pixels[n - 1..] == [pixels[n - 1], pixels[n]] + pixels[n + 1..];
    assert pixels[n..] == [pixels[n]] + pixels[n + 1..];
    NoPairTwice(pixels, n);
    LearnPair(words, PairKeys(pixels, n - 1), pixels[n - 1], pixels[n], pixels[n + 1..]);
  }

  /** As long as no pair comes twice, every match is a single pixel. */
  lemma {:induction false} LearnPairs(pixels: Pixels, n: nat) returns (words: seq<Pixels>)
    requires n < |pixels| && n < 3838 && forall i :: 0 <= i < |pixels| ==> pixels[i] < 256
    requires forall i, j :: 0 <= i < j < n ==> PairKey(pixels, i) != PairKey(pixels, j)
    ensures InUse(words, PairKeys(pixels, n))
    ensures Forgets(8, Initial(8), [], pixels) == Forgets(8, words, PairKeys(pixels, n), pixels[n..])
  {
    hide InUse, Forgets, Initial, Pow2, PairKey;
    if n == 0 {
      InUseAtStart();
      words := Initial(8);
      assert pixels[0..] == pixels;
    } else {
      words := LearnPairs(pixels, n - 1);
      LearnNext(pixels, n, words);
      words := words + [[pixels[n - 1], pixels[n]]];
    }
  }

  /** Two pixels 0 at the end, when key 0 has been lost. */
  lemma ForgetsZeros(words: seq<Pixels>, keys: seq<nat>)
    requires InUse(words, keys) && AreKeys(keys) && Lost(keys)
    ensures Forgets(8, words, keys, [0, 0])
  {
    hide Lost, Longest, Distinct, Dictionary;
    var i := ZeroIn(8, words, keys);
    assert Score(words[i], [0, 0]) == 2;
  }

  /** Ten pixels on which the pair of two zeros has been forgotten when it comes for the second time. */
  lemma TenPixelsForget()
    ensures Forgets(8, Initial(8), [], [16, 1, 21, 157, 0, 0, 5, 156, 0, 0])
  {
    hide InUse, Forgets, Initial, Lost, Pow2, AreKeys, PairKeys;
    var pixels := [16, 1, 21, 157, 0, 0, 5, 156, 0, 0];
    PairsLoseZero();
    assert PairKeys(pixels, 8) == [4112, 86017, 643093, 157, 0, 20480, 638981, 156];
    var words := LearnPairs(pixels, 8);
    assert pixels[8..] == [0, 0];
    ForgetsZeros(words, PairKeys(pixels, 8));
  }

  /** So the writer does not take the longest match there. */
  method PutForgetful() returns (file: Bytes, ghost codes: seq<nat>)
    ensures codes != [256] + Compress(8, Initial(8), [16, 1, 21, 157, 0, 0, 5, 156, 0, 0])
  {
    hide Compress, Forgets, Initial, Serialize, PixelOrder;
    var data := [16, 1, 21, 157, 0, 0, 5, 156, 0, 0];
    Pow2Of8();
    PixelOrderOfRow(data);
    TenPixelsForget();
    ghost var blocks;
    file, blocks, codes := PutImage([], false, 8, 10, 1, data);
  }
}
