/**
 The writer's dictionary as its hash table knows it, by pairs of a pixel and a prefix code, against longest-match
 compression (gif.mod/gif/writegif.c). They part only where the table has forgotten the pair with key 0.
 */
module GifGreedy {
  import opened Bits
  import opened GifStringTable
  import opened LzwEncoder
  import opened LzwReference

  /** Every string learned is that of its key's prefix code, extended by the key's pixel. */
  ghost predicate Spelled(words: seq<Pixels>, keys: seq<nat>, base: nat) {
    && |words| == base + |keys| && AreKeys(keys)
    && forall j :: 0 <= j < |keys| ==>
         keys[j] % 4096 < base + j && words[base + j] == words[keys[j] % 4096] + [keys[j] / 4096]
  }

  /** The dictionary since the last Clear. */
  ghost predicate Dictionary(minBits: nat, words: seq<Pixels>, keys: seq<nat>) {
    && Pow2(minBits) + 2 <= |words| <= 4096 && words[..Pow2(minBits) + 2] == Initial(minBits)
    && Spelled(words, keys, Pow2(minBits) + 2)
  }

  lemma Bounds(minBits: nat, words: seq<Pixels>, keys: seq<nat>)
    requires Dictionary(minBits, words, keys)
    ensures Pow2(minBits) + 2 <= |words| <= 4096 && AreKeys(keys) && |words| == Pow2(minBits) + 2 + |keys|
  {
  }

  lemma InitialWords(minBits: nat, words: seq<Pixels>, keys: seq<nat>, k: nat)
    requires Dictionary(minBits, words, keys) && k < Pow2(minBits) + 2
    ensures words[k] == if k < Pow2(minBits) then [k] else []
  {
    assert words[k] == words[..Pow2(minBits) + 2][k];
  }

  lemma InitialDictionary(minBits: nat)
    requires 2 <= minBits <= 8
    ensures Dictionary(minBits, Initial(minBits), []) && Distinct(Initial(minBits))
  {
    MinBitsBound(minBits);
    assert Initial(minBits)[..Pow2(minBits) + 2] == Initial(minBits);
  }

  /** Learning keeps a dictionary one. */
  lemma Learned(minBits: nat, words: seq<Pixels>, keys: seq<nat>, ent: nat, c: nat)
    requires Dictionary(minBits, words, keys) && |words| < 4096 && ent < |words| && c < 256
    ensures Dictionary(minBits, words + [words[ent] + [c]], keys + [Key(c, ent)])
  {
    KeyParts(c, ent);
    var more := words + [words[ent] + [c]];
    assert more[..Pow2(minBits) + 2] == words[..Pow2(minBits) + 2];
  }

  /** The dictionary is closed under prefixes; those of two or more pixels have been learned. */
  lemma {:induction false} PrefixIn(minBits: nat, words: seq<Pixels>, keys: seq<nat>, k: nat, n: nat) returns (i: nat)
    requires Dictionary(minBits, words, keys) && k < |words| && 2 <= n <= |words[k]|
    ensures Pow2(minBits) + 2 <= i < |words| && words[i] == words[k][..n]
    decreases k
  {
    hide Initial, Pow2;
    var base := Pow2(minBits) + 2;
    if k < base {
      InitialWords(minBits, words, keys, k);
      assert false;
    } else if n == |words[k]| {
      i := k;
    } else {
      var j := k - base;
      var e := keys[j] % 4096;
      assert words[base + j] == words[e] + [keys[j] / 4096];
      i := PrefixIn(minBits, words, keys, e, n);
    }
  }

  /** The code stored with a key is that of the extended string. */
  lemma WordOfKey(minBits: nat, words: seq<Pixels>, keys: seq<nat>, code: nat, c: nat, ent: nat)
    requires Dictionary(minBits, words, keys) && ent < |words|
    requires Pow2(minBits) + 2 <= code < |words| && keys[code - Pow2(minBits) - 2] == Key(c, ent)
    ensures words[code] == words[ent] + [c] && Key(c, ent) in keys
  {
    KeyParts(c, ent);
    var j := code - Pow2(minBits) - 2;
    assert words[Pow2(minBits) + 2 + j] == words[keys[j] % 4096] + [keys[j] / 4096];
  }

  /** A learned string names its key, if strings are distinct. */
  lemma KeyOfWord(minBits: nat, words: seq<Pixels>, keys: seq<nat>, i: nat, ent: nat, c: nat)
    requires Dictionary(minBits, words, keys) && Distinct(words) && ent < |words| && words[ent] != []
    requires Pow2(minBits) + 2 <= i < |words| && words[i] == words[ent] + [c]
    ensures keys[i - Pow2(minBits) - 2] == Key(c, ent)
  {
    hide Initial, Pow2;
    var base := Pow2(minBits) + 2;
    var j := i - base;
    var e := keys[j] % 4096;
    assert words[base + j] == words[e] + [keys[j] / 4096];
    assert (words[e] + [keys[j] / 4096])[..|words[ent]|] == words[ent] && words[e] == words[ent];
    assert e == ent;
  }

  /** A search that finds the pairs that have been learned ends at the one string that extends the match. */
  lemma ExtensionFound(minBits: nat, words: seq<Pixels>, keys: seq<nat>, ent: nat, c: nat, hit: bool, next: nat)
    requires Dictionary(minBits, words, keys) && Distinct(words) && ent < |words| && words[ent] != []
    requires (4096 * c + ent > 0 && !hit ==> 4096 * c + ent !in keys)
    requires hit ==> next < |words| && words[next] == words[ent] + [c]
    ensures c > 0 || ent > 0 ==>
      forall k :: Pow2(minBits) + 2 <= k < |words| && words[k] == words[ent] + [c] ==> hit && next == k
  {
    hide Initial, Pow2, Dictionary;
    forall k | Pow2(minBits) + 2 <= k < |words| && words[k] == words[ent] + [c] && (c > 0 || ent > 0)
      ensures hit && next == k
    {
      Bounds(minBits, words, keys);
      KeyOfWord(minBits, words, keys, k, ent, c);
    }
  }

  lemma InKeys(minBits: nat, words: seq<Pixels>, keys: seq<nat>, i: nat)
    requires Dictionary(minBits, words, keys) && Pow2(minBits) + 2 <= i < |words|
    ensures keys[i - Pow2(minBits) - 2] in keys
  {
  }

  /** What the writer takes for the longest match is the longest match, if the pair with the next pixel is new. */
  lemma MatchIsLongest(minBits: nat, words: seq<Pixels>, keys: seq<nat>, ent: nat, rest: Pixels)
    requires Dictionary(minBits, words, keys) && Distinct(words) && ent < |words| && words[ent] != []
    requires rest != [] ==> Key(rest[0], ent) !in keys
    ensures Longest(words, words[ent] + rest) == ent
  {
    hide Initial, Pow2, Dictionary;
    var pixels := words[ent] + rest;
    forall j | 0 <= j < |words| && words[j] <= pixels
      ensures |words[j]| <= |words[ent]|
    {
      if |words[j]| > |words[ent]| {
        var n := |words[ent]| + 1;
        var i := PrefixIn(minBits, words, keys, j, n);
        assert words[j][..n] == pixels[..n] == words[ent] + [rest[0]];
        KeyOfWord(minBits, words, keys, i, ent, rest[0]);
        InKeys(minBits, words, keys, i);
      }
    }
    LongestIs(words, pixels, ent);
  }

  /** A string of two or more pixels has been learned. */
  lemma WordTwo(minBits: nat, words: seq<Pixels>, keys: seq<nat>, i: nat)
    requires Dictionary(minBits, words, keys) && i < |words| && |words[i]| >= 2
    ensures i >= Pow2(minBits) + 2
  {
    if i < Pow2(minBits) + 2 { InitialWords(minBits, words, keys, i); }
  }

  /** A new pair makes a new string. */
  lemma StillDistinct(minBits: nat, words: seq<Pixels>, keys: seq<nat>, ent: nat, c: nat)
    requires Dictionary(minBits, words, keys) && Distinct(words) && ent < |words| && words[ent] != []
    requires Key(c, ent) !in keys
    ensures Distinct(words + [words[ent] + [c]])
  {
    hide Initial, Pow2, Dictionary;
    forall i | 0 <= i < |words|
      ensures words[i] != words[ent] + [c]
    {
      if words[i] == words[ent] + [c] {
        WordTwo(minBits, words, keys, i);
        KeyOfWord(minBits, words, keys, i, ent, c);
        InKeys(minBits, words, keys, i);
      }
    }
  }

  // ------------------------------------------------------------------ forgetting

  /** The table no longer finds key 0, although it has been stored: another key has been put over it. */
  ghost predicate Lost(keys: seq<nat>)
    requires AreKeys(keys)
  {
    0 in keys && !GifStringTable.Found(TableOf(keys), 0)
  }

  /** Two pixels 0, the string of key 0. */
  predicate StartsWithZeros(word: Pixels) {
    |word| >= 2 && word[0] == 0 && word[1] == 0
  }

  /**
   The compression comes to a longest match that starts with two pixels 0 when the table has lost key 0. `keys` are
   the keys of the strings learned since the last Clear.
   */
  ghost predicate Forgets(minBits: nat, words: seq<Pixels>, keys: seq<nat>, pixels: Pixels)
    requires words != [] && AreKeys(keys)
    decreases |pixels|
  {
    pixels != [] &&
    var k := Longest(words, pixels);
    var n := Score(words[k], pixels);
    || (StartsWithZeros(pixels[..n]) && Lost(keys))
    || (0 < n < |pixels| && IsKey(Key(pixels[n], k)) &&
        if |words| < 4096 then Forgets(minBits, words + [pixels[..n + 1]], keys + [Key(pixels[n], k)], pixels[n..])
        else Forgets(minBits, Initial(minBits), [], pixels[n..]))
  }

  ghost predicate SuccessiveZeros(pixels: Pixels) {
    exists i :: 0 <= i < |pixels| - 1 && pixels[i] == 0 && pixels[i + 1] == 0
  }

  lemma ZerosBehind(pixels: Pixels, n: nat)
    requires n <= |pixels|
    ensures SuccessiveZeros(pixels[n..]) ==> SuccessiveZeros(pixels)
    ensures StartsWithZeros(pixels[..n]) ==> SuccessiveZeros(pixels)
  {
    if SuccessiveZeros(pixels[n..]) {
      var i :| 0 <= i < |pixels[n..]| - 1 && pixels[n..][i] == 0 && pixels[n..][i + 1] == 0;
      assert pixels[n + i] == 0 && pixels[n + i + 1] == 0;
    }
    if StartsWithZeros(pixels[..n]) {
      assert pixels[0] == 0 && pixels[0 + 1] == 0;
    }
  }

  /** Nothing is forgotten in an image without two successive pixels 0. */
  lemma {:induction false} OnlyZerosForget(minBits: nat, words: seq<Pixels>, keys: seq<nat>, pixels: Pixels)
    requires words != [] && AreKeys(keys) && Forgets(minBits, words, keys, pixels)
    ensures SuccessiveZeros(pixels)
    decreases |pixels|
  {
    hide Lost, Longest, Initial, SuccessiveZeros, StartsWithZeros, Score, Key;
    var k := Longest(words, pixels);
    var n := Score(words[k], pixels);
    ZerosBehind(pixels, n);
    if !(StartsWithZeros(pixels[..n]) && Lost(keys)) {
      if |words| < 4096 {
        OnlyZerosForget(minBits, words + [pixels[..n + 1]], keys + [Key(pixels[n], k)], pixels[n..]);
      } else {
        OnlyZerosForget(minBits, Initial(minBits), [], pixels[n..]);
      }
    }
  }

  // ------------------------------------------------------------------ the writer in step with the compression

  /**
   So far the writer has written what the compression asks for: the current match `ent` and the pixels still to come
   give the rest of it.
   */
  ghost predicate InStep(minBits: nat, words: seq<Pixels>, keys: seq<nat>, ent: nat, rest: Pixels,
                         codes: seq<nat>, target: seq<nat>, forgets: bool) {
    && Dictionary(minBits, words, keys) && Distinct(words) && ent < |words| && words[ent] != []
    && (StartsWithZeros(words[ent]) ==> !Lost(keys))
    && target == codes + Compress(minBits, words, words[ent] + rest)
    && forgets == Forgets(minBits, words, keys, words[ent] + rest)
  }

  /** The writer has forgotten key 0 where it mattered, and written another code. */
  ghost predicate OutOfStep(codes: seq<nat>, target: seq<nat>, forgets: bool) {
    forgets && exists i :: 0 <= i < |codes| && (i >= |target| || codes[i] != target[i])
  }

  /** Either, whatever the code written. */
  ghost predicate Tracked(minBits: nat, words: seq<Pixels>, keys: seq<nat>, ent: nat, rest: Pixels,
                          codes: seq<nat>, target: seq<nat>, forgets: bool) {
    InStep(minBits, words, keys, ent, rest, codes, target, forgets) || OutOfStep(codes, target, forgets)
  }

  lemma StillOut(codes: seq<nat>, more: seq<nat>, target: seq<nat>, forgets: bool)
    requires OutOfStep(codes, target, forgets)
    ensures OutOfStep(codes + more, target, forgets)
  {
    var i :| 0 <= i < |codes| && (i >= |target| || codes[i] != target[i]);
    assert (codes + more)[i] == codes[i];
  }

  /** The match grows by a pixel. */
  lemma HitInStep(minBits: nat, words: seq<Pixels>, keys: seq<nat>, ent: nat, c: nat, next: nat, rest: Pixels,
                  codes: seq<nat>, target: seq<nat>, forgets: bool)
    requires InStep(minBits, words, keys, ent, [c] + rest, codes, target, forgets) && c < 256
    requires next < |words| && words[next] == words[ent] + [c]
    requires Key(c, ent) == 0 ==> GifStringTable.Found(TableOf(keys), 0)
    ensures InStep(minBits, words, keys, next, rest, codes, target, forgets)
  {
    hide Initial, Forgets, TableOf, GifStringTable.Found;
    assert words[ent] + ([c] + rest) == words[next] + rest;
    if StartsWithZeros(words[next]) && |words[ent]| == 1 {
      InitialWords(minBits, words, keys, 0);
      assert words[ent] == [0] == words[0];
    }
  }

  lemma MissForgets(minBits: nat, words: seq<Pixels>, keys: seq<nat>, ent: nat, c: nat, rest: Pixels)
    requires words != [] && AreKeys(keys) && ent < |words| && words[ent] != [] && IsKey(Key(c, ent))
    requires Longest(words, words[ent] + ([c] + rest)) == ent && (StartsWithZeros(words[ent]) ==> !Lost(keys))
    ensures Forgets(minBits, words, keys, words[ent] + ([c] + rest))
            == if |words| < 4096 then Forgets(minBits, words + [words[ent] + [c]], keys + [Key(c, ent)], [c] + rest)
               else Forgets(minBits, Initial(minBits), [], [c] + rest)
  {
    hide Initial, Pow2, Longest, Lost, Key;
    var pixels := words[ent] + ([c] + rest);
    assert pixels[|words[ent]|..] == [c] + rest && pixels[..|words[ent]|] == words[ent];
    assert pixels[..|words[ent]| + 1] == words[ent] + [c];
  }

  /** The pair with the next pixel is new: the code of the match is the next one, and the pair is learned. */
  lemma MissLearns(minBits: nat, words: seq<Pixels>, keys: seq<nat>, ent: nat, c: nat, rest: Pixels,
                   codes: seq<nat>, target: seq<nat>, forgets: bool)
    requires InStep(minBits, words, keys, ent, [c] + rest, codes, target, forgets)
    requires c < Pow2(minBits) && c < 256 && 2 <= minBits <= 8 && Key(c, ent) !in keys && |words| < 4096
    ensures
      InStep(minBits, words + [words[ent] + [c]], keys + [Key(c, ent)], c, rest, codes + [ent], target, forgets)
  {
    hide Initial, Pow2, Distinct, Dictionary, Longest, Lost, Key, Compress, Spelled, Forgets;
    MatchIsLongest(minBits, words, keys, ent, [c] + rest);
    CompressStep(minBits, words, words[ent], ent, [c] + rest);
    Bounds(minBits, words, keys);
    KeyParts(c, ent);
    MissForgets(minBits, words, keys, ent, c, rest);
    Learned(minBits, words, keys, ent, c);
    StillDistinct(minBits, words, keys, ent, c);
    InitialWords(minBits, words + [words[ent] + [c]], keys + [Key(c, ent)], c);
  }

  /** The same in a full dictionary, which is cleared. */
  lemma MissClears(minBits: nat, words: seq<Pixels>, keys: seq<nat>, ent: nat, c: nat, rest: Pixels,
                   codes: seq<nat>, target: seq<nat>, forgets: bool)
    requires InStep(minBits, words, keys, ent, [c] + rest, codes, target, forgets)
    requires c < Pow2(minBits) && c < 256 && 2 <= minBits <= 8 && Key(c, ent) !in keys && |words| >= 4096
    ensures InStep(minBits, Initial(minBits), [], c, rest, codes + [ent] + [Pow2(minBits)], target, forgets)
  {
    hide Initial, Pow2, Distinct, Dictionary, Longest, Lost, Key, Compress, Spelled, Forgets;
    MatchIsLongest(minBits, words, keys, ent, [c] + rest);
    CompressStep(minBits, words, words[ent], ent, [c] + rest);
    Bounds(minBits, words, keys);
    KeyParts(c, ent);
    MissForgets(minBits, words, keys, ent, c, rest);
    InitialDictionary(minBits);
    InitialWords(minBits, Initial(minBits), [], c);
  }

  lemma ZeroIn(minBits: nat, words: seq<Pixels>, keys: seq<nat>) returns (i: nat)
    requires Dictionary(minBits, words, keys) && Lost(keys)
    ensures i < |words| && words[i] == [0, 0] && words[0] == [0]
  {
    hide Initial, TableOf, GifStringTable.Found;
    var j :| 0 <= j < |keys| && keys[j] == 0;
    InitialWords(minBits, words, keys, 0);
    i := Pow2(minBits) + 2 + j;
    assert words[Pow2(minBits) + 2 + j] == words[keys[j] % 4096] + [keys[j] / 4096];
  }

  /** The pair with key 0 has been stored, but is not found: the code of a single pixel 0 is not the next one. */
  lemma LostOutOfStep(minBits: nat, words: seq<Pixels>, keys: seq<nat>, rest: Pixels,
                      codes: seq<nat>, target: seq<nat>, forgets: bool)
    requires InStep(minBits, words, keys, 0, [0] + rest, codes, target, forgets) && Lost(keys)
    ensures OutOfStep(codes + [0], target, forgets)
  {
    hide Initial, Longest, Lost, Distinct, Dictionary, TableOf;
    var j := ZeroIn(minBits, words, keys);
    var pixels := words[0] + ([0] + rest);
    assert pixels == [0, 0] + rest;
    var k := Longest(words, pixels);
    assert Score(words[j], pixels) == 2 && Score(words[0], pixels) == 1;
    assert pixels[..Score(words[k], pixels)][0] == 0 && pixels[..Score(words[k], pixels)][1] == 0;
    assert Compress(minBits, words, pixels)[0] == k != 0;
    assert target[|codes|] == k && (codes + [0])[|codes|] == 0;
  }

  /** At the end of the image the last match completes what the compression asks for, or it never will. */
  lemma EndInStep(minBits: nat, words: seq<Pixels>, keys: seq<nat>, ent: nat,
                  codes: seq<nat>, target: seq<nat>, forgets: bool)
    requires Tracked(minBits, words, keys, ent, [], codes, target, forgets)
    ensures codes + [ent] == target <==> !forgets
  {
    hide Initial, Distinct, Dictionary, Longest, Lost;
    if InStep(minBits, words, keys, ent, [], codes, target, forgets) {
      MatchIsLongest(minBits, words, keys, ent, []);
      CompressStep(minBits, words, words[ent], ent, []);
      assert words[ent] + [] == words[ent] && words[ent][..|words[ent]|] == words[ent];
    } else {
      StillOut(codes, [ent], target, forgets);
    }
  }

  /** The first match is the first pixel. */
  lemma FirstInStep(minBits: nat, ent: nat, rest: Pixels)
    requires 2 <= minBits <= 8 && ent < Pow2(minBits)
    ensures var words, pixels := Initial(minBits), [ent] + rest;
            Tracked(minBits, words, [], ent, rest, [Pow2(minBits)], [Pow2(minBits)] + Compress(minBits, words, pixels),
                    Forgets(minBits, words, [], pixels))
  {
    hide Compress, Forgets, OutOfStep, Dictionary, Distinct;
    InitialDictionary(minBits);
    InitialWords(minBits, Initial(minBits), [], ent);
  }

  /** One turn of the writer's loop keeps track. */
  lemma TurnTracked(minBits: nat, words: seq<Pixels>, keys: seq<nat>, ent: nat, c: nat, rest: Pixels,
                    codes: seq<nat>, target: seq<nat>, forgets: bool,
                    words': seq<Pixels>, keys': seq<nat>, next: nat, codes': seq<nat>)
    requires Tracked(minBits, words, keys, ent, [c] + rest, codes, target, forgets)
    requires ent < |words| && c < Pow2(minBits) && c < 256 && 2 <= minBits <= 8 && next < |words'|
    requires AreKeys(keys) && IsKey(Key(c, ent))
    requires var hit := GifStringTable.Found(TableOf(keys), Key(c, ent));
             && (hit ==> Key(c, ent) in keys) && (Key(c, ent) > 0 && !hit ==> Key(c, ent) !in keys)
             && if hit then words' == words && keys' == keys && codes' == codes && words[next] == words[ent] + [c]
                else if |words| < 4096 then
                  next == c && words' == words + [words[ent] + [c]] && keys' == keys + [Key(c, ent)]
                  && codes' == codes + [ent]
                else next == c && words' == Initial(minBits) && keys' == [] && codes' == codes + [ent] + [Pow2(minBits)]
    ensures Tracked(minBits, words', keys', next, rest, codes', target, forgets)
  {
    hide InStep, OutOfStep, Initial, Pow2, GifStringTable.Found, TableOf, Dictionary, Compress, Forgets;
    if OutOfStep(codes, target, forgets) {
      StillOut(codes, [ent], target, forgets);
      StillOut(codes + [ent], [Pow2(minBits)], target, forgets);
    } else if GifStringTable.Found(TableOf(keys), Key(c, ent)) {
      HitInStep(minBits, words, keys, ent, c, next, rest, codes, target, forgets);
    } else if Key(c, ent) !in keys {
      if |words| < 4096 {
        MissLearns(minBits, words, keys, ent, c, rest, codes, target, forgets);
      } else {
        MissClears(minBits, words, keys, ent, c, rest, codes, target, forgets);
      }
    } else {
      LostOutOfStep(minBits, words, keys, rest, codes, target, forgets);
      StillOut(codes + [ent], [Pow2(minBits)], target, forgets);
    }
  }
}
