/**
 Longest-match LZW compression, as section "Compression" of Appendix F of the GIF89a specification describes it: on a
 dictionary of pixel strings, without hash table or codes of prefixes.
 */
module LzwEncoder {
  import opened Bits
  import opened LzwReference

  /** How much of the pixels a string accounts for. */
  function Score(word: Pixels, pixels: Pixels): (n: nat)
    ensures n <= |pixels|
  {
    if word <= pixels then |word| else 0
  }

  /** The first code whose string is the longest one that the pixels start with. */
  function Longest(words: seq<Pixels>, pixels: Pixels): (k: nat)
    requires words != []
    ensures k < |words|
    ensures forall j :: 0 <= j < |words| ==> Score(words[j], pixels) <= Score(words[k], pixels)
    decreases |words|
  {
    if |words| == 1 then 0
    else
      var last := |words| - 1;
      var k := Longest(words[..last], pixels);
      if Score(words[last], pixels) > Score(words[k], pixels) then last else k
  }

  /**
   The codes for the pixels, given the dictionary. Each is the code of the longest match; the dictionary then learns
   the match and the pixel after it. When it has 4096 strings a Clear code goes out instead, and it starts over.
   */
  function Compress(minBits: nat, words: seq<Pixels>, pixels: Pixels): seq<nat>
    requires words != []
    decreases |pixels|
  {
    if pixels == [] then []
    else
      var k := Longest(words, pixels);
      var n := Score(words[k], pixels);
      if n == 0 || n == |pixels| then [k]
      else if |words| < 4096 then [k] + Compress(minBits, words + [pixels[..n + 1]], pixels[n..])
      else [k] + [Pow2(minBits)] + Compress(minBits, Initial(minBits), pixels[n..])
  }

  /** No string is in the dictionary twice, apart from the two empty ones of Clear and End. */
  ghost predicate Distinct(words: seq<Pixels>) {
    forall i, j :: 0 <= i < j < |words| && words[i] != [] ==> words[i] != words[j]
  }

  /** With distinct strings the longest match is unique. */
  lemma LongestIs(words: seq<Pixels>, pixels: Pixels, k: nat)
    requires k < |words| && words[k] != [] && words[k] <= pixels && Distinct(words)
    requires forall j :: 0 <= j < |words| && words[j] <= pixels ==> |words[j]| <= |words[k]|
    ensures Longest(words, pixels) == k
  {
    hide Longest;
    var l := Longest(words, pixels);
    assert Score(words[k], pixels) == |words[k]|;
    assert words[l] <= pixels && |words[l]| == |words[k]|;
    assert words[l] == pixels[..|words[l]|] == words[k];
  }

  /** One step of the compression, when the longest match is known. */
  lemma CompressStep(minBits: nat, words: seq<Pixels>, head: Pixels, k: nat, rest: Pixels)
    requires words != [] && k == Longest(words, head + rest) && words[k] == head != []
    ensures Compress(minBits, words, head + rest) ==
            if rest == [] then [k]
            else if |words| < 4096 then [k] + Compress(minBits, words + [head + [rest[0]]], rest)
            else [k] + [Pow2(minBits)] + Compress(minBits, Initial(minBits), rest)
  {
    hide Longest, Initial, Pow2;
    assert (head + rest)[|head|..] == rest && head + [] == head;
    if rest != [] { assert (head + rest)[..|head| + 1] == head + [rest[0]]; }
  }
}
