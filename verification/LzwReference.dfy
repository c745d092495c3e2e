/**
 GIF's variable-width LZW, as Appendix F of the GIF89a specification describes it: a decoder whose
 dictionary is a list of pixel strings. Neither the hash table of the writer nor the prefix and suffix
 tables of the reader appear here; both are proved against this module.
 */
module LzwReference {
  import opened Bits

  type Pixels = seq<nat>

  const MAX_BITS: nat := 12
  const MAX_CODES: nat := 4096

  /** The one-pixel strings, and two unused entries for the Clear and End codes. */
  function Initial(minBits: nat): (words: seq<Pixels>)
    ensures |words| == Pow2(minBits) + 2
    ensures forall k :: 0 <= k < Pow2(minBits) ==> words[k] == [k]
  {
    seq(Pow2(minBits), k requires 0 <= k => [k]) + [[], []]
  }

  function Fresh(minBits: nat): Decoder {
    Decoder(minBits, minBits + 1, Initial(minBits), [])
  }

  /** `previous` is empty exactly when no data code has been seen since the last Clear. */
  datatype Decoder = Decoder(minBits: nat, width: nat, words: seq<Pixels>, previous: Pixels)
  {
    function Clear(): nat { Pow2(minBits) }

    function End(): nat { Pow2(minBits) + 1 }

    /** What every reachable decoder satisfies. */
    ghost predicate Good() {
      && 2 <= minBits < MAX_BITS
      && minBits + 1 <= width <= MAX_BITS
      && Clear() + 2 <= |words| <= MAX_CODES
      && words[..Clear() + 2] == Initial(minBits)
      && (|words| < Pow2(width) || width == MAX_BITS)
      && (width == minBits + 1 || |words| >= Pow2(width - 1))
      && (forall k :: Clear() + 2 <= k < |words| ==> 0 < |words[k]| <= k + 1)
      && |previous| <= |words|
      && (previous == [] ==> |words| == Clear() + 2 && width == minBits + 1)
    }

    predicate Accepts(code: nat) {
      if code == Clear() then true
      else if code == End() then previous != []
      else if previous == [] then code < Clear()
      else code < |words| || (code == |words| && |words| < MAX_CODES)
    }

    /** The string a data code stands for; a code not yet in the dictionary repeats the previous string's head. */
    function Word(code: nat): Pixels {
      if code < |words| then words[code]
      else if previous == [] then []
      else previous + [previous[0]]
    }

    function Emits(code: nat): Pixels {
      if code == Clear() || code == End() then [] else Word(code)
    }

    function Step(code: nat): Decoder {
      if code == Clear() then Fresh(minBits)
      else if code == End() || Word(code) == [] then this
      else if previous == [] then this.(previous := Word(code))
      else if |words| < MAX_CODES then
        var grown := words + [previous + [Word(code)[0]]];
        Decoder(minBits, if |grown| >= Pow2(width) && width < MAX_BITS then width + 1 else width, grown, Word(code))
      else this.(previous := Word(code))
    }
  }

  /** The decoder after a list of codes. */
  function Run(d: Decoder, codes: seq<nat>): Decoder
    decreases codes
  {
    if codes == [] then d else Run(d.Step(codes[0]), codes[1..])
  }

  /** The pixels a list of codes stands for. */
  function Decode(d: Decoder, codes: seq<nat>): Pixels
    decreases codes
  {
    if codes == [] then [] else d.Emits(codes[0]) + Decode(d.Step(codes[0]), codes[1..])
  }

  /** The codes as bits, each as wide as the decoder expects it at that point. */
  function Pack(d: Decoder, codes: seq<nat>): seq<bool>
    decreases codes
  {
    if codes == [] then [] else ToBits(codes[0], d.width) + Pack(d.Step(codes[0]), codes[1..])
  }

  /** Every code is acceptable where it stands and End does not occur. */
  predicate Accepted(d: Decoder, codes: seq<nat>)
    decreases codes
  {
    codes == [] || (codes[0] != d.End() && d.Accepts(codes[0]) && Accepted(d.Step(codes[0]), codes[1..]))
  }

  lemma MinBitsBound(minBits: nat)
    requires 2 <= minBits < MAX_BITS
    ensures 4 <= Pow2(minBits) && 2 * Pow2(minBits) <= MAX_CODES && Pow2(MAX_BITS) == MAX_CODES
  {
    Pow2Monotone(2, minBits);
    Pow2Monotone(minBits, MAX_BITS - 1);
    assert Pow2(MAX_BITS) == MAX_CODES;
    assert Pow2(2) == 4;
  }

  /** The Clear code is always acceptable, stands for nothing, and starts over. */
  lemma ClearStep(d: Decoder)
    ensures d.Accepts(d.Clear()) && d.Emits(d.Clear()) == [] && d.Step(d.Clear()) == Fresh(d.minBits)
    ensures d.Clear() == Pow2(d.minBits) && d.Clear() != d.End()
    ensures |Fresh(d.minBits).words| == Pow2(d.minBits) + 2
  {
  }

  lemma FreshIsGood(minBits: nat)
    requires 2 <= minBits < MAX_BITS
    ensures Fresh(minBits).Good()
  {
    MinBitsBound(minBits);
    assert Initial(minBits)[..Pow2(minBits) + 2] == Initial(minBits);
    Pow2Monotone(2, minBits);
  }

  /** An acceptable data code stands for a non-empty string, short enough for the reader's stack. */
  lemma WordLength(d: Decoder, code: nat)
    requires d.Good() && d.Accepts(code) && code != d.Clear() && code != d.End()
    ensures 0 < |d.Word(code)| <= code + 1 <= MAX_CODES
    ensures d.previous == [] ==> d.Word(code) == [code]
  {
    if code < d.Clear() {
      assert d.words[code] == d.words[..d.Clear() + 2][code];
    }
  }

  lemma WidthBound(d: Decoder, code: nat)
    requires d.Good() && d.Accepts(code)
    ensures code < Pow2(d.width)
    ensures d.previous == [] ==> d.Clear() + 2 < Pow2(d.width)
    ensures d.width < MAX_BITS ==> Pow2(d.width + 1) == 2 * Pow2(d.width)
  {
    MinBitsBound(d.minBits);
    Pow2Monotone(d.minBits + 1, d.width);
    assert Pow2(d.minBits + 1) == 2 * Pow2(d.minBits);
  }

  /**
   The width is the least one, of those above the code size, that every code in the dictionary fits: codes grow to
   12 bits, and the dictionary to 4096 strings.
   */
  lemma WidthIsLeast(d: Decoder)
    requires d.Good()
    ensures |d.words| <= 4096 && d.minBits + 1 <= d.width <= 12 && (|d.words| < Pow2(d.width) || d.width == 12)
    ensures d.width == d.minBits + 1 || |d.words| >= Pow2(d.width - 1)
  {
  }

  /** Learning a string. */
  lemma GrownIsGood(d: Decoder, code: nat)
    requires d.Good() && d.Accepts(code) && code != d.Clear() && code != d.End()
    requires d.previous != [] && |d.words| < MAX_CODES
    ensures d.Step(code).Good() && d.Step(code).minBits == d.minBits
  {
    hide Initial, Pow2;
    MinBitsBound(d.minBits);
    WidthBound(d, code);
    WordLength(d, code);
    var word := d.previous + [d.Word(code)[0]];
    assert (d.words + [word])[..d.Clear() + 2] == d.words[..d.Clear() + 2];
    assert d.Step(code).words == d.words + [word];
  }

  /** A reachable decoder stays reachable, and every acceptable code fits the width it is read with. */
  lemma StepIsGood(d: Decoder, code: nat)
    requires d.Good() && d.Accepts(code)
    ensures d.Step(code).Good() && d.Step(code).minBits == d.minBits
    ensures code < Pow2(d.width)
  {
    hide Initial, Pow2;
    MinBitsBound(d.minBits);
    WidthBound(d, code);
    if code == d.Clear() {
      FreshIsGood(d.minBits);
    } else if code != d.End() {
      WordLength(d, code);
      if d.previous != [] && |d.words| < MAX_CODES { GrownIsGood(d, code); }
    }
  }

  lemma {:induction false} RunIsGood(d: Decoder, codes: seq<nat>)
    requires d.Good() && Accepted(d, codes)
    ensures Run(d, codes).Good() && Run(d, codes).minBits == d.minBits
    decreases codes
  {
    if codes != [] {
      StepIsGood(d, codes[0]);
      RunIsGood(d.Step(codes[0]), codes[1..]);
    }
  }

  /** What one more code at the end adds. */
  lemma {:induction false} Append(d: Decoder, codes: seq<nat>, code: nat)
    ensures Run(d, codes + [code]) == Run(d, codes).Step(code)
    ensures Decode(d, codes + [code]) == Decode(d, codes) + Run(d, codes).Emits(code)
    ensures Pack(d, codes + [code]) == Pack(d, codes) + ToBits(code, Run(d, codes).width)
    ensures Accepted(d, codes) && code != Run(d, codes).End() && Run(d, codes).Accepts(code)
            ==> Accepted(d, codes + [code])
    decreases codes
  {
    hide ToBits, Pow2, Decoder.Step, Decoder.Emits, Decoder.Accepts;
    var all := codes + [code];
    if codes == [] {
      assert all[1..] == [];
    } else {
      assert all[1..] == codes[1..] + [code];
      Append(d.Step(codes[0]), codes[1..], code);
    }
  }
}
