/** The writer's open-addressing string table: `htab`, `codetab` and the probing inside `putImage`. */
module GifStringTable {
  import opened Arithmetic

  const HSIZE: nat := 5003

  // ------------------------------------------------------------------ 5003 is prime

  lemma BothLarge(d: nat, e: nat)
    requires d >= 71 && e >= 71
    ensures d * e >= 5041
  {
    Ordered(71, d, e);
  }

  predicate NoDivisorIn(lo: nat, hi: nat)
    requires 2 <= lo < hi
    decreases hi - lo
  {
    if hi - lo == 1 then 5003 % lo != 0
    else NoDivisorIn(lo, (lo + hi) / 2) && NoDivisorIn((lo + hi) / 2, hi)
  }

  lemma {:induction false} NotDivided(lo: nat, hi: nat, d: nat, e: nat)
    requires 2 <= lo <= d < hi && NoDivisorIn(lo, hi)
    ensures d * e != 5003
    decreases hi - lo
  {
    if hi - lo == 1 {
      if d * e == 5003 { Quotient(5003, d, e, 0); }
    } else if d < (lo + hi) / 2 {
      NotDivided(lo, (lo + hi) / 2, d, e);
    } else {
      NotDivided((lo + hi) / 2, hi, d, e);
    }
  }

  lemma HashSizeIsPrime(d: nat, e: nat)
    requires 2 <= d < HSIZE
    ensures d * e != HSIZE
  {
    assert NoDivisorIn(2, 71);
    if d <= 70 {
      NotDivided(2, 71, d, e);
    } else if d * e == HSIZE {
      if e >= 71 {
        BothLarge(d, e);
      } else if e >= 2 {
        NotDivided(2, 71, e, d);
      }
    }
  }

  /** A product that is a multiple of 5003, with one factor that is not, has the other as a multiple. */
  lemma {:induction false} Cancel(d: nat, m: nat, q: int)
    requires 1 <= d < HSIZE && m * d == HSIZE * q
    ensures exists k: int :: m == HSIZE * k
    decreases d
  {
    if d == 1 {
      assert m == HSIZE * q;
    } else {
      var t, r := HSIZE / d, HSIZE % d;
      HashSizeIsPrime(d, t);
      assert m * HSIZE == t * (m * d) + m * r by {
        assert m * HSIZE == m * (t * d) + m * r;
        assert m * (t * d) == t * (m * d);
      }
      assert m * r == HSIZE * (m - t * q) by {
        assert t * (HSIZE * q) == HSIZE * (t * q);
      }
      Cancel(r, m, m - t * q);
    }
  }

  // ------------------------------------------------------------------ probe sequences

  /** The slots visited from `start` in steps of `-step`, wrapping below zero; wraps[t] counts the wraps. */
  ghost predicate IsTrail(trail: seq<nat>, wraps: seq<nat>, start: nat, step: nat) {
    && |wraps| == |trail|
    && forall t :: 0 <= t < |trail| ==> trail[t] < HSIZE && trail[t] == start - t * step + HSIZE * wraps[t]
  }

  /** A probe sequence repeats no slot before it has visited all 5003. */
  lemma NoRepeat(trail: seq<nat>, wraps: seq<nat>, start: nat, step: nat, a: nat, b: nat)
    requires IsTrail(trail, wraps, start, step) && 1 <= step < HSIZE
    requires a < b < |trail| <= HSIZE
    ensures trail[a] != trail[b]
  {
    if trail[a] == trail[b] {
      assert b * step - a * step == HSIZE * (wraps[b] - wraps[a]);
      assert (b - a) * step == b * step - a * step;
      Cancel(step, b - a, wraps[b] - wraps[a]);
    }
  }

  lemma {:induction false} DistinctFit(s: seq<nat>, room: set<nat>)
    requires forall i, j :: 0 <= i < j < |s| ==> s[i] != s[j]
    requires forall i :: 0 <= i < |s| ==> s[i] in room
    ensures |s| <= |room|
  {
    if s != [] {
      var last := s[|s| - 1];
      DistinctFit(s[..|s| - 1], room - {last});
    }
  }

  /** A probe sequence inside the filled slots is shorter than the table. */
  lemma TrailFits(trail: seq<nat>, wraps: seq<nat>, start: nat, step: nat, filled: set<nat>)
    requires IsTrail(trail, wraps, start, step) && 1 <= step < HSIZE && |trail| <= HSIZE
    requires forall t :: 0 <= t < |trail| ==> trail[t] in filled
    ensures |trail| <= |filled|
  {
    forall a, b | 0 <= a < b < |trail| ensures trail[a] != trail[b] {
      NoRepeat(trail, wraps, start, step, a, b);
    }
    DistinctFit(trail, filled);
  }

  // ------------------------------------------------------------------ the table

  /** `((long)c << maxbits) + ent`. */
  function Key(c: nat, ent: nat): nat {
    c * 4096 + ent
  }

  /** Keys of a pixel and a 12-bit code. */
  predicate IsKey(key: nat) {
    key < 256 * 4096
  }

  lemma KeyParts(c: nat, ent: nat)
    requires ent < 4096
    ensures Key(c, ent) / 4096 == c && Key(c, ent) % 4096 == ent
    ensures c < 256 ==> IsKey(Key(c, ent))
  {
    Quotient(Key(c, ent), 4096, c, ent);
  }

  /** `(c << hshift) ^ ent`, with hshift 4 for a table of 5003 slots; both operands fit in 12 bits. */
  function Hash(c: nat, ent: nat): (i: nat)
    requires c < 256 && ent < 4096
    ensures i < HSIZE
  {
    (((c as bv12) << 4) ^ (ent as bv12)) as nat
  }

  function FirstSlot(key: nat): (i: nat)
    requires IsKey(key)
    ensures i < HSIZE
  {
    Hash(key / 4096, key % 4096)
  }

  /** The distance between secondary probes, after G. Knott. */
  function Displacement(first: nat): (disp: nat)
    requires first < HSIZE
    ensures 1 <= disp < HSIZE
  {
    if first == 0 then 1 else HSIZE - first
  }

  function NextProbe(i: nat, disp: nat): (n: nat)
    requires i < HSIZE && 1 <= disp < HSIZE
    ensures n < HSIZE
  {
    if i < disp then i - disp + HSIZE else i - disp
  }

  /** Where the secondary probes that go on from slot i end: at the key, or at a slot taken for an empty one. */
  function Seek(htab: seq<int>, key: nat, i: nat, disp: nat, fuel: nat): (slot: nat)
    requires |htab| == HSIZE && i < HSIZE && 1 <= disp < HSIZE
    ensures slot < HSIZE
    decreases fuel
  {
    var n := NextProbe(i, disp);
    if fuel == 0 || htab[n] == key || htab[n] <= 0 then n else Seek(htab, key, n, disp, fuel - 1)
  }

  /**
   Where the search for a key ends. The first probe takes any stored key for one, the later ones only keys above 0.
   */
  function Slot(htab: seq<int>, key: nat): (slot: nat)
    requires |htab| == HSIZE && IsKey(key)
    ensures slot < HSIZE
  {
    var first := FirstSlot(key);
    if htab[first] == key || htab[first] < 0 then first else Seek(htab, key, first, Displacement(first), HSIZE - 1)
  }

  // ------------------------------------------------------------------ what the probes visit

  /** The slot of probe number t: steps of the first slot itself, modulo 5003, or steps down from slot 0. */
  function Probe(first: nat, t: nat): (slot: nat)
    requires first < 5003
    ensures slot < 5003
  {
    if first == 0 then (5003 - t) % 5003 else first * (t + 1) % 5003
  }

  lemma ProbeStep(first: nat, t: nat)
    requires first < HSIZE && t < 5003
    ensures Probe(first, 0) == first
    ensures NextProbe(Probe(first, t), Displacement(first)) == Probe(first, t + 1)
  {
    if first == 0 {
      Quotient(5003 - t, 5003, if t == 0 then 1 else 0, if t == 0 then 0 else 5003 - t);
      Quotient(5003 - (t + 1), 5003, 0, 5002 - t);
    } else {
      Quotient(first, 5003, 0, first);
      var v := first * (t + 1);
      var i, q := v % 5003, v / 5003;
      assert v == 5003 * q + i;
      assert first * (t + 2) == v + first;
      if i + first < 5003 {
        Quotient(v + first, 5003, q, i + first);
      } else {
        Quotient(v + first, 5003, q + 1, i + first - 5003);
      }
    }
  }

  /** A search ends at probe t: none of the probes before it was the key or taken for empty. */
  ghost predicate EndsAtProbe(htab: seq<int>, key: nat, first: nat, slot: nat, t: nat) {
    && |htab| == 5003 && first < 5003 && slot == Probe(first, t)
    && forall u :: 0 <= u < t ==> htab[Probe(first, u)] != key
                                  && (htab[Probe(first, u)] > 0 || (u == 0 && htab[Probe(first, u)] == 0))
  }

  lemma {:induction false} SeekEnds(htab: seq<int>, key: nat, first: nat, t0: nat, fuel: nat) returns (t: nat)
    requires |htab| == HSIZE && first < HSIZE && t0 + fuel < 5003
    requires EndsAtProbe(htab, key, first, Probe(first, t0), t0) && htab[Probe(first, t0)] != key
    requires htab[Probe(first, t0)] > 0 || (t0 == 0 && htab[Probe(first, t0)] == 0)
    ensures t <= t0 + fuel + 1
    ensures EndsAtProbe(htab, key, first, Seek(htab, key, Probe(first, t0), Displacement(first), fuel), t)
    decreases fuel
  {
    hide Probe, Displacement, NextProbe;
    ProbeStep(first, t0);
    var n := Probe(first, t0 + 1);
    if fuel == 0 || htab[n] == key || htab[n] <= 0 {
      t := t0 + 1;
    } else {
      t := SeekEnds(htab, key, first, t0 + 1, fuel - 1);
    }
  }

  /** The meaning of `Slot`, without its recursion. */
  lemma SlotEnds(htab: seq<int>, key: nat) returns (t: nat)
    requires |htab| == HSIZE && IsKey(key)
    ensures t <= 5003 && EndsAtProbe(htab, key, FirstSlot(key), Slot(htab, key), t)
  {
    hide FirstSlot, Probe, Displacement, NextProbe, Seek;
    var first := FirstSlot(key);
    ProbeStep(first, 0);
    if htab[first] == key || htab[first] < 0 {
      t := 0;
    } else {
      t := SeekEnds(htab, key, first, 0, HSIZE - 1);
    }
  }

  // ------------------------------------------------------------------ keys stay where they can be found

  predicate Found(htab: seq<int>, key: nat)
    requires |htab| == HSIZE && IsKey(key)
  {
    htab[Slot(htab, key)] == key
  }

  lemma {:induction false} SeekKept(htab: seq<int>, s: nat, other: nat, key: nat, i: nat, disp: nat, fuel: nat)
    requires |htab| == HSIZE && s < HSIZE && i < HSIZE && 1 <= disp < HSIZE && other != key && key > 0
    requires htab[s] <= 0 && htab[Seek(htab, key, i, disp, fuel)] == key
    ensures Seek(htab[s := other], key, i, disp, fuel) == Seek(htab, key, i, disp, fuel) != s
    decreases fuel
  {
    hide NextProbe;
    var n := NextProbe(i, disp);
    if fuel > 0 && htab[n] != key && htab[n] > 0 {
      SeekKept(htab, s, other, key, n, disp, fuel - 1);
    }
  }

  /** Storing another key over an empty slot, or over key 0, loses no key above 0. */
  lemma FoundKept(htab: seq<int>, s: nat, other: nat, key: nat)
    requires |htab| == HSIZE && IsKey(key) && key > 0 && s < HSIZE && htab[s] <= 0 && other != key
    requires Found(htab, key)
    ensures Found(htab[s := other], key) && Slot(htab[s := other], key) == Slot(htab, key) != s
  {
    hide FirstSlot, Displacement, Seek;
    var first := FirstSlot(key);
    if htab[first] != key && htab[first] >= 0 {
      SeekKept(htab, s, other, key, first, Displacement(first), HSIZE - 1);
    }
  }

  lemma {:induction false} SeekStored(htab: seq<int>, key: nat, i: nat, disp: nat, fuel: nat)
    requires |htab| == HSIZE && i < HSIZE && 1 <= disp < HSIZE
    requires htab[Seek(htab, key, i, disp, fuel)] <= 0
    ensures var s := Seek(htab, key, i, disp, fuel); Seek(htab[s := key], key, i, disp, fuel) == s
    decreases fuel
  {
    hide NextProbe;
    var n := NextProbe(i, disp);
    if fuel > 0 && htab[n] != key && htab[n] > 0 {
      SeekStored(htab, key, n, disp, fuel - 1);
    }
  }

  /** A key stored where the search for it missed is found there by the next search. */
  lemma JustStored(htab: seq<int>, key: nat)
    requires |htab| == HSIZE && IsKey(key) && htab[Slot(htab, key)] <= 0
    ensures Slot(htab[Slot(htab, key) := key], key) == Slot(htab, key)
  {
    hide FirstSlot, Displacement, Seek;
    var first := FirstSlot(key);
    if htab[first] != key && htab[first] >= 0 {
      SeekStored(htab, key, first, Displacement(first), HSIZE - 1);
    }
  }

  ghost predicate AreKeys(keys: seq<nat>) {
    forall j :: 0 <= j < |keys| ==> IsKey(keys[j])
  }

  /** The table after storing these keys one after the other, each where the search for it ended. */
  function TableOf(keys: seq<nat>): (htab: seq<int>)
    requires AreKeys(keys)
    ensures |htab| == HSIZE
  {
    if keys == [] then seq(HSIZE, i => -1)
    else
      var before, key := TableOf(keys[..|keys| - 1]), keys[|keys| - 1];
      before[Slot(before, key) := key]
  }

  /** Every key above 0 can be found. */
  ghost predicate AllFound(htab: seq<int>, keys: seq<nat>)
    requires |htab| == HSIZE && AreKeys(keys)
  {
    forall j :: 0 <= j < |keys| && keys[j] > 0 ==> Found(htab, keys[j])
  }

  /** One more key loses none of the others. */
  lemma AllStillFound(htab: seq<int>, keys: seq<nat>, key: nat)
    requires |htab| == HSIZE && AreKeys(keys) && IsKey(key) && AllFound(htab, keys) && htab[Slot(htab, key)] <= 0
    ensures AreKeys(keys + [key]) && AllFound(htab[Slot(htab, key) := key], keys + [key])
  {
    hide Slot;
    var s := Slot(htab, key);
    forall j | 0 <= j < |keys + [key]| && (keys + [key])[j] > 0
      ensures Found(htab[s := key], (keys + [key])[j])
    {
      if j < |keys| && keys[j] != key {
        FoundKept(htab, s, key, keys[j]);
      } else {
        JustStored(htab, key);
      }
    }
  }

  lemma StartTrail(start: nat, step: nat) returns (trail: seq<nat>, counts: seq<nat>)
    requires start < HSIZE
    ensures trail == [start] && IsTrail(trail, counts, start, step)
  {
    trail, counts := [start], [0];
  }

  lemma Extend(trail: seq<nat>, wraps: seq<nat>, start: nat, step: nat, i: int)
    returns (longer: seq<nat>, counts: seq<nat>)
    requires IsTrail(trail, wraps, start, step) && 0 < |trail| && 0 <= i < HSIZE && 1 <= step < HSIZE
    requires i == trail[|trail| - 1] - step || i == trail[|trail| - 1] - step + HSIZE
    ensures IsTrail(longer, counts, start, step) && longer == trail + [i]
  {
    var n := |trail|;
    assert n * step == (n - 1) * step + step;
    var w := if i == trail[n - 1] - step then wraps[n - 1] else wraps[n - 1] + 1;
    longer, counts := trail + [i], wraps + [w];
  }

  class StringTable {
    const htab: array<int>
    const codetab: array<nat>
    ghost var filled: set<nat>

    constructor ()
      ensures fresh(htab) && fresh(codetab)
      ensures htab.Length == HSIZE && codetab.Length == HSIZE
    {
      htab := new int[HSIZE];
      codetab := new nat[HSIZE];
      filled := {};
    }

    /** A filled slot holds one of the keys and the code that was given to it: `base` for the first, and so on. */
    ghost predicate Holds(base: nat, keys: seq<nat>, i: nat)
      requires htab.Length == HSIZE && codetab.Length == HSIZE && i < HSIZE
      reads htab, codetab
    {
      base <= codetab[i] < base + |keys| && htab[i] == keys[codetab[i] - base]
    }

    /** The table holds the keys stored since the last clear. */
    ghost predicate Sound(base: nat, keys: seq<nat>)
      reads this, htab, codetab
    {
      && htab.Length == HSIZE && codetab.Length == HSIZE
      && AreKeys(keys) && htab[..] == TableOf(keys) && AllFound(htab[..], keys)
      && (forall i :: 0 <= i < HSIZE && htab[i] != -1 ==> Holds(base, keys, i) && i in filled)
      && |filled| <= |keys|
    }

    /** `cl_hash`. */
    method Clear(ghost base: nat)
      requires htab.Length == HSIZE && codetab.Length == HSIZE
      modifies this`filled, htab
      ensures Sound(base, [])
    {
      for i := 0 to HSIZE
        invariant forall k :: 0 <= k < i ==> htab[k] == -1
      {
        htab[i] := -1;
      }
      filled := {};
      assert htab[..] == TableOf([]);
    }

    /** A stored key found again names its code. */
    lemma HitIsSound(base: nat, keys: seq<nat>, i: nat, key: nat)
      requires Sound(base, keys) && i < HSIZE && htab[i] == key
      ensures base <= codetab[i] < base + |keys| && keys[codetab[i] - base] == key
    {
      assert Holds(base, keys, i);
    }

    /** A key above 0 that has been stored does not miss. */
    lemma MissIsNew(base: nat, keys: seq<nat>, key: nat)
      requires Sound(base, keys) && IsKey(key) && htab[Slot(htab[..], key)] != key
      ensures key > 0 ==> key !in keys
    {
    }

    /**
     The secondary probes, in steps of `disp`. A miss ends in a slot that is empty or holds key 0: the
     guard `v > 0` takes key 0 for an empty slot, so its entry may be overwritten.
     */
    method FindAgain(fcode: nat, first: nat, ghost base: nat, ghost keys: seq<nat>)
      returns (hit: bool, slot: nat, code: nat)
      requires Sound(base, keys) && |keys| < HSIZE && IsKey(fcode)
      requires first == FirstSlot(fcode) && htab[first] >= 0 && htab[first] != fcode
      ensures slot == Slot(htab[..], fcode) && (hit <==> htab[slot] == fcode)
      ensures hit ==> code == codetab[slot]
      ensures !hit ==> htab[slot] == -1 || htab[slot] == 0
    {
      hide IsTrail, FirstSlot, TableOf, AllFound;
      var disp := HSIZE - first;
      if first == 0 { disp := 1; }
      var i: int := first;
      ghost var trail: seq<nat>, wraps: seq<nat> := StartTrail(first, disp);
      assert Holds(base, keys, first) && first in filled;
      while true
        invariant 0 <= i < HSIZE && 0 < |trail| <= |filled| && trail[|trail| - 1] == i
        invariant IsTrail(trail, wraps, first, disp)
        invariant Slot(htab[..], fcode) == Seek(htab[..], fcode, i, disp, HSIZE - |trail|)
        invariant forall t :: 0 <= t < |trail| ==> trail[t] in filled
        decreases HSIZE - |trail|
      {
        i := i - disp;
        if i < 0 { i := i + HSIZE; }
        var v := htab[i];
        if v == fcode {
          return true, i, codetab[i];
        }
        assert v != -1 ==> Holds(base, keys, i) && i in filled;
        if v <= 0 {
          return false, i, 0;
        }
        trail, wraps := Extend(trail, wraps, first, disp, i);
        TrailFits(trail, wraps, first, disp, filled);
      }
    }

    /** The first probe. */
    method Find(c: nat, ent: nat, ghost base: nat, ghost keys: seq<nat>)
      returns (hit: bool, slot: nat, code: nat)
      requires Sound(base, keys) && |keys| < HSIZE && c < 256 && ent < 4096
      ensures IsKey(Key(c, ent)) && slot == Slot(htab[..], Key(c, ent)) && (hit <==> htab[slot] == Key(c, ent))
      ensures hit ==> base <= code < base + |keys| && keys[code - base] == Key(c, ent)
      ensures !hit ==> (htab[slot] == -1 || htab[slot] == 0) && (Key(c, ent) > 0 ==> Key(c, ent) !in keys)
    {
      hide Hash, TableOf, AllFound, Seek;
      var fcode := Key(c, ent);
      slot := Hash(c, ent);
      KeyParts(c, ent);
      var v := htab[slot];
      if v == fcode {
        HitIsSound(base, keys, slot, fcode);
        return true, slot, codetab[slot];
      } else if v >= 0 {
        hit, slot, code := FindAgain(fcode, slot, base, keys);
        if hit { HitIsSound(base, keys, slot, fcode); }
      } else {
        assert v != -1 ==> Holds(base, keys, slot);
        hit, code := false, 0;
      }
      if !hit { MissIsNew(base, keys, fcode); }
    }

    /** `CodeTabOf(i) = free_ent++; HashTabOf(i) = fcode`. */
    method Insert(slot: nat, c: nat, ent: nat, code: nat, ghost base: nat, ghost keys: seq<nat>)
      requires Sound(base, keys) && c < 256 && ent < 4096 && IsKey(Key(c, ent))
      requires slot == Slot(htab[..], Key(c, ent)) && (htab[slot] == -1 || htab[slot] == 0) && code == base + |keys|
      modifies this`filled, htab, codetab
      ensures Sound(base, keys + [Key(c, ent)])
    {
      hide Slot, Found;
      ghost var key, before := Key(c, ent), htab[..];
      AllStillFound(before, keys, key);
      codetab[slot] := code;
      htab[slot] := Key(c, ent);
      filled := filled + {slot};
      assert (keys + [key])[..|keys|] == keys;
      assert htab[..] == before[slot := key];
      assert TableOf(keys + [key]) == htab[..];
      forall i | 0 <= i < HSIZE && htab[i] != -1 ensures Holds(base, keys + [key], i) && i in filled {
        if i != slot { assert old(Holds(base, keys, i)); }
      }
    }
  }
}
