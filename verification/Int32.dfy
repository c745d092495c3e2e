/** Signed 32-bit arithmetic that wraps. */
module Int32 {
  import Arithmetic

  const WORD32: int := 0x1_0000_0000

  /** What is left of an integer in a signed 32-bit one. */
  function AsInt32(v: int): int {
    (v + 0x8000_0000) % WORD32 - 0x8000_0000
  }

  predicate IsInt32(v: int) {
    -0x8000_0000 <= v < 0x8000_0000
  }

  /** Two integers that a 32-bit one cannot tell apart. */
  predicate Same(a: int, b: int) {
    AsInt32(a) == AsInt32(b)
  }

  /** Wrapping takes away multiples of the word. */
  lemma Turns(v: int) returns (m: int)
    ensures v == AsInt32(v) + WORD32 * m && IsInt32(AsInt32(v))
    ensures IsInt32(v) <==> AsInt32(v) == v
  {
    m := (v + 0x8000_0000) / WORD32;
    assert v + 0x8000_0000 == WORD32 * m + (v + 0x8000_0000) % WORD32;
    if IsInt32(v) { Arithmetic.Quotient(v + 0x8000_0000, WORD32, 0, v + 0x8000_0000); }
  }

  lemma SameTurned(v: int, m: int)
    ensures Same(v + WORD32 * m, v)
  {
    var u := v + 0x8000_0000;
    assert u == WORD32 * (u / WORD32) + u % WORD32;
    Arithmetic.Quotient(u + WORD32 * m, WORD32, u / WORD32 + m, u % WORD32);
  }

  /** What is left of an integer is 32 bits wide and as good as the integer. */
  lemma SameWrapped(v: int)
    ensures Same(AsInt32(v), v) && IsInt32(AsInt32(v)) && (IsInt32(v) <==> AsInt32(v) == v)
  {
    var m := Turns(v);
    SameTurned(AsInt32(v), m);
  }

  /** Integers that look the same are whole turns apart. */
  lemma TurnsApart(a: int, b: int) returns (m: int)
    requires Same(a, b)
    ensures a == b + WORD32 * m
  {
    var i := Turns(a);
    var j := Turns(b);
    m := i - j;
  }

  /** Sums, differences and multiples of integers that look the same look the same. */
  lemma SameSum(a: int, a': int, b: int, b': int)
    requires Same(a, a') && Same(b, b')
    ensures Same(a + b, a' + b') && Same(a - b, a' - b') && Same(512 * a, 512 * a')
  {
    hide AsInt32, Same;
    var i := TurnsApart(a, a');
    var j := TurnsApart(b, b');
    SameTurned(a' + b', i + j);
    SameTurned(a' - b', i - j);
    SameTurned(512 * a', 512 * i);
  }

  /** Adding in 32-bit arithmetic. */
  lemma Added32(a: int, b: int)
    ensures AsInt32(AsInt32(a) + b) == AsInt32(a + b)
  {
    SameWrapped(a);
    SameSum(AsInt32(a), a, b, b);
  }

  /** `(cover << 9) - area` in 32-bit arithmetic. */
  lemma Coverage32(cover: int, area: int)
    ensures AsInt32(AsInt32(AsInt32(cover) * 512) - AsInt32(area)) == AsInt32(512 * cover - area)
    ensures AsInt32(AsInt32(cover) * 512) == AsInt32(512 * cover)
  {
    hide AsInt32;
    SameWrapped(cover);
    SameWrapped(area);
    SameWrapped(512 * AsInt32(cover));
    SameSum(AsInt32(cover), cover, 0, 0);
    SameSum(AsInt32(512 * AsInt32(cover)), 512 * cover, AsInt32(area), area);
  }
}
