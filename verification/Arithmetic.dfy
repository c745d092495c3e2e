/** Products and quotients of integers, in small steps. */
module Arithmetic {
  lemma {:induction false} NonNegative(a: nat, b: nat)
    ensures a * b >= 0
    decreases a
  {
    if a > 0 {
      NonNegative(a - 1, b);
      assert a * b == (a - 1) * b + b;
    }
  }

  /** Multiplying by a natural number keeps the order. */
  lemma Ordered(a: int, b: int, c: nat)
    requires a <= b
    ensures a * c <= b * c
  {
    NonNegative(b - a, c);
    assert (b - a) * c == b * c - a * c;
  }

  /** Different multiples of w are at least w apart. */
  lemma Apart(w: nat, a: int, b: int)
    ensures a > b ==> w * a >= w * b + w
  {
    if a > b {
      NonNegative(w, a - b - 1);
      assert w * (a - b - 1) == w * a - w * b - w;
    }
  }

  /** What a division has to yield. */
  lemma Quotient(v: int, w: int, q: int, r: int)
    requires w > 0 && v == w * q + r && 0 <= r < w
    ensures v / w == q && v % w == r
  {
    assert v == w * (v / w) + v % w;
    Apart(w, v / w, q);
    Apart(w, q, v / w);
  }

  /** One more divisor adds one to the quotient. */
  lemma OneMore(v: int, w: int)
    requires w > 0
    ensures (v + w) / w == v / w + 1 && (v + w) % w == v % w
  {
    assert v == w * (v / w) + v % w;
    assert w * (v / w + 1) == w * (v / w) + w;
    Quotient(v + w, w, v / w + 1, v % w);
  }

  /** Numbers with the same remainder are equal or at least the divisor apart. */
  lemma SameRest(u: int, v: int, w: int)
    requires w > 0 && u % w == v % w
    ensures u >= v + w || u == v || v >= u + w
  {
    assert u == w * (u / w) + u % w && v == w * (v / w) + v % w;
    Apart(w, u / w, v / w);
    Apart(w, v / w, u / w);
  }
}
