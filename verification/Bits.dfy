/** Least-significant-bit-first bit strings, the common language of the GIF code packer and unpacker. */
module Bits {
  /** 2 to the power n. */
  function Pow2(n: nat): (p: nat)
    ensures p >= 1
  {
    if n == 0 then 1 else 2 * Pow2(n - 1)
  }

  /** C's `v << k`, without a word size. */
  function Shl(v: nat, k: nat): nat {
    if k == 0 then v else 2 * Shl(v, k - 1)
  }

  /** C's `v >> k` on a non-negative value. */
  function Shr(v: nat, k: nat): nat {
    if k == 0 then v else Shr(v / 2, k - 1)
  }

  /** C's `v & mask` for the mask made of k ones. */
  function Low(v: nat, k: nat): nat {
    if k == 0 then 0 else v % 2 + 2 * Low(v / 2, k - 1)
  }

  /** The low n bits of v, least significant first. */
  function ToBits(v: nat, n: nat): (b: seq<bool>)
    ensures |b| == n
  {
    if n == 0 then [] else [v % 2 == 1] + ToBits(v / 2, n - 1)
  }

  /** The eight bits of a byte. */
  function ByteBits(v: nat): (b: seq<bool>)
    ensures |b| == 8
  {
    ToBits(v, 8)
  }

  /** The bits of a byte string, byte by byte. */
  function BitsOf(bytes: seq<nat>): (b: seq<bool>)
    ensures |b| == 8 * |bytes|
  {
    if bytes == [] then [] else ByteBits(bytes[0]) + BitsOf(bytes[1..])
  }

  lemma {:induction false} LowBound(v: nat, k: nat)
    ensures Low(v, k) < Pow2(k)
  {
    if k > 0 { LowBound(v / 2, k - 1); }
  }

  lemma {:induction false} LowIdentity(v: nat, k: nat)
    requires v < Pow2(k)
    ensures Low(v, k) == v
  {
    if k > 0 { LowIdentity(v / 2, k - 1); }
  }

  lemma {:induction false} Pow2Monotone(m: nat, n: nat)
    requires m <= n
    ensures Pow2(m) <= Pow2(n)
  {
    if m < n { Pow2Monotone(m, n - 1); }
  }

  lemma {:induction false} ShlBound(v: nat, k: nat, n: nat)
    requires v < Pow2(n)
    ensures Shl(v, k) + Pow2(k) <= Pow2(k + n)
  {
    if k > 0 { ShlBound(v, k - 1, n); }
  }

  lemma {:induction false} ShrBound(v: nat, k: nat, n: nat)
    requires v < Pow2(k + n)
    ensures Shr(v, k) < Pow2(n)
  {
    if k > 0 { ShrBound(v / 2, k - 1, n); }
  }

  /** A number below 2^n is determined by its n bits. */
  lemma {:induction false} ToBitsInjective(u: nat, v: nat, n: nat)
    requires u < Pow2(n) && v < Pow2(n) && ToBits(u, n) == ToBits(v, n)
    ensures u == v
  {
    if n > 0 {
      assert ToBits(u, n)[0] == ToBits(v, n)[0];
      assert ToBits(u, n)[1..] == ToBits(u / 2, n - 1);
      assert ToBits(v, n)[1..] == ToBits(v / 2, n - 1);
      ToBitsInjective(u / 2, v / 2, n - 1);
    }
  }

  lemma {:induction false} ToBitsLow(v: nat, n: nat)
    ensures ToBits(Low(v, n), n) == ToBits(v, n)
  {
    if n > 0 { ToBitsLow(v / 2, n - 1); }
  }

  /** Or-ing a shifted value above a k-bit value appends its bits. */
  lemma {:induction false} ToBitsJoin(lo: nat, hi: nat, k: nat, n: nat)
    requires lo < Pow2(k)
    ensures ToBits(lo + Shl(hi, k), k + n) == ToBits(lo, k) + ToBits(hi, n)
  {
    if k > 0 { ToBitsJoin(lo / 2, hi, k - 1, n); }
  }

  lemma {:induction false} ToBitsTake(v: nat, n: nat, k: nat)
    requires k <= n
    ensures ToBits(v, n)[..k] == ToBits(v, k)
  {
    if k > 0 { ToBitsTake(v / 2, n - 1, k - 1); }
  }

  lemma {:induction false} ToBitsDrop(v: nat, n: nat, k: nat)
    requires k <= n
    ensures ToBits(v, n)[k..] == ToBits(Shr(v, k), n - k)
  {
    if k > 0 {
      ToBitsDrop(v / 2, n - 1, k - 1);
      assert ToBits(v, n)[k..] == ToBits(v / 2, n - 1)[k - 1..];
    }
  }

  /** Shifting right and masking extracts a bit field. */
  lemma ToBitsField(v: nat, n: nat, from: nat, width: nat)
    requires from + width <= n
    ensures ToBits(v, n)[from..from + width] == ToBits(Low(Shr(v, from), width), width)
  {
    ToBitsDrop(v, n, from);
    ToBitsTake(Shr(v, from), n - from, width);
    ToBitsLow(Shr(v, from), width);
    assert ToBits(v, n)[from..from + width] == ToBits(v, n)[from..][..width];
  }

  lemma {:induction false} BitsOfConcat(a: seq<nat>, b: seq<nat>)
    ensures BitsOf(a + b) == BitsOf(a) + BitsOf(b)
  {
    hide ByteBits;
    if a == [] {
      assert a + b == b;
    } else {
      BitsOfConcat(a[1..], b);
      assert (a + b)[1..] == a[1..] + b && (a + b)[0] == a[0];
      assert BitsOf(a + b) == ByteBits(a[0]) + (BitsOf(a[1..]) + BitsOf(b));
    }
  }

  lemma BitsOfOneMore(bytes: seq<nat>, byte: nat)
    ensures BitsOf(bytes + [byte]) == BitsOf(bytes) + ByteBits(byte)
  {
    hide ByteBits;
    BitsOfConcat(bytes, [byte]);
    assert BitsOf([byte]) == ByteBits(byte) + BitsOf([]);
  }

  lemma BitsOfSplit(bytes: seq<nat>, k: nat)
    requires k <= |bytes|
    ensures BitsOf(bytes)[..8 * k] == BitsOf(bytes[..k])
    ensures BitsOf(bytes)[8 * k..] == BitsOf(bytes[k..])
  {
    BitsOfConcat(bytes[..k], bytes[k..]);
    assert bytes == bytes[..k] + bytes[k..];
  }

  lemma {:induction false} ShlIsMultiply(v: nat, k: nat)
    ensures Shl(v, k) == v * Pow2(k)
  {
    if k > 0 { ShlIsMultiply(v, k - 1); }
  }

  lemma {:induction false} SplitAt(v: nat, k: nat)
    ensures v == Low(v, k) + Shl(Shr(v, k), k)
  {
    if k > 0 { SplitAt(v / 2, k - 1); }
  }

  /** A byte-sized shift and mask are division and remainder by 256. */
  lemma ByteShift(v: nat)
    ensures Shr(v, 8) == v / 256
    ensures Low(v, 8) == v % 256
  {
    SplitAt(v, 8);
    LowBound(v, 8);
    assert Pow2(8) == 256;
    ShlIsMultiply(Shr(v, 8), 8);
  }

  /** Taking the low byte off a bit string. */
  lemma TakeByte(v: nat, n: nat)
    requires n >= 8
    ensures ToBits(v, n) == ByteBits(v % 256) + ToBits(v / 256, n - 8)
    ensures v < Pow2(n) ==> v / 256 < Pow2(n - 8)
  {
    ByteShift(v);
    ToBitsTake(v, n, 8);
    ToBitsDrop(v, n, 8);
    ToBitsLow(v, 8);
    assert ToBits(v, n) == ToBits(v, n)[..8] + ToBits(v, n)[8..];
    if v < Pow2(n) { ShrBound(v, 8, n - 8); }
  }

  lemma PadBits(v: nat, n: nat, m: nat)
    requires n <= m && v < Pow2(n)
    ensures ToBits(v, m) == ToBits(v, n) + ToBits(0, m - n)
  {
    ToBitsTake(v, m, n);
    ToBitsDrop(v, m, n);
    ShrBound(v, n, 0);
    assert ToBits(v, m) == ToBits(v, m)[..n] + ToBits(v, m)[n..];
  }

  /** A last, partly filled byte is padded with zero bits. */
  lemma PadByte(v: nat, n: nat)
    requires n < 8 && v < Pow2(n)
    ensures v < 256 && ByteBits(v) == ToBits(v, n) + ToBits(0, 8 - n)
  {
    PadBits(v, n, 8);
    Pow2Monotone(n, 8);
    assert Pow2(8) == 256;
  }

  /** Bytes read as one little-endian number. */
  function LittleEndian(bytes: seq<nat>): nat {
    if bytes == [] then 0 else bytes[0] + 256 * LittleEndian(bytes[1..])
  }

  lemma ByteThen(byte: nat, rest: nat, n: nat)
    requires byte < 256
    ensures ToBits(byte + 256 * rest, 8 + n) == ByteBits(byte) + ToBits(rest, n)
  {
    assert Pow2(8) == 256;
    ShlIsMultiply(rest, 8);
    ToBitsJoin(byte, rest, 8, n);
  }

  lemma {:induction false} LittleEndianBits(bytes: seq<nat>)
    requires forall i :: 0 <= i < |bytes| ==> bytes[i] < 256
    ensures BitsOf(bytes) == ToBits(LittleEndian(bytes), 8 * |bytes|)
  {
    hide ByteBits;
    if bytes != [] {
      var rest := LittleEndian(bytes[1..]);
      LittleEndianBits(bytes[1..]);
      ByteThen(bytes[0], rest, 8 * |bytes[1..]|);
    }
  }

  lemma SliceOfSlice(s: seq<bool>, from: nat, n: nat, off: nat, width: nat)
    requires from + n <= |s| && off + width <= n
    ensures s[from..][..n][off..off + width] == s[from + off..from + off + width]
  {
  }

  /** A shifted and masked run of bytes is a field of the byte string's bits. */
  lemma FieldOfBytes(bytes: seq<nat>, i: nat, n: nat, off: nat, width: nat)
    requires forall k :: 0 <= k < |bytes| ==> bytes[k] < 256
    requires i + n <= |bytes| && off + width <= 8 * n
    ensures ToBits(Low(Shr(LittleEndian(bytes[i..i + n]), off), width), width)
            == BitsOf(bytes)[8 * i + off..8 * i + off + width]
  {
    hide ByteBits, BitsOf, ToBits, Low, Shr, LittleEndian;
    LittleEndianBits(bytes[i..i + n]);
    ToBitsField(LittleEndian(bytes[i..i + n]), 8 * n, off, width);
    BitsOfSplit(bytes, i);
    BitsOfSplit(bytes[i..], n);
    assert bytes[i..][..n] == bytes[i..i + n];
    SliceOfSlice(BitsOf(bytes), 8 * i, 8 * n, off, width);
  }
}
