/** Bitwise operators on Python's non-negative integers, and the view of a
    byte string as a sequence of bits taken most-significant bit first. */
module Bits {
  import opened Bytes

  /** Python `a | b` on non-negative integers, defined bit by bit. */
  function BitOr(a: nat, b: nat): nat
  {
    if a == 0 then b
    else if b == 0 then a
    else 2 * BitOr(a / 2, b / 2) + (if a % 2 == 1 || b % 2 == 1 then 1 else 0)
  }

  /** Python `a & b` on non-negative integers, defined bit by bit. */
  function BitAnd(a: nat, b: nat): nat
  {
    if a == 0 || b == 0 then 0
    else 2 * BitAnd(a / 2, b / 2) + (if a % 2 == 1 && b % 2 == 1 then 1 else 0)
  }

  /** The low n bits of x, that is x mod 2^n. */
  function LowBits(x: nat, n: nat): nat
  {
    if n == 0 then 0 else 2 * LowBits(x / 2, n - 1) + x % 2
  }

  lemma {:induction false} LowBitsBound(x: nat, n: nat)
    ensures LowBits(x, n) < Pow2(n)
    ensures x < Pow2(n) ==> LowBits(x, n) == x
  {
    if n > 0 {
      LowBitsBound(x / 2, n - 1);
    }
  }

  /** x splits into its bits above n and its low n bits. */
  lemma {:induction false} LowBitsSplit(x: nat, n: nat)
    ensures x == Shl(Shr(x, n), n) + LowBits(x, n)
  {
    if n > 0 {
      LowBitsSplit(x / 2, n - 1);
    }
  }

  /** The low 8 bits are the remainder modulo 256. */
  lemma LowBitsByte(x: nat)
    ensures LowBits(x, 8) == x % 0x100
  {
    LowBitsSplit(x, 8);
    LowBitsBound(x, 8);
    Shl8(Shr(x, 8));
    assert Pow2(8) == 0x100;
  }

  /** Taking the low r bits of the low n bits, r <= n, is taking the low r bits. */
  lemma {:induction false} LowBitsLowBits(x: nat, n: nat, r: nat)
    requires r <= n
    ensures LowBits(LowBits(x, n), r) == LowBits(x, r)
  {
    if r > 0 {
      LowBitsLowBits(x / 2, n - 1, r - 1);
    }
  }

  /** Shl(x, k) has no bit below k set. */
  lemma {:induction false} LowBitsOfShl(x: nat, k: nat, n: nat)
    requires k <= n
    ensures LowBits(Shl(x, k), n) == Shl(LowBits(x, n - k), k)
  {
    if k > 0 {
      var y := Shl(x, k - 1);
      LowBitsOfShl(x, k - 1, n - 1);
      assert (2 * y) / 2 == y && (2 * y) % 2 == 0;
      assert LowBits(Shl(x, k), n) == 2 * LowBits(y, n - 1);
    }
  }

  /** OR of two numbers whose set bits do not overlap is their sum: this is
      how a code is merged into a partly filled byte. */
  lemma {:induction false} OrDisjoint(a: nat, b: nat, k: nat)
    requires a < Pow2(k) && LowBits(b, k) == 0
    ensures BitOr(a, b) == a + b
  {
    if a != 0 && b != 0 {
      OrDisjoint(a / 2, b / 2, k - 1);
    }
  }

  lemma {:induction false} OrBound(a: nat, b: nat, k: nat)
    requires a < Pow2(k) && b < Pow2(k)
    ensures BitOr(a, b) < Pow2(k)
  {
    if a != 0 && b != 0 {
      OrBound(a / 2, b / 2, k - 1);
    }
  }

  /** `x & (2^r - 1)` keeps the low r bits. */
  lemma {:induction false} AndLowMask(x: nat, r: nat)
    ensures BitAnd(x, Pow2(r) - 1) == LowBits(x, r)
  {
    if r > 0 && x != 0 {
      AndLowMask(x / 2, r - 1);
    }
    if r > 0 && x == 0 {
      LowBitsBound(0, r);
    }
  }

  /** `0xFF >> (8 - r)` is the mask of the low r bits of a byte. */
  lemma ByteMask(r: nat)
    requires r <= 8
    ensures Shr(0xFF, 8 - r) == Pow2(r) - 1
  {
    assert Pow2(0) == 1 && Pow2(1) == 2 && Pow2(2) == 4 && Pow2(3) == 8;
    assert Pow2(4) == 16 && Pow2(5) == 32 && Pow2(6) == 64 && Pow2(7) == 128 && Pow2(8) == 256;
  }

  /** The low w bits of x, most significant first. */
  function BitsOf(x: nat, w: nat): (r: seq<bool>)
    ensures |r| == w
  {
    if w == 0 then [] else BitsOf(x / 2, w - 1) + [x % 2 == 1]
  }

  /** A bit sequence read as a big-endian number. */
  function BeValue(bits: seq<bool>): nat
  {
    if bits == [] then 0
    else 2 * BeValue(bits[..|bits| - 1]) + (if bits[|bits| - 1] then 1 else 0)
  }

  lemma {:induction false} BeValueBound(bits: seq<bool>)
    ensures BeValue(bits) < Pow2(|bits|)
  {
    if bits != [] {
      BeValueBound(bits[..|bits| - 1]);
    }
  }

  lemma {:induction false} BeValueAppend(a: seq<bool>, b: seq<bool>)
    ensures BeValue(a + b) == Shl(BeValue(a), |b|) + BeValue(b)
  {
    if b == [] {
      assert a + b == a;
    } else {
      var b' := b[..|b| - 1];
      assert (a + b)[..|a + b| - 1] == a + b';
      BeValueAppend(a, b');
    }
  }

  lemma {:induction false} BeValueOfBits(x: nat, w: nat)
    ensures BeValue(BitsOf(x, w)) == LowBits(x, w)
  {
    if w > 0 {
      var r := BitsOf(x, w);
      assert r[..w - 1] == BitsOf(x / 2, w - 1);
      BeValueOfBits(x / 2, w - 1);
    }
  }

  /** The w + v low bits of x are its bits v .. v+w-1 followed by its low v bits. */
  lemma {:induction false} BitsOfSplit(x: nat, w: nat, v: nat)
    ensures BitsOf(x, w + v) == BitsOf(Shr(x, v), w) + BitsOf(x, v)
  {
    if v > 0 {
      var y := x / 2;
      var bit := [x % 2 == 1];
      BitsOfSplit(y, w, v - 1);
      assert BitsOf(x, w + v) == BitsOf(y, w + v - 1) + bit;
      assert BitsOf(x, v) == BitsOf(y, v - 1) + bit;
    }
  }

  lemma {:induction false} LowBitsOfShr(x: nat, m: nat, k: nat)
    ensures LowBits(Shr(x, m), k) == Shr(LowBits(x, m + k), m)
  {
    if m > 0 {
      LowBitsOfShr(x / 2, m - 1, k);
      assert LowBits(x, m + k) / 2 == LowBits(x / 2, m - 1 + k);
    }
  }

  lemma BitsOfPrefix(x: nat, r: nat, k: nat)
    requires k <= r
    ensures BitsOf(x, r)[..k] == BitsOf(Shr(x, r - k), k)
    ensures BitsOf(x, r)[k..] == BitsOf(x, r - k)
  {
    var v := r - k;
    BitsOfSplit(x, k, v);
    var hi, lo := BitsOf(Shr(x, v), k), BitsOf(x, v);
    assert BitsOf(x, r) == hi + lo;
    assert (hi + lo)[..k] == hi && (hi + lo)[k..] == lo;
  }

  /** The first k of the low r bits of x, as a number, are what the source
      computes as `(x & mask_r) >> (r - k)`. */
  lemma BitsOfPrefixValue(x: nat, r: nat, k: nat)
    requires k <= r
    ensures BeValue(BitsOf(x, r)[..k]) == Shr(LowBits(x, r), r - k)
  {
    BitsOfPrefix(x, r, k);
    BeValueOfBits(Shr(x, r - k), k);
    LowBitsOfShr(x, r - k, k);
    assert r - k + k == r;
  }

  /** A byte string as bits: each byte most-significant bit first. */
  function StreamBits(s: seq<byte>): (r: seq<bool>)
    ensures |r| == 8 * |s|
  {
    if s == [] then [] else BitsOf(s[0], 8) + StreamBits(s[1..])
  }

  lemma {:induction false} StreamBitsDrop(s: seq<byte>, i: nat)
    requires i <= |s|
    ensures StreamBits(s)[8 * i..] == StreamBits(s[i..])
  {
    if i > 0 {
      StreamBitsDrop(s[1..], i - 1);
      assert s[1..][i - 1..] == s[i..];
    }
  }
}
