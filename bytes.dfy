/** Bytes, fixed-width integers and the two Python byte-string operations
    the model relies on everywhere: clamped slicing and `struct`'s
    fixed-length string packing. */
module Bytes {

  type byte = x: int | 0 <= x < 0x100
  type u16 = x: int | 0 <= x < 0x1_0000
  type u32 = x: int | 0 <= x < 0x1_0000_0000
  type i32 = x: int | -0x8000_0000 <= x < 0x8000_0000

  function Pow2(n: nat): (r: nat)
    ensures r >= 1
  {
    if n == 0 then 1 else 2 * Pow2(n - 1)
  }

  function Pow256(n: nat): (r: nat)
    ensures r >= 1
  {
    if n == 0 then 1 else 0x100 * Pow256(n - 1)
  }

  /** Python `x << n` on a non-negative integer. */
  function Shl(x: nat, n: nat): nat
  {
    if n == 0 then x else 2 * Shl(x, n - 1)
  }

  /** Python `x >> n` on a non-negative integer. */
  function Shr(x: nat, n: nat): nat
  {
    if n == 0 then x else Shr(x / 2, n - 1)
  }

  lemma {:induction false} ShlIsPow2(x: nat, n: nat)
    ensures Shl(1, n) == Pow2(n)
    ensures Shl(x, n) >= x && (x > 0 ==> Shl(x, n) >= Pow2(n))
  {
    if n > 0 {
      ShlIsPow2(x, n - 1);
    }
  }

  lemma {:induction false} ShlZero(n: nat)
    ensures Shl(0, n) == 0
  {
    if n > 0 {
      ShlZero(n - 1);
    }
  }

  lemma {:induction false} ShlShl(x: nat, m: nat, k: nat)
    ensures Shl(Shl(x, k), m) == Shl(x, m + k)
  {
    if m > 0 {
      ShlShl(x, m - 1, k);
    }
  }

  lemma {:induction false} ShlLinear(x: nat, y: nat, n: nat)
    ensures Shl(x + y, n) == Shl(x, n) + Shl(y, n)
    ensures x < y ==> Shl(x, n) < Shl(y, n)
  {
    if n > 0 {
      ShlLinear(x, y, n - 1);
    }
  }

  /** 2^(a+b) as a shift, and monotonicity of 2^n. */
  lemma Pow2Shl(a: nat, b: nat)
    ensures Shl(Pow2(a), b) == Pow2(a + b)
    ensures Pow2(a) <= Pow2(a + b)
  {
    ShlIsPow2(1, a);
    ShlIsPow2(1, a + b);
    ShlShl(1, b, a);
    ShlIsPow2(Pow2(a), b);
  }

  lemma Shl8(x: nat)
    ensures Shl(x, 8) == 0x100 * x
  {
    assert Shl(x, 4) == 16 * x by {
      assert Shl(x, 2) == 4 * x by {
        assert Shl(x, 1) == 2 * x;
      }
    }
    assert Shl(x, 8) == 16 * Shl(x, 4) by {
      assert Shl(x, 8) == 2 * Shl(x, 7) == 4 * Shl(x, 6) == 8 * Shl(x, 5) == 16 * Shl(x, 4);
    }
  }

  lemma {:induction false} Pow256IsPow2(n: nat)
    ensures Pow256(n) == Pow2(8 * n)
  {
    if n > 0 {
      Pow256IsPow2(n - 1);
      ShlIsPow2(1, 8 * n);
      ShlIsPow2(1, 8 * (n - 1));
      ShlShl(1, 8, 8 * (n - 1));
      Shl8(Shl(1, 8 * (n - 1)));
    }
  }

  function Min(a: int, b: int): int { if a <= b then a else b }
  function Max(a: int, b: int): int { if a <= b then b else a }

  function Zeros(n: nat): (r: seq<byte>)
    ensures |r| == n
  {
    seq(n, _ => 0)
  }

  /** `int.from_bytes(s, 'little')`: byte i weighs 256^i. */
  function LeValue(s: seq<byte>): nat
  {
    if s == [] then 0 else s[0] + 0x100 * LeValue(s[1..])
  }

  /** `x.to_bytes(n, 'little')` for an x that fits in n bytes. */
  function LeBytes(x: nat, n: nat): (r: seq<byte>)
    ensures |r| == n
  {
    if n == 0 then [] else [x % 0x100] + LeBytes(x / 0x100, n - 1)
  }

  lemma {:induction false} LeValueBound(s: seq<byte>)
    ensures LeValue(s) < Pow256(|s|)
  {
    if s != [] {
      LeValueBound(s[1..]);
    }
  }

  lemma {:induction false} LeValueOfBytes(x: nat, n: nat)
    requires x < Pow256(n)
    ensures LeValue(LeBytes(x, n)) == x
  {
    if n > 0 {
      var r := LeBytes(x, n);
      assert r[1..] == LeBytes(x / 0x100, n - 1);
      LeValueOfBytes(x / 0x100, n - 1);
    }
  }

  lemma {:induction false} LeBytesOfValue(s: seq<byte>)
    ensures LeBytes(LeValue(s), |s|) == s
  {
    if s != [] {
      LeBytesOfValue(s[1..]);
      assert (s[0] + 0x100 * LeValue(s[1..])) / 0x100 == LeValue(s[1..]);
    }
  }

  lemma {:induction false} LeValueAppend(a: seq<byte>, b: seq<byte>)
    ensures LeValue(a + b) == LeValue(a) + Shl(LeValue(b), 8 * |a|)
  {
    if a != [] {
      assert (a + b)[1..] == a[1..] + b;
      LeValueAppend(a[1..], b);
      Shl8(Shl(LeValue(b), 8 * (|a| - 1)));
      ShlShl(LeValue(b), 8, 8 * (|a| - 1));
    } else {
      assert a + b == b;
    }
  }

  /** Little-endian unsigned 16- and 32-bit fields (`struct` codes H and I). */
  function U16(s: seq<byte>): (r: u16)
    requires |s| == 2
    ensures LeBytes(r, 2) == s
  {
    LeBytesOfValue(s);
    LeValueBound(s);
    LeValue(s)
  }

  function U32(s: seq<byte>): (r: u32)
    requires |s| == 4
    ensures LeBytes(r, 4) == s
  {
    LeBytesOfValue(s);
    LeValueBound(s);
    LeValue(s)
  }

  /** Little-endian signed 32-bit field (`struct` code i): two's complement. */
  function I32(s: seq<byte>): (r: i32)
    requires |s| == 4
    ensures r < 0 <==> s[3] >= 0x80
    ensures EncodeI32(r) == s
  {
    var v := U32(s);
    assert v == s[0] as int + 0x100 * (s[1] as int + 0x100 * (s[2] as int + 0x100 * (s[3] as int))) by {
      assert s[1..][1..] == s[2..] && s[2..][1..] == s[3..] && s[3..][1..] == [];
      assert LeValue(s[3..]) == s[3] as int;
      assert LeValue(s[2..]) == s[2] as int + 0x100 * LeValue(s[3..]);
      assert LeValue(s[1..]) == s[1] as int + 0x100 * LeValue(s[2..]);
    }
    if v >= 0x8000_0000 then v - 0x1_0000_0000 else v
  }

  function EncodeU16(x: u16): (r: seq<byte>)
    ensures |r| == 2 && U16(r) == x
  {
    LeValueOfBytes(x, 2);
    LeBytes(x, 2)
  }

  function EncodeU32(x: u32): (r: seq<byte>)
    ensures |r| == 4 && U32(r) == x
  {
    LeValueOfBytes(x, 4);
    LeBytes(x, 4)
  }

  function EncodeI32(x: i32): (r: seq<byte>)
    ensures |r| == 4
  {
    LeBytes(if x < 0 then x + 0x1_0000_0000 else x, 4)
  }

  lemma I32RoundTrip(x: i32)
    ensures I32(EncodeI32(x)) == x
  {
    var u := if x < 0 then x + 0x1_0000_0000 else x;
    LeValueOfBytes(u, 4);
  }

  lemma AppendAssoc<T>(a: seq<T>, b: seq<T>, c: seq<T>)
    ensures (a + b) + c == a + (b + c)
  {
  }

  lemma SuffixSplit<T>(s: seq<T>, i: nat, j: nat)
    requires i <= j <= |s|
    ensures s[i..] == s[i..j] + s[j..]
  {
  }

  lemma PrefixJoin<T>(s: seq<T>, i: nat, j: nat)
    requires i <= j <= |s|
    ensures s[..i] + s[i..j] == s[..j]
  {
  }

  /** Python's `s[a:b]` for non-negative bounds: out-of-range bounds are
      clamped, never an error. */
  function Slice<T>(s: seq<T>, a: nat, b: nat): (r: seq<T>)
    ensures |r| == if a < b && a < |s| then Min(b, |s|) - a else 0
  {
    if a < b && a < |s| then s[a..Min(b, |s|)] else []
  }

  /** Python's `s[a:]`. */
  function Drop<T>(s: seq<T>, a: nat): (r: seq<T>)
    ensures |r| == Max(0, |s| - a)
  {
    if a < |s| then s[a..] else []
  }

  /** `struct.pack` code `ns`: the string truncated or null-padded to n bytes. */
  function FitTo(s: seq<byte>, n: nat): (r: seq<byte>)
    ensures |r| == n
  {
    if |s| >= n then s[..n] else s + Zeros(n - |s|)
  }
}
