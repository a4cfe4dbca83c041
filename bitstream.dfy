/** The bit cursor of bitstream.py. Reading takes bits most-significant
    first from the front of the buffer; writing appends codes least-significant
    first, OR-ing into the trailing partial byte as GIF's LZW packing needs.
    The two directions keep separate cursors (`remainder` for reading,
    `remainderEnd` for writing), so no push/pop round trip is claimed. */
module Bitstreams {
  import opened Bytes
  import opened Bits

  /** The buffer after `push_bits(number, bits)` on a buffer whose last byte
      holds `re` written bits (bitstream.py:21-31). */
  function PushBytes(buf: seq<byte>, re: nat, number: nat, bits: nat): (r: seq<byte>)
    requires re < 8 && (re != 0 ==> buf != [])
    ensures |r| == |buf| + (re + bits + 7) / 8 - (if re != 0 then 1 else 0)
    ensures re == 0 ==> r[..|buf|] == buf
    ensures re != 0 ==> r[..|buf| - 1] == buf[..|buf| - 1]
  {
    var total := re + bits;
    var raw := LeBytes(Shl(number, re), (total + 7) / 8);
    if re != 0 then
      OrBound(buf[|buf| - 1], raw[0], 8);
      buf[..|buf| - 1] + [BitOr(buf[|buf| - 1], raw[0]) as byte] + raw[1..]
    else
      buf + raw
  }

  /** The write side after `total` bits have been pushed: `re` bits of the
      last byte in use, all earlier bytes full, and a little-endian value
      below 2^total (bitstream.py:24-31). */
  ghost predicate Packed(buf: seq<byte>, re: nat, total: nat)
  {
    re < 8 && (re != 0 ==> buf != []) &&
    total == (if re == 0 then 8 * |buf| else 8 * (|buf| - 1) + re) &&
    LeValue(buf) < Pow2(total)
  }

  /** A packed buffer holds ceil(total/8) bytes and its cursor is total mod 8. */
  lemma PackedLength(buf: seq<byte>, re: nat, total: nat)
    requires Packed(buf, re, total)
    ensures |buf| == (total + 7) / 8 && re == total % 8
  {
  }

  /** The byte count and new write cursor of one push. */
  lemma PushCount(re: nat, bits: nat)
    requires re < 8
    ensures var c, re' := (re + bits + 7) / 8, (re + bits) % 8;
      (re' == 0 ==> 8 * c == re + bits) && (re' != 0 ==> 8 * (c - 1) + re' == re + bits) &&
      (re + bits > 0 ==> c >= 1) && re + bits <= 8 * c
  {
  }

  /** The last byte of a packed buffer holds only its `re` written bits. */
  lemma LastByteBound(buf: seq<byte>, q: nat, re: nat)
    requires |buf| == q + 1 && LeValue(buf) < Pow2(8 * q + re)
    ensures buf[q] < Pow2(re)
    ensures LeValue(buf) == LeValue(buf[..q]) + Shl(buf[q], 8 * q)
  {
    assert buf == buf[..q] + [buf[q]];
    LeValueAppend(buf[..q], [buf[q]]);
    assert LeValue([buf[q]]) == buf[q];
    Pow2Shl(re, 8 * q);
    if buf[q] >= Pow2(re) {
      ShlLinear(Pow2(re), buf[q], 8 * q);
      assert false;
    }
  }

  /** The first byte of `(number << re).to_bytes(...)` has its low re bits clear. */
  lemma ShiftedFirstByte(number: nat, re: nat, c: nat)
    requires re <= 8 && c >= 1
    ensures LowBits(LeBytes(Shl(number, re), c)[0], re) == 0
  {
    var x := Shl(number, re);
    assert LeBytes(x, c)[0] == x % 0x100;
    LowBitsByte(x);
    LowBitsLowBits(x, 8, re);
    LowBitsOfShl(number, re, re);
    ShlLinear(0, 0, re);
  }

  /** `(number << re).to_bytes(ceil((re + bits) / 8))` does not overflow. */
  lemma ShiftedFits(number: nat, bits: nat, re: nat, c: nat)
    requires number < Pow2(bits) && re + bits <= 8 * c
    ensures Shl(number, re) < Pow256(c)
  {
    var slack := 8 * c - (bits + re);
    assert bits + re + slack == 8 * c;
    ShlLinear(number, Pow2(bits), re);
    Pow2Shl(bits, re);
    Pow2Shl(bits + re, slack);
    Pow256IsPow2(c);
  }

  /** A value below 2^T plus a code below 2^bits shifted to T is below 2^(T+bits). */
  lemma ShlSumBound(v: nat, t: nat, number: nat, bits: nat)
    requires v < Pow2(t) && number < Pow2(bits)
    ensures v + Shl(number, t) < Pow2(t + bits)
  {
    ShlLinear(number, Pow2(bits) - number, t);
    ShlIsPow2(Pow2(bits) - number, t);
    Pow2Shl(bits, t);
  }

  /** The value of a push onto a byte-aligned buffer. */
  lemma PushValueAligned(buf: seq<byte>, number: nat, bits: nat)
    requires number < Pow2(bits)
    ensures LeValue(PushBytes(buf, 0, number, bits)) == LeValue(buf) + Shl(number, 8 * |buf|)
  {
    var raw := LeBytes(Shl(number, 0), (bits + 7) / 8);
    PushCount(0, bits);
    ShiftedFits(number, bits, 0, (bits + 7) / 8);
    LeValueOfBytes(Shl(number, 0), (bits + 7) / 8);
    assert PushBytes(buf, 0, number, bits) == buf + raw;
    LeValueAppend(buf, raw);
  }

  lemma TailValue(last: nat, raw: seq<byte>, x: byte)
    requires raw != [] && x == last + raw[0]
    ensures LeValue([x] + raw[1..]) == last + LeValue(raw)
  {
    var tail, rest := [x] + raw[1..], raw[1..];
    assert tail[0] == x && tail[1..] == rest;
  }

  lemma AppendShifted(head: seq<byte>, last: nat, raw: seq<byte>, tail: seq<byte>)
    requires LeValue(tail) == last + LeValue(raw)
    ensures LeValue(head + tail)
      == LeValue(head) + Shl(last, 8 * |head|) + Shl(LeValue(raw), 8 * |head|)
  {
    LeValueAppend(head, tail);
    ShlLinear(last, LeValue(raw), 8 * |head|);
  }

  /** Little-endian value of a buffer whose byte at |head| is `last + raw[0]`. */
  lemma MergeValue(head: seq<byte>, last: nat, raw: seq<byte>, x: byte)
    requires raw != [] && x == last + raw[0]
    ensures LeValue(head + ([x] + raw[1..]))
      == LeValue(head) + Shl(last, 8 * |head|) + Shl(LeValue(raw), 8 * |head|)
  {
    TailValue(last, raw, x);
    AppendShifted(head, last, raw, [x] + raw[1..]);
  }

  /** The merged byte of a partial push: the old bits plus the new low bits. */
  lemma MergeByte(last: nat, re: nat, number: nat, bits: nat)
    requires 0 < re < 8 && last < Pow2(re)
    ensures var raw := LeBytes(Shl(number, re), (re + bits + 7) / 8);
      raw != [] && BitOr(last, raw[0]) == last + raw[0] && last + raw[0] < 0x100
  {
    var c := (re + bits + 7) / 8;
    var raw := LeBytes(Shl(number, re), c);
    ShiftedFirstByte(number, re, c);
    OrDisjoint(last, raw[0], re);
    Pow2Shl(re, 8 - re);
    OrBound(last, raw[0], 8);
  }

  lemma PartialShape(buf: seq<byte>, q: nat, re: nat, number: nat, bits: nat, x: byte)
    requires 0 < re < 8 && |buf| == q + 1
    requires x as nat == BitOr(buf[q], LeBytes(Shl(number, re), (re + bits + 7) / 8)[0])
    ensures PushBytes(buf, re, number, bits)
      == buf[..q] + ([x] + LeBytes(Shl(number, re), (re + bits + 7) / 8)[1..])
  {
  }

  /** The value of a push that first fills the partial last byte. */
  lemma PushValuePartial(buf: seq<byte>, q: nat, re: nat, number: nat, bits: nat)
    requires 0 < re < 8 && |buf| == q + 1 && LeValue(buf) < Pow2(8 * q + re)
    requires number < Pow2(bits)
    ensures LeValue(PushBytes(buf, re, number, bits)) == LeValue(buf) + Shl(number, 8 * q + re)
  {
    var c := (re + bits + 7) / 8;
    var raw := LeBytes(Shl(number, re), c);
    LastByteBound(buf, q, re);
    MergeByte(buf[q], re, number, bits);
    var x := BitOr(buf[q], raw[0]) as byte;
    PartialShape(buf, q, re, number, bits, x);
    MergeValue(buf[..q], buf[q], raw, x);
    PushCount(re, bits);
    ShiftedFits(number, bits, re, c);
    LeValueOfBytes(Shl(number, re), c);
    ShlShl(number, 8 * q, re);
  }

  /** `push_bits(number, bits)` adds `number << total` to the buffer's
      little-endian value and keeps it packed (bitstream.py:21-31). */
  lemma PushLaw(buf: seq<byte>, re: nat, total: nat, number: nat, bits: nat)
    requires Packed(buf, re, total) && number < Pow2(bits)
    ensures re < 8 && (re != 0 ==> buf != [])
    ensures Packed(PushBytes(buf, re, number, bits), (re + bits) % 8, total + bits)
    ensures LeValue(PushBytes(buf, re, number, bits)) == LeValue(buf) + Shl(number, total)
  {
    PushCount(re, bits);
    ShlSumBound(LeValue(buf), total, number, bits);
    if re == 0 {
      PushValueAligned(buf, number, bits);
    } else {
      PushValuePartial(buf, |buf| - 1, re, number, bits);
    }
  }

  /** PushLaw for the state a push leaves, when the buffer was packed. */
  lemma Pushed(buf: seq<byte>, re: nat, total: nat, number: nat, bits: nat, buf': seq<byte>)
    requires Packed(buf, re, total) && number < Pow2(bits)
    requires buf' == PushBytes(buf, re, number, bits)
    ensures Packed(buf', (re + bits) % 8, total + bits) && |buf'| == (total + bits + 7) / 8
    ensures LeValue(buf') == LeValue(buf) + Shl(number, total)
  {
    PushLaw(buf, re, total, number, bits);
    PackedLength(buf', (re + bits) % 8, total + bits);
  }

  /** Total bits of a sequence of pushes, given as (number, bits) pairs. */
  function TotalBits(ps: seq<(nat, nat)>): nat
  {
    if ps == [] then 0 else TotalBits(ps[..|ps| - 1]) + ps[|ps| - 1].1
  }

  /** The sum of every pushed number shifted to the bit offset it was pushed at. */
  function PackValue(ps: seq<(nat, nat)>): nat
  {
    if ps == [] then 0
    else PackValue(ps[..|ps| - 1]) + Shl(ps[|ps| - 1].0, TotalBits(ps[..|ps| - 1]))
  }

  /** Every push passes the assertion of bitstream.py:22. */
  predicate AllFit(ps: seq<(nat, nat)>)
  {
    forall i :: 0 <= i < |ps| ==> ps[i].0 < Pow2(ps[i].1)
  }

  /** The buffer and write cursor after pushing `ps` onto an empty stream:
      ceil(total/8) bytes whose little-endian value is the sum of the pushed
      numbers at their offsets (bitstream.py:21-31). */
  function PushAll(ps: seq<(nat, nat)>): (r: (seq<byte>, nat))
    requires AllFit(ps)
    ensures Packed(r.0, r.1, TotalBits(ps)) && LeValue(r.0) == PackValue(ps)
    ensures |r.0| == (TotalBits(ps) + 7) / 8 && r.1 == TotalBits(ps) % 8
  {
    if ps == [] then ([], 0)
    else
      var init := ps[..|ps| - 1];
      assert AllFit(init) by {
        forall i | 0 <= i < |init| ensures init[i].0 < Pow2(init[i].1) {
          assert init[i] == ps[i];
        }
      }
      var (buf, re) := PushAll(init);
      var (number, bits) := ps[|ps| - 1];
      PushLaw(buf, re, TotalBits(init), number, bits);
      var r := (PushBytes(buf, re, number, bits), (re + bits) % 8);
      PackedLength(r.0, r.1, TotalBits(ps));
      r
  }

  /** The unread bits of a read cursor: the low `rem` bits of the first
      byte, then every later byte, each most-significant bit first. */
  ghost function UnreadOf(buf: seq<byte>, rem: nat): seq<bool>
  {
    if buf == [] then [] else BitsOf(buf[0], rem) + StreamBits(buf[1..])
  }

  /** The number of unread bits of a read cursor. */
  lemma UnreadLength(buf: seq<byte>, rem: nat)
    ensures |UnreadOf(buf, rem)| == if buf == [] then 0 else rem + 8 * (|buf| - 1)
  {
  }

  lemma WholeValue(b: nat, r: nat, consumed: seq<bool>)
    requires r <= 8
    ensures BeValue(consumed + BitsOf(b, r)) == Shl(BeValue(consumed), r) + BitAnd(b, Pow2(r) - 1)
  {
    AndLowMask(b, r);
    BeValueOfBits(b, r);
    BeValueAppend(consumed, BitsOf(b, r));
  }

  lemma PartValue(b: nat, r: nat, n: nat, consumed: seq<bool>)
    requires 0 < n < r <= 8
    ensures BeValue(consumed + BitsOf(b, r)[..n])
      == Shl(BeValue(consumed), n) + Shr(BitAnd(b, Pow2(r) - 1), r - n)
  {
    AndLowMask(b, r);
    BitsOfPrefixValue(b, r, n);
    BeValueAppend(consumed, BitsOf(b, r)[..n]);
  }

  /** One iteration of the whole-byte loop of `pop_bits` (bitstream.py:9-14). */
  lemma PopWholeStep(buf: seq<byte>, r: nat, consumed: seq<bool>)
    requires buf != [] && r <= 8
    ensures BeValue(consumed + BitsOf(buf[0], r))
      == Shl(BeValue(consumed), r) + BitAnd(buf[0], Shr(0xFF, 8 - r))
    ensures UnreadOf(buf, r) == BitsOf(buf[0], r) + UnreadOf(buf[1..], 8)
  {
    ByteMask(r);
    WholeValue(buf[0], r, consumed);
  }

  /** The value taken by the final partial read of `pop_bits` (bitstream.py:15-18). */
  lemma PopPartValue(b: byte, r: nat, n: nat, consumed: seq<bool>)
    requires 0 < n < r <= 8
    ensures BeValue(consumed + BitsOf(b, r)[..n])
      == Shl(BeValue(consumed), n) + Shr(BitAnd(b, Shr(0xFF, 8 - r)), r - n)
  {
    ByteMask(r);
    PartValue(b, r, n, consumed);
  }

  /** The bits left behind by the final partial read. */
  lemma PopPartUnread(buf: seq<byte>, r: nat, n: nat)
    requires buf != [] && 0 < n < r <= 8
    ensures UnreadOf(buf, r) == BitsOf(buf[0], r)[..n] + UnreadOf(buf, r - n)
  {
    var bits, rest := BitsOf(buf[0], r), StreamBits(buf[1..]);
    BitsOfPrefix(buf[0], r, n);
    assert bits == bits[..n] + BitsOf(buf[0], r - n);
    calc {
      UnreadOf(buf, r);
      bits + rest;
      (bits[..n] + BitsOf(buf[0], r - n)) + rest;
      bits[..n] + (BitsOf(buf[0], r - n) + rest);
      bits[..n] + UnreadOf(buf, r - n);
    }
  }

  /** Advancing a cursor at position `k` of the stream `u` over `b`. */
  lemma SliceStep(u: seq<bool>, k: nat, b: seq<bool>, rest: seq<bool>)
    requires k <= |u| && u[k..] == b + rest
    ensures k + |b| <= |u|
    ensures u[..k + |b|] == u[..k] + b && u[k + |b|..] == rest
  {
    assert u[..k + |b|] == u[..k] + u[k..][..|b|];
  }

  /** One whole-byte iteration, stated at stream position `k`. */
  lemma WholeStepAt(buf: seq<byte>, r: nat, u: seq<bool>, k: nat)
    requires buf != [] && r <= 8 && k <= |u| && UnreadOf(buf, r) == u[k..]
    ensures k + r <= |u|
    ensures UnreadOf(buf[1..], 8) == u[k + r..]
    ensures buf[1..] == [] ==> k + r == |u|
    ensures BeValue(u[..k + r]) == Shl(BeValue(u[..k]), r) + BitAnd(buf[0], Shr(0xFF, 8 - r))
  {
    var c, b := u[..k], BitsOf(buf[0], r);
    PopWholeStep(buf, r, c);
    SliceStep(u, k, b, UnreadOf(buf[1..], 8));
    assert u[..k + r] == c + b;
  }

  /** The final partial read of `pop_bits` (bitstream.py:15-18), taking the
      last `n` of `bits` wanted bits of the stream `u` from the current byte. */
  lemma PartStepAt(buf: seq<byte>, r: nat, n: nat, u: seq<bool>, bits: nat, result: nat)
    requires buf != [] && 0 < n < r <= 8 && n <= bits <= |u|
    requires UnreadOf(buf, r) == u[bits - n..] && result == BeValue(u[..bits - n])
    ensures UnreadOf(buf, r - n) == u[bits..]
    ensures Shl(result, n) + Shr(BitAnd(buf[0], Shr(0xFF, 8 - r)), r - n) == BeValue(u[..bits])
  {
    var k := bits - n;
    PartStepFrom(buf, r, n, u, k);
    assert u[..k + n] == u[..bits] && u[k + n..] == u[bits..];
  }

  lemma PartStepFrom(buf: seq<byte>, r: nat, n: nat, u: seq<bool>, k: nat)
    requires buf != [] && 0 < n < r <= 8 && k <= |u| && UnreadOf(buf, r) == u[k..]
    ensures k + n <= |u|
    ensures UnreadOf(buf, r - n) == u[k + n..]
    ensures BeValue(u[..k + n])
      == Shl(BeValue(u[..k]), n) + Shr(BitAnd(buf[0], Shr(0xFF, 8 - r)), r - n)
  {
    var c, b := u[..k], BitsOf(buf[0], r)[..n];
    assert |b| == n;
    PopPartUnread(buf, r, n);
    SliceStep(u, k, b, UnreadOf(buf, r - n));
    assert u[..k + n] == c + b;
    PopPartValue(buf[0], r, n, c);
  }

  /** The state of the whole-byte loop of `pop_bits` on the stream `u0` of
      `buf0`: `k` bits taken into `result`, `n` still wanted. */
  ghost predicate WholeLoopInv(buf0: seq<byte>, u0: seq<bool>, bits: nat,
                               result: nat, buf: seq<byte>, rem: nat, n: nat, k: nat)
  {
    rem <= 8 && |buf| <= |buf0| && buf == buf0[|buf0| - |buf|..] &&
    k + n == bits && bits <= |u0| &&
    UnreadOf(buf, rem) == u0[k..] && result == BeValue(u0[..k]) &&
    (buf == [] ==> rem == 8 && n == 0)
  }

  /** One iteration of the whole-byte loop keeps its state. */
  lemma WholeLoopStep(buf0: seq<byte>, u0: seq<bool>, bits: nat,
                      result: nat, buf: seq<byte>, rem: nat, n: nat, k: nat)
    requires WholeLoopInv(buf0, u0, bits, result, buf, rem, n, k) && n >= rem
    ensures buf != [] && rem <= 8
    ensures WholeLoopInv(buf0, u0, bits, Shl(result, rem) + BitAnd(buf[0], Shr(0xFF, 8 - rem)),
                         buf[1..], 8, n - rem, k + rem)
  {
    WholeStepAt(buf, rem, u0, k);
    assert buf[1..] == buf0[|buf0| - |buf[1..]|..];
  }

  /** The whole-byte loop of `pop_bits` (bitstream.py:9-14): it stops with
      fewer than `rem` bits still wanted, all taken from the current byte. */
  method ReadWholeBytes(buf0: seq<byte>, rem0: nat, bits: nat) returns (result: nat, buf: seq<byte>, rem: nat, n: nat)
    requires rem0 <= 8 && (buf0 == [] ==> rem0 == 8)
    requires bits <= |UnreadOf(buf0, rem0)|
    ensures n <= bits && n < rem <= 8
    ensures result == BeValue(UnreadOf(buf0, rem0)[..bits - n])
    ensures UnreadOf(buf, rem) == UnreadOf(buf0, rem0)[bits - n..]
    ensures buf == [] ==> rem == 8 && n == 0
    ensures |buf| <= |buf0| && buf == buf0[|buf0| - |buf|..]
  {
    ghost var u0 := UnreadOf(buf0, rem0);
    ghost var k: nat := 0;
    n := bits;
    result, buf, rem := 0, buf0, rem0;
    while n >= rem
      invariant WholeLoopInv(buf0, u0, bits, result, buf, rem, n, k)
      decreases |buf|
    {
      WholeLoopStep(buf0, u0, bits, result, buf, rem, n, k);
      result := Shl(result, rem) + BitAnd(buf[0], Shr(0xFF, 8 - rem));
      n := n - rem;
      k := k + rem;
      rem := 8;
      buf := buf[1..];
    }
  }

  /** `pop_bits` (bitstream.py:7-19) on a buffer and its read cursor, for a
      request the buffer can satisfy. */
  method ReadBits(buf0: seq<byte>, rem0: nat, bits: nat) returns (result: nat, buf: seq<byte>, rem: nat)
    requires rem0 <= 8 && (buf0 == [] ==> rem0 == 8)
    requires bits <= |UnreadOf(buf0, rem0)|
    ensures result == BeValue(UnreadOf(buf0, rem0)[..bits]) && result < Pow2(bits)
    ensures UnreadOf(buf, rem) == UnreadOf(buf0, rem0)[bits..]
    ensures 1 <= rem <= 8 && (buf == [] ==> rem == 8)
    ensures |buf| <= |buf0| && buf == buf0[|buf0| - |buf|..]
  {
    ghost var u0 := UnreadOf(buf0, rem0);
    var n;
    result, buf, rem, n := ReadWholeBytes(buf0, rem0, bits);
    if n > 0 {
      PartStepAt(buf, rem, n, u0, bits, result);
      result := Shl(result, n) + Shr(BitAnd(buf[0], Shr(0xFF, 8 - rem)), rem - n);
      rem := rem - n;
    }
    BeValueBound(u0[..bits]);
  }

  class Bitstream {
    var buffer: seq<byte>
    /** Unread bits left in buffer[0] (reading cursor). */
    var remainder: nat
    /** Written bits in the last byte of buffer (writing cursor). */
    var remainderEnd: nat

    ghost predicate Valid()
      reads this
    {
      remainder <= 8 && remainderEnd < 8 &&
      (buffer == [] ==> remainder == 0 || remainder == 8)
    }

    /** The bits still to be read: the low `remainder` bits of the first
        byte, then every later byte, each most-significant bit first. */
    ghost function Unread(): seq<bool>
      reads this
    {
      UnreadOf(buffer, remainder)
    }

    /** When `pop_bits(bits)` returns instead of indexing an empty buffer. */
    predicate CanPop(bits: nat)
      reads this
    {
      if buffer == [] then bits == 0 && remainder > 0
      else bits <= remainder + 8 * (|buffer| - 1)
    }

    constructor (buf: seq<byte>)
      ensures Valid()
      ensures buffer == buf && remainderEnd == 0
      ensures remainder == if |buf| > 0 then 8 else 0
      ensures Unread() == StreamBits(buf)
    {
      buffer := buf;
      remainder := if |buf| > 0 then 8 else 0;
      remainderEnd := 0;
    }

    /** bitstream.py:7-19. On the failing inputs Python raises IndexError
        part-way; here the call reports failure and leaves the state alone. */
    method PopBits(bits: nat) returns (ok: bool, result: nat)
      requires Valid()
      modifies this
      ensures Valid()
      ensures ok == old(CanPop(bits))
      ensures !ok ==> result == 0 && unchanged(this)
      ensures ok ==> result == BeValue(old(Unread())[..bits]) && result < Pow2(bits)
      ensures ok ==> Unread() == old(Unread())[bits..]
      ensures ok ==> 1 <= remainder <= 8 && (buffer == [] ==> remainder == 8)
      ensures ok ==> buffer == old(buffer)[|old(buffer)| - |buffer|..]
      ensures remainderEnd == old(remainderEnd)
    {
      ok := CanPop(bits);
      result := 0;
      if !ok {
        return;
      }
      UnreadLength(buffer, remainder);
      result, buffer, remainder := ReadBits(buffer, remainder, bits);
    }

    /** The number of bits written so far, by the write cursor. */
    ghost function Written(): nat
      reads this
    {
      if remainderEnd == 0 || buffer == [] then 8 * |buffer| else 8 * (|buffer| - 1) + remainderEnd
    }

    /** bitstream.py:21-31: fails when the assertion `number < 2^bits`
        fails, or when a partial byte is due but the buffer is empty. On a
        packed buffer, a push appends `bits` bits holding `number`. */
    method PushBits(number: nat, bits: nat) returns (ok: bool)
      requires Valid()
      modifies this
      ensures Valid()
      ensures ok == (number < Pow2(bits) && (old(remainderEnd) == 0 || old(buffer) != []))
      ensures !ok ==> unchanged(this)
      ensures ok ==> buffer == PushBytes(old(buffer), old(remainderEnd), number, bits)
      ensures ok ==> remainderEnd == (old(remainderEnd) + bits) % 8
      ensures ok && old(Packed(buffer, remainderEnd, Written())) ==>
        Packed(buffer, remainderEnd, old(Written()) + bits) && |buffer| == (old(Written()) + bits + 7) / 8 &&
        LeValue(buffer) == old(LeValue(buffer)) + Shl(number, old(Written()))
      ensures remainder == old(remainder)
    {
      ok := number < Pow2(bits) && (remainderEnd == 0 || buffer != []);
      if !ok {
        return;
      }
      var shifted := Shl(number, remainderEnd);
      var total := remainderEnd + bits;
      var raw := LeBytes(shifted, (total + 7) / 8);
      if remainderEnd != 0 {
        OrBound(buffer[|buffer| - 1], raw[0], 8);
        buffer := buffer[..|buffer| - 1] + [BitOr(buffer[|buffer| - 1], raw[0]) as byte];
        raw := raw[1..];
      }
      buffer := buffer + raw;
      remainderEnd := total % 8;
      if old(Packed(buffer, remainderEnd, Written())) {
        Pushed(old(buffer), old(remainderEnd), old(Written()), number, bits, buffer);
      }
    }

    /** bitstream.py:33-36: the unread bytes, dropping a partly read first byte. */
    function RemainingBuffer(): (r: seq<byte>)
      reads this
      requires Valid()
      ensures remainder == 8 ==> StreamBits(r) == Unread()
      ensures remainder < 8 && buffer != [] ==> StreamBits(r) == Unread()[remainder..]
      ensures remainder < 8 && buffer == [] ==> r == []
    {
      if remainder < 8 then (if buffer == [] then [] else buffer[1..]) else buffer
    }
  }

  /** Pushes of at most 8 bits in all leave the single byte PackValue. */
  lemma PushAllOneByte(ps: seq<(nat, nat)>)
    requires AllFit(ps) && 0 < TotalBits(ps) <= 8
    ensures PackValue(ps) < 0x100 && PushAll(ps).0 == [PackValue(ps) as byte]
  {
    var buf := PushAll(ps).0;
    Pow2Shl(TotalBits(ps), 8 - TotalBits(ps));
    assert Pow2(8) == 0x100;
    assert |buf| == 1;
    assert LeValue(buf) == buf[0] + 0x100 * LeValue(buf[1..]);
  }

  /** The pushes of the self-test in bitstream.py:39-52. */
  const SelfTestPushes: seq<(nat, nat)> := [(1, 1), (1, 1), (1, 1), (1, 1), (2, 2), (2, 2)]

  /** The self-test of bitstream.py:39-52: on a fresh stream, four 1-bit
      pushes of 1 and then two 2-bit pushes of 2 leave a one-byte buffer
      that reads 0x01, 0x03, 0x07, 0x0F, 0x2F and 0xAF in turn. */
  lemma PushSelfTest()
    ensures AllFit(SelfTestPushes)
    ensures PushAll(SelfTestPushes[..1]).0 == [0x01]
    ensures PushAll(SelfTestPushes[..2]).0 == [0x03]
    ensures PushAll(SelfTestPushes[..3]).0 == [0x07]
    ensures PushAll(SelfTestPushes[..4]).0 == [0x0F]
    ensures PushAll(SelfTestPushes[..5]).0 == [0x2F]
    ensures PushAll(SelfTestPushes[..6]).0 == [0xAF]
  {
    var p := SelfTestPushes;
    assert Pow2(1) == 2 && Pow2(2) == 4;
    assert AllFit(p);
    assert TotalBits(p[..1]) == 1 && PackValue(p[..1]) == 0x01;
    assert p[..2][..1] == p[..1];
    assert TotalBits(p[..2]) == 2 && PackValue(p[..2]) == 0x03;
    assert p[..3][..2] == p[..2];
    assert TotalBits(p[..3]) == 3 && PackValue(p[..3]) == 0x07;
    assert p[..4][..3] == p[..3];
    assert TotalBits(p[..4]) == 4 && PackValue(p[..4]) == 0x0F;
    assert p[..5][..4] == p[..4];
    assert TotalBits(p[..5]) == 6 && PackValue(p[..5]) == 0x2F;
    assert p[..6][..5] == p[..5];
    assert TotalBits(p[..6]) == 8 && PackValue(p[..6]) == 0xAF;
    forall k | 1 <= k <= 6 ensures AllFit(p[..k]) {
      assert forall i :: 0 <= i < k ==> p[..k][i] == p[i];
    }
    PushAllOneByte(p[..1]);
    PushAllOneByte(p[..2]);
    PushAllOneByte(p[..3]);
    PushAllOneByte(p[..4]);
    PushAllOneByte(p[..5]);
    PushAllOneByte(p[..6]);
  }
}
