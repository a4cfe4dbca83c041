/** The GIF image-data encoder of lzw.py: the variable-length-code LZW
    compressor of GIF89a Appendix F, whose codes are packed least-significant
    bit first into a `Bitstream` and cut into the data sub-blocks of section
    15 of GIF89a, and the "uncompressed" variant that writes every pixel as a
    literal 8-bit code in blocks of 126. */
module Lzw {
  import opened Wrappers
  import opened Bytes
  import opened Bitstreams

  // ---------------------------------------------------------------------
  // Code size

  /** b is `palette_size_bits`: the least b >= 1 with 2^b >= palette_size. */
  predicate IsCodeSize(ps: nat, b: nat)
  {
    b >= 1 && ps <= Pow2(b) && (b == 1 || Pow2(b - 1) < ps)
  }

  lemma {:induction false} Pow2Mono(a: nat, b: nat)
    requires a <= b
    ensures Pow2(a) <= Pow2(b)
  {
    Pow2Shl(a, b - a);
  }

  lemma {:induction false} CodeSizeUnique(ps: nat, b1: nat, b2: nat)
    requires IsCodeSize(ps, b1) && IsCodeSize(ps, b2)
    ensures b1 == b2
  {
    if b1 < b2 {
      Pow2Mono(b1, b2 - 1);
    }
    if b2 < b1 {
      Pow2Mono(b2, b1 - 1);
    }
  }

  /** The least code size from b on. */
  function CodeSizeFrom(ps: nat, b: nat): (r: nat)
    requires b >= 1 && (b == 1 || Pow2(b - 1) < ps)
    ensures IsCodeSize(ps, r) && r >= b
    decreases ps - Pow2(b)
  {
    if ps <= Pow2(b) then b else CodeSizeFrom(ps, b + 1)
  }

  function CodeSize(ps: nat): (b: nat)
    ensures IsCodeSize(ps, b)
  {
    CodeSizeFrom(ps, 1)
  }

  /** The `while 1 << palette_size_bits < palette_size` loop. */
  method PaletteSizeBits(ps: nat) returns (b: nat)
    ensures b == CodeSize(ps)
  {
    b := 1;
    while Pow2(b) < ps
      invariant b >= 1 && (b == 1 || Pow2(b - 1) < ps)
      decreases ps - Pow2(b)
    {
      b := b + 1;
    }
    CodeSizeUnique(ps, b, CodeSize(ps));
  }

  /** Up to 128 colours need at most 7 bits. */
  lemma {:induction false} SmallCodeSize(ps: nat)
    requires ps <= 128
    ensures CodeSize(ps) <= 7
  {
    var b := CodeSize(ps);
    assert Pow2(7) == 128;
    if b > 7 {
      Pow2Mono(7, b - 1);
    }
  }

  // ---------------------------------------------------------------------
  // Data sub-blocks

  /** The buffer cut into blocks of 255 bytes (the last one shorter), each
      preceded by its length, as lzw.py:70-72 writes them. */
  function SubBlocks(buf: seq<byte>): seq<byte>
    decreases |buf|
  {
    if buf == [] then []
    else
      var k := Min(|buf|, 255);
      [k] + buf[..k] + SubBlocks(buf[k..])
  }

  /** A reader of GIF data sub-blocks: the concatenated block data and
      what follows the zero-length terminator. */
  function ReadSubBlocks(s: seq<byte>): Option<(seq<byte>, seq<byte>)>
    decreases |s|
  {
    if s == [] then None
    else if s[0] == 0 then Some(([], s[1..]))
    else if |s| < 1 + s[0] as int then None
    else match ReadSubBlocks(s[1 + s[0]..])
      case None => None
      case Some((data, rest)) => Some((s[1..1 + s[0]] + data, rest))
  }

  /** Sub-blocks plus the terminator read back as the buffer. */
  lemma {:induction false} SubBlocksRoundTrip(buf: seq<byte>, tail: seq<byte>)
    ensures ReadSubBlocks(SubBlocks(buf) + [0] + tail) == Some((buf, tail))
    decreases |buf|
  {
    if buf != [] {
      var k := Min(|buf|, 255);
      var rest := SubBlocks(buf[k..]) + [0] + tail;
      var s := SubBlocks(buf) + [0] + tail;
      assert s == [k as byte] + buf[..k] + rest;
      assert s[1 + k..] == rest;
      assert s[1..1 + k] == buf[..k];
      SubBlocksRoundTrip(buf[k..], tail);
      assert buf[..k] + buf[k..] == buf;
    }
  }

  /** Every block holds 1 to 255 bytes: one length byte per 255 data bytes,
      rounded up. */
  lemma {:induction false} SubBlocksLength(buf: seq<byte>)
    ensures |SubBlocks(buf)| == |buf| + (|buf| + 254) / 255
    decreases |buf|
  {
    if buf != [] {
      SubBlocksLength(buf[Min(|buf|, 255)..]);
    }
  }

  /** One block cut from position i on. */
  lemma {:induction false} SubBlocksStep(buf: seq<byte>, i: nat)
    requires i < |buf|
    ensures var chunk := Slice(buf, i, i + 255);
      SubBlocks(buf[i..]) == [|chunk| as byte] + chunk + SubBlocks(buf[i + |chunk|..])
  {
    var t := buf[i..];
    var k := Min(|t|, 255);
    assert Slice(buf, i, i + 255) == t[..k];
    assert t[k..] == buf[i + k..];
  }

  /** The `for i in range(0, len(buf), 255)` loop. */
  method WriteSubBlocks(buf: seq<byte>) returns (out: seq<byte>)
    ensures out == SubBlocks(buf)
  {
    out := [];
    var i := 0;
    while i < |buf|
      invariant i <= |buf|
      invariant out + SubBlocks(buf[i..]) == SubBlocks(buf)
      decreases |buf| - i
    {
      var chunk := Slice(buf, i, i + 255);
      SubBlocksStep(buf, i);
      AppendAssoc(out, [|chunk| as byte] + chunk, SubBlocks(buf[i + |chunk|..]));
      out := out + ([|chunk| as byte] + chunk);
      i := i + |chunk|;
    }
  }

  // ---------------------------------------------------------------------
  // encode_uncompressed

  predicate AllBytes(p: seq<int>)
  {
    forall i :: 0 <= i < |p| ==> 0 <= p[i] < 0x100
  }

  /** `bytes(row)` for a row of byte values. */
  function ToBytes(p: seq<int>): (r: seq<byte>)
    requires AllBytes(p)
    ensures |r| == |p| && forall i :: 0 <= i < |p| ==> r[i] == p[i]
  {
    seq(|p|, i requires 0 <= i < |p| => p[i])
  }

  /** The blocks of lzw.py:18-29: per chunk of up to 126 pixels,
      `len + 1`, 0x80, the pixels and 0x01, 0x81. None where `bytes(row)`
      raises on a value that is not a byte. */
  function UncompressedBody(p: seq<int>): Option<seq<byte>>
    decreases |p|
  {
    if p == [] then Some([])
    else
      var k := Min(|p|, 126);
      if !AllBytes(p[..k]) then None
      else match UncompressedBody(p[k..])
        case None => None
        case Some(rest) => Some([k + 1, 0x80] + ToBytes(p[..k]) + [0x01, 0x81] + rest)
  }

  /** `encode_uncompressed(pixels, palette_size)`. */
  function Uncompressed(pixels: seq<int>, ps: nat): Result<seq<byte>>
  {
    if ps > 128 then Fail
    else match UncompressedBody(pixels)
      case None => Fail
      case Some(body) =>
        SmallCodeSize(ps);
        Ok([Max(2, CodeSize(ps))] + body + [0])
  }

  /** The data the blocks of `encode_uncompressed` carry: per chunk 0x80,
      the pixels, then 0x81. */
  function Payload(p: seq<byte>): seq<byte>
    decreases |p|
  {
    if p == [] then []
    else
      var k := Min(|p|, 126);
      [0x80] + p[..k] + [0x81] + Payload(p[k..])
  }

  /** One chunk of the `while remaining` loop. */
  lemma {:induction false} UncompressedStep(p: seq<int>)
    requires p != []
    ensures var chunk := Slice(p, 0, 126);
      UncompressedBody(p) ==
        if AllBytes(chunk)
        then Prepend([(|chunk| + 1) as byte, 0x80] + ToBytes(chunk) + [0x01, 0x81], UncompressedBody(Drop(p, 126)))
        else None
  {
    var k := Min(|p|, 126);
    assert Slice(p, 0, 126) == p[..k];
    assert Drop(p, 126) == p[k..];
  }

  lemma {:induction false} AllBytesSplit(p: seq<int>, k: nat)
    requires k <= |p|
    ensures AllBytes(p) <==> AllBytes(p[..k]) && AllBytes(p[k..])
  {
    assert forall i :: 0 <= i < k ==> p[..k][i] == p[i];
    assert forall i :: k <= i < |p| ==> p[k..][i - k] == p[i];
  }

  lemma {:induction false} ToBytesSplit(p: seq<int>, k: nat)
    requires k <= |p| && AllBytes(p)
    ensures AllBytes(p[..k]) && AllBytes(p[k..])
    ensures ToBytes(p)[..k] == ToBytes(p[..k]) && ToBytes(p)[k..] == ToBytes(p[k..])
  {
    AllBytesSplit(p, k);
  }

  lemma {:induction false} UncompressedOk(p: seq<int>)
    ensures UncompressedBody(p).Some? <==> AllBytes(p)
    decreases |p|
  {
    if p != [] {
      var k := Min(|p|, 126);
      UncompressedStep(p);
      AllBytesSplit(p, k);
      assert Slice(p, 0, 126) == p[..k] && Drop(p, 126) == p[k..];
      UncompressedOk(p[k..]);
    }
  }

  /** The first chunk of a well-formed body and of its payload. */
  lemma {:induction false} FirstChunk(p: seq<int>, k: nat)
    requires p != [] && AllBytes(p) && k == Min(|p|, 126)
    ensures AllBytes(p[k..]) && UncompressedBody(p).Some? && UncompressedBody(p[k..]).Some?
    ensures UncompressedBody(p).value ==
      [(k + 1) as byte, 0x80] + ToBytes(p[..k]) + [0x01, 0x81] + UncompressedBody(p[k..]).value
    ensures Payload(ToBytes(p)) == [0x80] + ToBytes(p[..k]) + [0x81] + Payload(ToBytes(p[k..]))
  {
    ToBytesSplit(p, k);
    UncompressedOk(p);
    UncompressedOk(p[k..]);
    assert Slice(p, 0, 126) == p[..k] && Drop(p, 126) == p[k..];
    UncompressedStep(p);
  }

  /** The output of `encode_uncompressed`, past its header byte, is a
      well-formed sub-block sequence: each chunk is one block of
      `len + 1` bytes (0x80 and the pixels) and one block holding 0x81. */
  lemma {:induction false} UncompressedIsSubBlocks(p: seq<int>, tail: seq<byte>)
    requires AllBytes(p)
    ensures UncompressedBody(p).Some?
    ensures ReadSubBlocks(UncompressedBody(p).value + [0] + tail) == Some((Payload(ToBytes(p)), tail))
    decreases |p|
  {
    UncompressedOk(p);
    if p != [] {
      var k := Min(|p|, 126);
      FirstChunk(p, k);
      UncompressedIsSubBlocks(p[k..], tail);
      ChunkBlocks(k, ToBytes(p[..k]), UncompressedBody(p).value, UncompressedBody(p[k..]).value, tail);
    }
  }

  /** One chunk of `encode_uncompressed` read as its two sub-blocks. */
  lemma {:induction false} ChunkBlocks(k: nat, chunk: seq<byte>, body: seq<byte>, restBody: seq<byte>, tail: seq<byte>)
    requires 1 <= k <= 126 && |chunk| == k
    requires body == [(k + 1) as byte, 0x80] + chunk + [0x01, 0x81] + restBody
    ensures var r := ReadSubBlocks(restBody + [0] + tail);
      r.Some? ==> ReadSubBlocks(body + [0] + tail) == Some(([0x80] + chunk + [0x81] + r.value.0, r.value.1))
  {
    var rest := restBody + [0] + tail;
    var s := body + [0] + tail;
    assert s == [(k + 1) as byte] + ([0x80] + chunk) + ([1, 0x81] + rest);
    var t := [1 as byte, 0x81] + rest;
    assert s[0] == (k + 1) as byte;
    assert s[1..1 + (k + 1)] == [0x80] + chunk;
    assert s[1 + (k + 1)..] == t;
    assert t[0] == 1 && t[1..2] == [0x81] && t[2..] == rest;
    if ReadSubBlocks(rest).Some? {
      var (data, after) := ReadSubBlocks(rest).value;
      assert ReadSubBlocks(t) == Some(([0x81] + data, after));
      assert ReadSubBlocks(s) == Some((([0x80] + chunk) + ([0x81] + data), after));
      assert ([0x80] + chunk) + ([0x81] + data) == [0x80] + chunk + [0x81] + data;
    }
  }

  /** Four bytes of framing per chunk of up to 126 pixels. */
  lemma {:induction false} UncompressedLength(p: seq<int>)
    requires AllBytes(p)
    ensures UncompressedBody(p).Some?
    ensures |UncompressedBody(p).value| == |p| + 4 * ((|p| + 125) / 126)
    decreases |p|
  {
    UncompressedOk(p);
    if p != [] {
      var k := Min(|p|, 126);
      AllBytesSplit(p, k);
      assert Slice(p, 0, 126) == p[..k] && Drop(p, 126) == p[k..];
      UncompressedStep(p);
      UncompressedLength(p[k..]);
    }
  }

  /** `encode_uncompressed(pixels, palette_size)` (lzw.py:8-31). */
  method EncodeUncompressed(pixels: seq<int>, ps: nat) returns (r: Result<seq<byte>>)
    ensures r == Uncompressed(pixels, ps)
  {
    if ps > 128 {
      return Fail;
    }
    var b := PaletteSizeBits(ps);
    SmallCodeSize(ps);
    var header: seq<byte> := [Max(2, b)];
    var output := header;
    var remaining := pixels;
    while |remaining| > 0
      invariant Prepend(output, UncompressedBody(remaining)) == Prepend(header, UncompressedBody(pixels))
      decreases |remaining|
    {
      var chunk := Slice(remaining, 0, 126);
      UncompressedStep(remaining);
      if !AllBytes(chunk) {
        return Fail;
      }
      var block: seq<byte> := [(|chunk| + 1) as byte, 0x80] + ToBytes(chunk) + [0x01, 0x81];
      PrependPrepend(output, block, UncompressedBody(Drop(remaining, 126)));
      output := output + block;
      remaining := Drop(remaining, 126);
    }
    assert remaining == [];
    var body := UncompressedBody(pixels).value;
    assert output == header + body;
    output := output + [0];
    return Ok(output);
  }

  // ---------------------------------------------------------------------
  // The compressor's dictionary

  /** A dictionary entry: a string of pixel values, or one of the two
      `extra_entries` (the tuples `("CLEAR",)` and `("END",)`), which never
      equal a tuple of pixels. */
  datatype Entry = Run(symbols: seq<int>) | ClearCode | EndCode

  /** `[(i,) for i in range(palette_size)]` followed by CLEAR and END. */
  function InitialDictionary(ps: nat): (d: seq<Entry>)
    ensures |d| == ps + 2 && d[ps] == ClearCode && d[ps + 1] == EndCode
    ensures forall i :: 0 <= i < ps ==> d[i] == Run([i])
  {
    seq(ps, i => Run([i])) + [ClearCode, EndCode]
  }

  /** `dictionary.index(e)`; None where Python raises ValueError. */
  function IndexOf(d: seq<Entry>, e: Entry): Option<nat>
  {
    if d == [] then None
    else if d[0] == e then Some(0)
    else match IndexOf(d[1..], e)
      case None => None
      case Some(k) => Some(k + 1)
  }

  /** IndexOf finds e exactly when d holds it, and then at its first position. */
  lemma {:induction false} IndexOfSpec(d: seq<Entry>, e: Entry)
    ensures IndexOf(d, e).Some? <==> e in d
    ensures IndexOf(d, e).Some? ==>
      (var k := IndexOf(d, e).value;
       k < |d| && d[k] == e && forall j :: 0 <= j < k ==> d[j] != e)
  {
    if d != [] && d[0] != e {
      IndexOfSpec(d[1..], e);
      assert e in d <==> e in d[1..];
      if IndexOf(d[1..], e).Some? {
        var k := IndexOf(d[1..], e).value;
        assert forall j :: 1 <= j < k + 1 ==> d[j] == d[1..][j - 1];
      }
    }
  }

  /** Entries found in a dictionary keep their first index when more
      entries are appended. */
  lemma {:induction false} IndexOfPrefix(d: seq<Entry>, extra: seq<Entry>, e: Entry)
    requires e in d
    ensures IndexOf(d + extra, e) == IndexOf(d, e)
  {
    IndexOfSpec(d, e);
    IndexOfSpec(d + extra, e);
    var k := IndexOf(d, e).value;
    assert (d + extra)[k] == e;
    assert forall j :: 0 <= j < k ==> (d + extra)[j] == d[j];
  }

  /** The CLEAR and END codes are `palette_size` and `palette_size + 1`. */
  lemma {:induction false} SpecialCodes(ps: nat, extra: seq<Entry>)
    ensures IndexOf(InitialDictionary(ps) + extra, ClearCode) == Some(ps)
    ensures IndexOf(InitialDictionary(ps) + extra, EndCode) == Some(ps + 1)
  {
    var d := InitialDictionary(ps);
    IndexOfSpec(d, ClearCode);
    IndexOfSpec(d, EndCode);
    assert d[ps] == ClearCode && d[ps + 1] == EndCode;
    IndexOfPrefix(d, extra, ClearCode);
    IndexOfPrefix(d, extra, EndCode);
  }

  /** The comparison of lzw.py:58: the entry is a string of pixels equal to
      `tuple(pixels[index:index + len(entry)])`, with Python's clamped slice. */
  predicate Matches(pixels: seq<int>, index: nat, e: Entry)
  {
    e.Run? && Slice(pixels, index, index + |e.symbols|) == e.symbols
  }

  function MatchLength(pixels: seq<int>, index: nat, e: Entry): nat
  {
    if Matches(pixels, index, e) then |e.symbols| else 0
  }

  /** Length of the longest string of d[j..] matching at index, and at least 1. */
  function LongestFrom(d: seq<Entry>, pixels: seq<int>, index: nat, j: nat): (n: nat)
    requires index < |pixels| && j <= |d|
    ensures 1 <= n <= |pixels| - index
    decreases |d| - j
  {
    if j == |d| then 1
    else Max(LongestFrom(d, pixels, index, j + 1), MatchLength(pixels, index, d[j]))
  }

  /** The length of the entry chosen by lzw.py:56-60. */
  function Longest(d: seq<Entry>, pixels: seq<int>, index: nat): (n: nat)
    requires index < |pixels|
    ensures 1 <= n <= |pixels| - index
  {
    LongestFrom(d, pixels, index, 0)
  }

  /** A length above 1 is that of a dictionary string found at index: the
      one at position k. */
  lemma {:induction false} LongestFromFound(d: seq<Entry>, pixels: seq<int>, index: nat, j: nat) returns (k: nat)
    requires index < |pixels| && j <= |d|
    ensures var n := LongestFrom(d, pixels, index, j);
      (n == 1 || (j <= k < |d| && Matches(pixels, index, d[k]) && |d[k].symbols| == n))
    decreases |d| - j
  {
    k := j;
    if j < |d| {
      k := LongestFromFound(d, pixels, index, j + 1);
      if LongestFrom(d, pixels, index, j + 1) < MatchLength(pixels, index, d[j]) {
        k := j;
      }
    }
  }

  /** No string of d[j..] found at index is longer. */
  lemma {:induction false} LongestFromMaximal(d: seq<Entry>, pixels: seq<int>, index: nat, j: nat, k: nat)
    requires index < |pixels| && j <= k < |d| && Matches(pixels, index, d[k])
    ensures |d[k].symbols| <= LongestFrom(d, pixels, index, j)
    decreases k - j
  {
    if j < k {
      LongestFromMaximal(d, pixels, index, j + 1, k);
    }
  }

  /** The entry chosen at index is a single pixel or a dictionary string. */
  lemma {:induction false} LongestInDictionary(d: seq<Entry>, pixels: seq<int>, index: nat)
    requires index < |pixels|
    ensures var n := Longest(d, pixels, index);
      (n == 1 || Run(pixels[index..index + n]) in d)
  {
    var k := LongestFromFound(d, pixels, index, 0);
    var n := Longest(d, pixels, index);
    if n != 1 {
      MatchIsRun(pixels, index, d[k], n);
    }
  }

  lemma {:induction false} MatchIsRun(pixels: seq<int>, index: nat, e: Entry, n: nat)
    requires index + n <= |pixels| && Matches(pixels, index, e) && |e.symbols| == n
    ensures e == Run(pixels[index..index + n])
  {
    assert Slice(pixels, index, index + n) == pixels[index..index + n];
  }

  /** No dictionary string found at index is longer than the chosen entry. */
  lemma {:induction false} LongestIsMaximal(d: seq<Entry>, pixels: seq<int>, index: nat, k: nat)
    requires index < |pixels| && k < |d| && Matches(pixels, index, d[k])
    ensures |d[k].symbols| <= Longest(d, pixels, index)
  {
    LongestFromMaximal(d, pixels, index, 0, k);
  }

  /** lzw.py:53-54: one more bit once the dictionary outgrows the width. */
  function Widen(d: seq<Entry>, width: nat): nat
  {
    if Pow2(width) < |d| then width + 1 else width
  }

  /** lzw.py:66-67: the entry followed by the next pixel, while pixels
      remain and the dictionary holds fewer than 0x1000 entries. */
  function Grow(d: seq<Entry>, pixels: seq<int>, entry: seq<int>, next: nat): seq<Entry>
  {
    if next < |pixels| && |d| < 0x1000 then d + [Run(entry + [pixels[next]])] else d
  }

  /** The width invariant of the compressing loop: every code of the
      dictionary, after widening, fits the width, and so do CLEAR and END. */
  predicate WidthOk(ps: nat, d: seq<Entry>, width: nat)
  {
    ps + 1 < Pow2(width) && |d| <= Pow2(width) + 1
  }

  /** The (code, width) pushes of the loop of lzw.py:52-69 from the given
      state on, ending with END; None where `dictionary.index` raises. */
  function Codes(ps: nat, pixels: seq<int>, d: seq<Entry>, index: nat, width: nat): Option<seq<(nat, nat)>>
    requires index <= |pixels|
    decreases |pixels| - index, 1
  {
    if index == |pixels| then Some([(ps + 1, width)])
    else CodesWith(ps, pixels, d, index, width, pixels[index..index + Longest(d, pixels, index)])
  }

  /** Codes, once the entry at index has been chosen. */
  function CodesWith(ps: nat, pixels: seq<int>, d: seq<Entry>, index: nat, width: nat, entry: seq<int>): Option<seq<(nat, nat)>>
    requires index + |entry| <= |pixels| && entry != []
    decreases |pixels| - index, 0
  {
    match IndexOf(d, Run(entry))
    case None => None
    case Some(c) =>
      var w := Widen(d, width);
      var next := index + |entry|;
      Prepend([(c, w)], Codes(ps, pixels, Grow(d, pixels, entry, next), next, w))
  }

  lemma {:induction false} AllFitJoin(a: seq<(nat, nat)>, b: seq<(nat, nat)>)
    requires AllFit(a) && AllFit(b)
    ensures AllFit(a + b)
  {
    assert forall i :: |a| <= i < |a| + |b| ==> (a + b)[i] == b[i - |a|];
  }

  /** Every code is pushed with a width it fits in, so the assertion of
      bitstream.py:22 never fails during `encode`. */
  lemma {:induction false} CodesFit(ps: nat, pixels: seq<int>, d: seq<Entry>, index: nat, width: nat)
    requires index <= |pixels| && WidthOk(ps, d, width)
    ensures Codes(ps, pixels, d, index, width).Some? ==>
      AllFit(Codes(ps, pixels, d, index, width).value)
    decreases |pixels| - index
  {
    var r := Codes(ps, pixels, d, index, width);
    if index == |pixels| {
      assert r == Some([(ps + 1, width)]);
    } else {
      var entry := pixels[index..index + Longest(d, pixels, index)];
      var code := IndexOf(d, Run(entry));
      if code.None? {
        CodesFail(ps, pixels, d, index, width, entry);
      } else {
        var next := index + |entry|;
        var w := Widen(d, width);
        var d' := Grow(d, pixels, entry, next);
        CodesStep(ps, pixels, d, index, width, entry, code.value, d', next, w);
        WidthStep(ps, pixels, d, width, entry, next, code.value);
        CodesFit(ps, pixels, d', next, w);
        var rest := Codes(ps, pixels, d', next, w);
        assert r == Prepend([(code.value, w)], rest);
        if rest.Some? {
          AllFitJoin([(code.value, w)], rest.value);
        }
      }
    }
  }

  /** `dictionary.index` raising ends the encoding in failure. */
  lemma {:induction false} CodesFail(ps: nat, pixels: seq<int>, d: seq<Entry>, index: nat, width: nat, entry: seq<int>)
    requires index < |pixels|
    requires entry == pixels[index..index + Longest(d, pixels, index)]
    requires IndexOf(d, Run(entry)).None?
    ensures Codes(ps, pixels, d, index, width).None?
  {
    assert Codes(ps, pixels, d, index, width) == CodesWith(ps, pixels, d, index, width, entry);
  }

  lemma {:induction false} WidenStep(ps: nat, d: seq<Entry>, width: nat)
    requires WidthOk(ps, d, width)
    ensures Pow2(width) <= Pow2(Widen(d, width))
    ensures |d| <= Pow2(Widen(d, width)) && WidthOk(ps, d + [Run([])], Widen(d, width))
  {
  }

  /** The start of `encode`: the initial dictionary and a code width of
      palette_size_bits + 1 bits, which fits it. */
  lemma {:induction false} InitialWidth(ps: nat)
    ensures WidthOk(ps, InitialDictionary(ps), CodeSize(ps) + 1)
    ensures |InitialDictionary(ps)| <= Pow2(CodeSize(ps) + 1)
  {
    var b := CodeSize(ps);
    if b > 1 {
      Pow2Mono(1, b - 1);
    }
  }

  /** `encode(pixels, max_compression_bits, palette_size)` with the default
      `extra_entries` (lzw.py:34-74). */
  function Encode(pixels: seq<int>, maxCompressionBits: Option<int>, ps: nat): Result<seq<byte>>
  {
    if maxCompressionBits == Some(1) then Uncompressed(pixels, ps) else Compressed(pixels, ps)
  }

  /** The compressing path of `encode` (lzw.py:41-74): the header byte,
      the pushes CLEAR, the codes and END packed into sub-blocks, and the
      zero-length terminator. */
  function Compressed(pixels: seq<int>, ps: nat): Result<seq<byte>>
  {
    var b := CodeSize(ps);
    Framed(ps, b, Codes(ps, pixels, InitialDictionary(ps), 0, b + 1))
  }

  /** The output of the compressing path around a code sequence: the
      header byte (lzw.py:42-43), the sub-blocks of the packed pushes (lzw.py:70-72) and the
      terminator (lzw.py:73). */
  function Framed(ps: nat, b: nat, codes: Option<seq<(nat, nat)>>): Result<seq<byte>>
  {
    if Max(2, b) >= 0x100 || codes.None? then Fail
    else Ok([Max(2, b) as byte] + SubBlocks(Packing([(ps, b + 1)] + codes.value)) + [0])
  }

  /** The bytes a stream holds after the given pushes: ceil(total/8) bytes
      whose little-endian value is the sum of every number shifted to the
      bit offset it was pushed at. */
  function Packing(pushes: seq<(nat, nat)>): (r: seq<byte>)
    ensures |r| == (TotalBits(pushes) + 7) / 8
  {
    LeBytes(PackValue(pushes), (TotalBits(pushes) + 7) / 8)
  }

  /** Pushing onto an empty stream one push after another leaves `Packing`. */
  lemma {:induction false} PackingIsPushAll(pushes: seq<(nat, nat)>)
    requires AllFit(pushes)
    ensures PushAll(pushes).0 == Packing(pushes)
  {
    var (buf, re) := PushAll(pushes);
    PackedIsPacking(buf, re, pushes);
  }

  /** A packed buffer is determined by its length and value. */
  lemma {:induction false} PackedIsPacking(buf: seq<byte>, re: nat, pushes: seq<(nat, nat)>)
    requires Packed(buf, re, TotalBits(pushes)) && LeValue(buf) == PackValue(pushes)
    ensures buf == Packing(pushes)
  {
    PackedLength(buf, re, TotalBits(pushes));
    LeBytesOfValue(buf);
  }

  /** The pushes of the compressing path all fit their widths: the
      assertion of bitstream.py:22 never fails in `encode`. */
  lemma {:induction false} CompressedFit(pixels: seq<int>, ps: nat)
    ensures var b := CodeSize(ps);
      var codes := Codes(ps, pixels, InitialDictionary(ps), 0, b + 1);
      codes.Some? ==> AllFit([(ps, b + 1)] + codes.value)
  {
    var b := CodeSize(ps);
    InitialWidth(ps);
    CodesFit(ps, pixels, InitialDictionary(ps), 0, b + 1);
    var codes := Codes(ps, pixels, InitialDictionary(ps), 0, b + 1);
    if codes.Some? {
      AllFitJoin([(ps, b + 1)], codes.value);
    }
  }

  lemma {:induction false} FramedOk(ps: nat, b: nat, codes: seq<(nat, nat)>)
    requires Max(2, b) < 0x100
    ensures Framed(ps, b, Some(codes)) == Ok([Max(2, b) as byte] + SubBlocks(Packing([(ps, b + 1)] + codes)) + [0])
  {
  }

  /** `Compressed` when the code sequence exists. */
  lemma {:induction false} CompressedOk(pixels: seq<int>, ps: nat, codes: seq<(nat, nat)>)
    requires Max(2, CodeSize(ps)) < 0x100
    requires Codes(ps, pixels, InitialDictionary(ps), 0, CodeSize(ps) + 1) == Some(codes)
    ensures Compressed(pixels, ps)
      == Ok([Max(2, CodeSize(ps)) as byte] + SubBlocks(Packing([(ps, CodeSize(ps) + 1)] + codes)) + [0])
  {
    CompressedUnfold(pixels, ps);
    FramedOk(ps, CodeSize(ps), codes);
  }

  /** One unfolding of `Compressed`. */
  lemma {:induction false} CompressedUnfold(pixels: seq<int>, ps: nat)
    ensures Compressed(pixels, ps) == Framed(ps, CodeSize(ps), Codes(ps, pixels, InitialDictionary(ps), 0, CodeSize(ps) + 1))
  {
  }

  /** `Compressed` fails when the code sequence does not exist. */
  lemma {:induction false} CompressedFail(pixels: seq<int>, ps: nat)
    requires Codes(ps, pixels, InitialDictionary(ps), 0, CodeSize(ps) + 1).None?
    ensures Compressed(pixels, ps) == Fail
  {
    CompressedUnfold(pixels, ps);
  }

  /** One comparison of lzw.py:58-60. */
  lemma {:induction false} LongestStep(d: seq<Entry>, pixels: seq<int>, index: nat, j: nat, entry: seq<int>) returns (entry': seq<int>)
    requires index < |pixels| && j < |d|
    requires entry == pixels[index..index + LongestFrom(d, pixels, index, j + 1)]
    ensures entry' == (if Matches(pixels, index, d[j]) && |d[j].symbols| > |entry| then d[j].symbols else entry)
    ensures entry' == pixels[index..index + LongestFrom(d, pixels, index, j)]
  {
    entry' := if Matches(pixels, index, d[j]) && |d[j].symbols| > |entry| then d[j].symbols else entry;
  }

  /** lzw.py:56-60: starting from the single pixel, every dictionary string,
      last entry first (j runs over the positions of `dictionary[0-i]`), that
      matches at index and is longer than the current choice replaces it. */
  method LongestMatch(d: seq<Entry>, pixels: seq<int>, index: nat) returns (entry: seq<int>)
    requires index < |pixels|
    ensures entry == pixels[index..index + Longest(d, pixels, index)]
  {
    entry := [pixels[index]];
    var j: nat := |d|;
    while j > 0
      invariant j <= |d|
      invariant entry == pixels[index..index + LongestFrom(d, pixels, index, j)]
    {
      j := j - 1;
      var e := d[j];
      ghost var next := LongestStep(d, pixels, index, j, entry);
      if Matches(pixels, index, e) && |e.symbols| > |entry| {
        entry := e.symbols;
      }
      assert entry == next;
    }
  }

  /** Appending one push to a sequence of pushes. */
  lemma {:induction false} PushSnoc(pushes: seq<(nat, nat)>, number: nat, bits: nat)
    requires AllFit(pushes) && number < Pow2(bits)
    ensures AllFit(pushes + [(number, bits)])
    ensures TotalBits(pushes + [(number, bits)]) == TotalBits(pushes) + bits
    ensures PackValue(pushes + [(number, bits)]) == PackValue(pushes) + Shl(number, TotalBits(pushes))
  {
    var q := pushes + [(number, bits)];
    assert q[..|q| - 1] == pushes;
    assert forall i :: 0 <= i < |pushes| ==> q[i] == pushes[i];
  }

  /** One pass of the loop of lzw.py:52-67 in terms of Codes. */
  lemma {:induction false} CodesStep(ps: nat, pixels: seq<int>, d: seq<Entry>, index: nat, width: nat, entry: seq<int>, c: nat,
                                     d': seq<Entry>, index': nat, width': nat)
    requires index < |pixels|
    requires entry == pixels[index..index + Longest(d, pixels, index)]
    requires IndexOf(d, Run(entry)) == Some(c)
    requires index' == index + |entry| && d' == Grow(d, pixels, entry, index') && width' == Widen(d, width)
    ensures Codes(ps, pixels, d, index, width) == Prepend([(c, width')], Codes(ps, pixels, d', index', width'))
  {
    assert Codes(ps, pixels, d, index, width) == CodesWith(ps, pixels, d, index, width, entry);
    CodesWithStep(ps, pixels, d, index, width, entry, c, d', index', width');
  }

  lemma {:induction false} CodesWithStep(ps: nat, pixels: seq<int>, d: seq<Entry>, index: nat, width: nat, entry: seq<int>, c: nat,
                                         d': seq<Entry>, index': nat, width': nat)
    requires index + |entry| <= |pixels| && entry != []
    requires IndexOf(d, Run(entry)) == Some(c)
    requires index' == index + |entry| && d' == Grow(d, pixels, entry, index') && width' == Widen(d, width)
    ensures CodesWith(ps, pixels, d, index, width, entry) == Prepend([(c, width')], Codes(ps, pixels, d', index', width'))
  {
  }

  /** The width invariant survives one pass, and the pushed code fits. */
  lemma {:induction false} WidthStep(ps: nat, pixels: seq<int>, d: seq<Entry>, width: nat, entry: seq<int>, next: nat, c: nat)
    requires WidthOk(ps, d, width)
    requires IndexOf(d, Run(entry)) == Some(c)
    ensures WidthOk(ps, Grow(d, pixels, entry, next), Widen(d, width))
    ensures c < Pow2(Widen(d, width))
  {
    WidenStep(ps, d, width);
    IndexOfSpec(d, Run(entry));
  }

  /** The stream holds exactly the given pushes. */
  ghost predicate Holds(stream: Bitstream, pushes: seq<(nat, nat)>)
    reads stream
  {
    AllFit(pushes) && stream.Valid() && Packed(stream.buffer, stream.remainderEnd, TotalBits(pushes)) &&
    LeValue(stream.buffer) == PackValue(pushes)
  }

  /** `output_bitstream.push_bits(number, bits)` for a number that fits. */
  method Push(stream: Bitstream, number: nat, bits: nat, ghost pushes: seq<(nat, nat)>)
    requires Holds(stream, pushes) && number < Pow2(bits)
    modifies stream
    ensures Holds(stream, pushes + [(number, bits)])
  {
    PushLaw(stream.buffer, stream.remainderEnd, TotalBits(pushes), number, bits);
    PushSnoc(pushes, number, bits);
    var ok := stream.PushBits(number, bits);
    assert ok;
  }

  /** One pass of the loop of lzw.py:52-67: widen, choose the longest
      match, push its code, advance and grow the dictionary. */
  method EncodeStep(stream: Bitstream, ps: nat, pixels: seq<int>, dictionary: seq<Entry>, index: nat,
                    currentBits: nat, ghost pushes: seq<(nat, nat)>)
    returns (failed: bool, dictionary': seq<Entry>, index': nat, currentBits': nat, ghost pushes': seq<(nat, nat)>)
    requires index < |pixels| && WidthOk(ps, dictionary, currentBits) && Holds(stream, pushes)
    modifies stream
    ensures failed ==> Codes(ps, pixels, dictionary, index, currentBits).None?
    ensures !failed ==> index < index' <= |pixels| && WidthOk(ps, dictionary', currentBits') && Holds(stream, pushes')
    ensures !failed ==>
      (Prepend(pushes', Codes(ps, pixels, dictionary', index', currentBits'))
       == Prepend(pushes, Codes(ps, pixels, dictionary, index, currentBits)))
  {
    currentBits' := currentBits;
    if Pow2(currentBits') < |dictionary| {
      currentBits' := currentBits' + 1;
    }
    var entry := LongestMatch(dictionary, pixels, index);
    var code := IndexOf(dictionary, Run(entry));
    if code.None? {
      CodesFail(ps, pixels, dictionary, index, currentBits, entry);
      return true, dictionary, index, currentBits, pushes;
    }
    WidthStep(ps, pixels, dictionary, currentBits, entry, index + |entry|, code.value);
    Push(stream, code.value, currentBits', pushes);
    pushes' := pushes + [(code.value, currentBits')];
    index' := index + |entry|;
    dictionary' := dictionary;
    if index' < |pixels| && |dictionary'| < 0x1000 {
      dictionary' := dictionary' + [Run(entry + [pixels[index']])];
    }
    failed := false;
    CodesStep(ps, pixels, dictionary, index, currentBits, entry, code.value, dictionary', index', currentBits');
    PrependPrepend(pushes, [(code.value, currentBits')], Codes(ps, pixels, dictionary', index', currentBits'));
  }

  /** The loop of lzw.py:52-67 and the END push of lzw.py:69, from the
      given state on. */
  method WriteCodesFrom(stream: Bitstream, ps: nat, pixels: seq<int>, dictionary: seq<Entry>, index: nat,
                        currentBits: nat, ghost pushes: seq<(nat, nat)>)
    returns (failed: bool, ghost pushes': seq<(nat, nat)>)
    requires index <= |pixels| && WidthOk(ps, dictionary, currentBits) && Holds(stream, pushes)
    modifies stream
    ensures var codes := Codes(ps, pixels, dictionary, index, currentBits);
      failed == codes.None? && (!failed ==> pushes' == pushes + codes.value && Holds(stream, pushes'))
  {
    var d, i, w := dictionary, index, currentBits;
    pushes' := pushes;
    while i < |pixels|
      invariant i <= |pixels| && WidthOk(ps, d, w) && Holds(stream, pushes')
      invariant Prepend(pushes', Codes(ps, pixels, d, i, w)) == Prepend(pushes, Codes(ps, pixels, dictionary, index, currentBits))
      decreases |pixels| - i
    {
      var stepFailed;
      stepFailed, d, i, w, pushes' := EncodeStep(stream, ps, pixels, d, i, w, pushes');
      if stepFailed {
        return true, pushes';
      }
    }
    assert Codes(ps, pixels, d, i, w) == Some([(ps + 1, w)]);
    Push(stream, ps + 1, w, pushes');
    pushes' := pushes' + [(ps + 1, w)];
    failed := false;
  }

  /** lzw.py:41-69: CLEAR, then every code and END, onto an empty stream. */
  method WriteCodes(stream: Bitstream, pixels: seq<int>, ps: nat, b: nat) returns (failed: bool)
    requires b == CodeSize(ps) && stream.Valid() && stream.buffer == [] && stream.remainderEnd == 0
    modifies stream
    ensures var codes := Codes(ps, pixels, InitialDictionary(ps), 0, b + 1);
      failed == codes.None? && (!failed ==> Holds(stream, [(ps, b + 1)] + codes.value))
  {
    var dictionary := InitialDictionary(ps);
    InitialWidth(ps);
    SpecialCodes(ps, []);
    assert dictionary + [] == dictionary;
    var clear := IndexOf(dictionary, ClearCode).value;
    assert Holds(stream, []);
    Push(stream, clear, b + 1, []);
    ghost var pushes;
    failed, pushes := WriteCodesFrom(stream, ps, pixels, dictionary, 0, b + 1, [(clear, b + 1)]);
  }

  /** `encode(pixels, max_compression_bits, palette_size)` (lzw.py:34-74),
      writing the codes into a `Bitstream`. */
  method EncodeImage(pixels: seq<int>, maxCompressionBits: Option<int>, ps: nat) returns (r: Result<seq<byte>>)
    ensures r == Encode(pixels, maxCompressionBits, ps)
  {
    var b := PaletteSizeBits(ps);
    if maxCompressionBits == Some(1) {
      r := EncodeUncompressed(pixels, ps);
      return;
    }
    var stream := new Bitstream([]);
    if Max(2, b) >= 0x100 {
      return Fail;
    }
    var header: seq<byte> := [Max(2, b) as byte];
    var failed := WriteCodes(stream, pixels, ps, b);
    if failed {
      CompressedFail(pixels, ps);
      return Fail;
    }
    ghost var codes := Codes(ps, pixels, InitialDictionary(ps), 0, b + 1).value;
    PackedIsPacking(stream.buffer, stream.remainderEnd, [(ps, b + 1)] + codes);
    var blocks := WriteSubBlocks(stream.buffer);
    CompressedOk(pixels, ps, codes);
    r := Ok(header + blocks + [0]);
  }
}
