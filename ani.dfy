/** The animated-cursor reader of ani.py. An ANI file is a RIFF list of
    form type `ACON`. Its children are an `anih` header chunk, optional
    `rate` and `seq ` chunks of little-endian 32-bit words, and a `LIST`
    of form type `fram` whose children are ICO images. `Ani.frames` turns
    them into frame objects: reordered by `seq `, where a repeated index
    shares one object, and given the delays of `rate`. */
module Anis {
  import opened Wrappers
  import opened Bytes
  import opened Bits
  import opened Riffs
  import opened Ico

  const AconTag: seq<byte> := [0x41, 0x43, 0x4F, 0x4E]  // "ACON"
  const AnihTag: seq<byte> := [0x61, 0x6E, 0x69, 0x68]  // "anih"
  const FramTag: seq<byte> := [0x66, 0x72, 0x61, 0x6D]  // "fram"
  const RateTag: seq<byte> := [0x72, 0x61, 0x74, 0x65]  // "rate"
  const SeqTag: seq<byte> := [0x73, 0x65, 0x71, 0x20]   // "seq "

  /** ani.py:9: a frame's delay, in jiffies, when no `anih` gives one. */
  const DefaultDelay: nat := 1

  // ---------------------------------------------------------------------
  // The anih header

  datatype Format = Raw | Cur

  /** The dictionary `_parse_anih` returns (ani.py:51-53). */
  datatype AniHeader = AniHeader(
    frameCount: u32, stepCount: u32, width: u32, height: u32,
    bitsPerPixel: u32, colorPlanes: u32, defaultRate: u32,
    format: Format, seqPresent: bool, remainingFlags: nat)

  /** `struct.unpack('<I...I', data)` over the whole 4-byte words of data. */
  function U32s(data: seq<byte>): (r: seq<u32>)
    ensures |r| == |data| / 4
    decreases |data|
  {
    if |data| < 4 then [] else [Field(data, 0)] + U32s(data[4..])
  }

  /** The k-th little-endian 32-bit word of data. */
  function Field(data: seq<byte>, k: nat): u32
    requires 4 * k + 4 <= |data|
  {
    U32(data[4 * k..4 * k + 4])
  }

  /** `struct.pack('<I...I', *vs)`. */
  function U32sBytes(vs: seq<u32>): (r: seq<byte>)
    ensures |r| == 4 * |vs|
  {
    if vs == [] then [] else EncodeU32(vs[0]) + U32sBytes(vs[1..])
  }

  lemma {:induction false} U32sAt(data: seq<byte>, k: nat)
    requires 4 * k + 4 <= |data|
    ensures U32s(data)[k] == Field(data, k)
    decreases k
  {
    if k > 0 {
      var rest := data[4..];
      U32sAt(rest, k - 1);
      assert U32s(data)[k] == U32s(rest)[k - 1];
      FieldDrop(data, k);
    }
  }

  lemma FieldDrop(data: seq<byte>, k: nat)
    requires 0 < k && 4 * k + 4 <= |data|
    ensures Field(data[4..], k - 1) == Field(data, k)
  {
    SliceOfDrop(data, 4, 4 * (k - 1), 4 * (k - 1) + 4);
  }

  lemma SliceOfDrop(data: seq<byte>, d: nat, i: nat, j: nat)
    requires d + j <= |data| && i <= j
    ensures data[d..][i..j] == data[d + i..d + j]
  {
  }

  lemma {:induction false} U32sRoundTrip(vs: seq<u32>)
    ensures U32s(U32sBytes(vs)) == vs
  {
    if vs != [] {
      var b := U32sBytes(vs);
      assert b[..4] == EncodeU32(vs[0]) && b[4..] == U32sBytes(vs[1..]);
      U32sRoundTrip(vs[1..]);
    }
  }

  lemma {:induction false} U32sBytesOf(data: seq<byte>)
    requires |data| % 4 == 0
    ensures U32sBytes(U32s(data)) == data
    decreases |data|
  {
    if |data| >= 4 {
      U32sBytesOf(data[4..]);
      var vs := U32s(data);
      assert vs[0] == Field(data, 0) && vs[1..] == U32s(data[4..]);
      assert data == data[..4] + data[4..];
    }
  }

  /** The three flag expressions of ani.py:47-49. */
  lemma AndOne(x: nat)
    ensures BitAnd(x, 1) == x % 2
  {
    if x > 0 {
      assert BitAnd(x / 2, 0) == 0;
    }
  }

  lemma AndTwo(x: nat)
    ensures BitAnd(x, 2) == 2 * (x / 2 % 2)
  {
    if x > 0 {
      AndOne(x / 2);
    }
  }

  lemma AndClearLow(x: u32)
    ensures BitAnd(x, 0xFFFF_FFFC) == x - x % 4
  {
    var q := x / 4;
    AndEven(x, 0x7FFF_FFFE);
    AndEven(x / 2, 0x3FFF_FFFF);
    assert x / 2 / 2 == q;
    Pow2Thirty();
    AndLowMask(q, 30);
    LowBitsBound(q, 30);
    assert BitAnd(q, 0x3FFF_FFFF) == q;
  }

  /** An even mask drops the low bit. */
  lemma AndEven(x: nat, m: nat)
    ensures BitAnd(x, 2 * m) == 2 * BitAnd(x / 2, m)
  {
  }

  lemma FlagBits(x: u32)
    ensures BitAnd(x, 1) == x % 2
    ensures BitAnd(x, 2) == 2 * (x / 2 % 2)
    ensures BitAnd(x, 0xFFFF_FFFC) == x - x % 4
  {
    AndOne(x);
    AndTwo(x);
    AndClearLow(x);
  }

  lemma Pow2Thirty()
    ensures Pow2(30) == 0x4000_0000
  {
    Pow256IsPow2(4);
    assert Pow256(4) == 0x1_0000_0000 by {
      assert Pow256(1) == 0x100 && Pow256(2) == 0x1_0000 && Pow256(3) == 0x100_0000;
    }
    assert Pow2(32) == 4 * Pow2(30) by {
      assert Pow2(32) == 2 * Pow2(31);
    }
  }

  /** `_parse_anih(data)` (ani.py:43-53): 36 bytes of nine little-endian
      32-bit fields, the first of which, the size, must be 36. */
  function ParseAnih(data: seq<byte>): (r: Option<AniHeader>)
    ensures r.Some? <==> |data| == 36 && U32(data[..4]) == 36
  {
    if |data| != 36 then None
    else
      var f := U32s(data);
      if f[0] != 36 then None else Some(FromFields(f))
  }

  /** The dictionary built from the nine fields (ani.py:47-53): bit 0 of
      the flags chooses `CUR` over `RAW`, bit 1 announces a `seq ` chunk and
      the other bits are kept as they are. */
  function FromFields(f: seq<u32>): AniHeader
    requires |f| == 9
  {
    AniHeader(f[1], f[2], f[3], f[4], f[5], f[6], f[7],
      if BitAnd(f[8], 1) == 0 then Raw else Cur,
      BitAnd(f[8], 2) != 0,
      BitAnd(f[8], 0xFFFF_FFFC))
  }

  /** What the parsed flags mean in terms of the flags word. */
  lemma AnihFlags(data: seq<byte>)
    requires ParseAnih(data).Some?
    ensures var h := ParseAnih(data).value;
      var flags := U32(data[32..36]);
      (h.format == Raw <==> flags % 2 == 0) &&
      (h.seqPresent <==> flags / 2 % 2 == 1) &&
      h.remainingFlags == flags - flags % 4
  {
    U32sAt(data, 8);
    FlagBits(U32(data[32..36]));
  }

  /** A header that a flags word can hold: the remaining flags leave the two
      low bits clear and fit in 32 bits. */
  predicate AnihOk(h: AniHeader)
  {
    h.remainingFlags % 4 == 0 && h.remainingFlags < 0x1_0000_0000
  }

  function Flags(h: AniHeader): (f: u32)
    requires AnihOk(h)
  {
    h.remainingFlags + (if h.seqPresent then 2 else 0) + (if h.format == Cur then 1 else 0)
  }

  /** The nine fields of an `anih` chunk holding h, its size first. */
  function ToFields(h: AniHeader): (f: seq<u32>)
    requires AnihOk(h)
    ensures |f| == 9
  {
    [36, h.frameCount, h.stepCount, h.width, h.height, h.bitsPerPixel, h.colorPlanes, h.defaultRate, Flags(h)]
  }

  /** The 36 bytes of an `anih` chunk holding h. */
  function AnihBytes(h: AniHeader): (r: seq<byte>)
    requires AnihOk(h)
    ensures |r| == 36
  {
    U32sBytes(ToFields(h))
  }

  lemma SplitFlags(q: nat, b: nat, c: nat)
    requires b < 2 && c < 2
    ensures (4 * q + 2 * b + c) % 2 == c
    ensures (4 * q + 2 * b + c) / 2 % 2 == b
    ensures (4 * q + 2 * b + c) % 4 == 2 * b + c
  {
    var x := 4 * q + 2 * b + c;
    assert x == 2 * (2 * q + b) + c;
    assert x / 2 == 2 * q + b;
  }

  lemma FromToFields(h: AniHeader)
    requires AnihOk(h)
    ensures FromFields(ToFields(h)) == h
  {
    var x := Flags(h);
    FlagBits(x);
    SplitFlags(h.remainingFlags / 4, if h.seqPresent then 1 else 0, if h.format == Cur then 1 else 0);
  }

  lemma ToFromFields(f: seq<u32>)
    requires |f| == 9 && f[0] == 36
    ensures AnihOk(FromFields(f)) && ToFields(FromFields(f)) == f
  {
    var x := f[8];
    FlagBits(x);
    SplitFlags(x / 4, x / 2 % 2, x % 2);
    DivFour(x);
  }

  lemma DivFour(x: nat)
    ensures x == 4 * (x / 4) + 2 * (x / 2 % 2) + x % 2
  {
    var q := x / 2;
    assert x == 2 * q + x % 2;
    assert q == 2 * (q / 2) + q % 2;
    assert x / 4 == q / 2;
  }

  lemma AnihRoundTrip(h: AniHeader)
    requires AnihOk(h)
    ensures ParseAnih(AnihBytes(h)) == Some(h)
  {
    U32sRoundTrip(ToFields(h));
    FromToFields(h);
  }

  lemma AnihBytesOfParse(data: seq<byte>)
    requires ParseAnih(data).Some?
    ensures AnihOk(ParseAnih(data).value) && AnihBytes(ParseAnih(data).value) == data
  {
    ToFromFields(U32s(data));
    U32sBytesOf(data);
  }

  // ---------------------------------------------------------------------
  // The rate and seq words

  /** The list the `rate` and `seq ` loops build (ani.py:79-81, 84-86): one
      value per step of 4 in `range(0, size)`, each `int.from_bytes` of a
      4-byte slice of data, which is shorter, or empty, past its end. */
  function Words(data: seq<byte>, size: nat): seq<nat>
  {
    seq((size + 3) / 4, k requires 0 <= k => Word(data, k))
  }

  /** `int.from_bytes(data[4 * k:4 * k + 4], 'little')`. */
  function Word(data: seq<byte>, k: nat): nat
  {
    LeValue(Slice(data, 4 * k, 4 * k + 4))
  }

  lemma {:induction false} U32sBytesAt(vs: seq<u32>, k: nat)
    requires k < |vs|
    ensures U32sBytes(vs)[4 * k..4 * k + 4] == EncodeU32(vs[k])
    decreases k
  {
    var b := U32sBytes(vs);
    assert b == EncodeU32(vs[0]) + U32sBytes(vs[1..]);
    if k > 0 {
      U32sBytesAt(vs[1..], k - 1);
      assert b[4 * k..4 * k + 4] == U32sBytes(vs[1..])[4 * (k - 1)..4 * (k - 1) + 4];
    }
  }

  /** Words read back the 32-bit values they were packed from. */
  lemma WordsOfU32s(vs: seq<u32>)
    ensures Words(U32sBytes(vs), 4 * |vs|) == vs
  {
    var b := U32sBytes(vs);
    var w := Words(b, 4 * |vs|);
    assert |w| == |vs|;
    forall k | 0 <= k < |vs| ensures w[k] == vs[k] {
      WordAt(vs, k);
    }
  }

  lemma WordAt(vs: seq<u32>, k: nat)
    requires k < |vs|
    ensures Word(U32sBytes(vs), k) == vs[k]
  {
    U32sBytesAt(vs, k);
    var e := EncodeU32(vs[k]);
    assert Slice(U32sBytes(vs), 4 * k, 4 * k + 4) == e;
    assert U32(e) == vs[k];
  }

  /** The `for i in range(0, chunk.ckSize, 4)` loop of ani.py:80-81 and 85-86. */
  method ReadWords(data: seq<byte>, size: nat) returns (ws: seq<nat>)
    ensures ws == Words(data, size)
  {
    ws := [];
    var i := 0;
    while i < size
      invariant i == 4 * |ws| && (i == 0 || i - 4 < size)
      invariant forall k :: 0 <= k < |ws| ==> ws[k] == Word(data, k)
    {
      ws := ws + [LeValue(Slice(data, i, i + 4))];
      i := i + 4;
    }
    assert |ws| == (size + 3) / 4;
  }

  // ---------------------------------------------------------------------
  // The chunk scan of `Ani.frames`

  /** The ICO decoder the frames are read with (`Ico.from_bytes`); the
      scan below takes it as a parameter. */
  type Decoder = seq<byte> -> Option<Ico>

  /** `chunk.ckData`: a list node has no such attribute, so reading it fails. */
  function Data(n: Node): Option<seq<byte>>
  {
    if n.Chunk? then Some(n.ckData) else None
  }

  /** A `fram` child that the decoder reads. */
  predicate FrameOk(n: Node, decode: Decoder)
  {
    Data(n).Some? && decode(Data(n).value).Some?
  }

  function FrameOf(n: Node, decode: Decoder): Ico
    requires FrameOk(n, decode)
  {
    decode(Data(n).value).value
  }

  /** ani.py:76-77: the images of a `fram` list appended to acc, each with
      the delay current at that point. */
  function AddFrames(acc: seq<(Ico, nat)>, children: seq<Node>, delay: nat, decode: Decoder): Option<seq<(Ico, nat)>>
    decreases |children|
  {
    if children == [] then Some(acc)
    else
      match Data(children[0])
      case None => None
      case Some(d) =>
        match decode(d)
        case None => None
        case Some(ico) => AddFrames(acc + [(ico, delay)], children[1..], delay, decode)
  }

  /** The raw frames a `fram` list whose children all decode adds. */
  function NewFrames(children: seq<Node>, delay: nat, decode: Decoder): (r: seq<(Ico, nat)>)
    requires forall i :: 0 <= i < |children| ==> FrameOk(children[i], decode)
    ensures |r| == |children|
  {
    if children == [] then []
    else
      assert forall i :: 0 <= i < |children[1..]| ==> children[1..][i] == children[i + 1];
      [(FrameOf(children[0], decode), delay)] + NewFrames(children[1..], delay, decode)
  }

  /** Each child's image, with the delay, in the child's place. */
  lemma {:induction false} NewFramesAt(children: seq<Node>, delay: nat, i: nat, decode: Decoder)
    requires forall i :: 0 <= i < |children| ==> FrameOk(children[i], decode)
    requires i < |children|
    ensures NewFrames(children, delay, decode)[i] == (FrameOf(children[i], decode), delay)
    decreases i
  {
    if i > 0 {
      var tail := children[1..];
      assert forall j :: 0 <= j < |tail| ==> tail[j] == children[j + 1];
      NewFramesAt(tail, delay, i - 1, decode);
    }
  }

  /** The list is read exactly when every child decodes, and then adds each
      child's image, in order, with the delay. */
  lemma {:induction false} AddFramesSpec(acc: seq<(Ico, nat)>, children: seq<Node>, delay: nat, decode: Decoder)
    ensures AddFrames(acc, children, delay, decode).Some? <==> forall i :: 0 <= i < |children| ==> FrameOk(children[i], decode)
    ensures AddFrames(acc, children, delay, decode).Some? ==>
      AddFrames(acc, children, delay, decode).value == acc + NewFrames(children, delay, decode)
    decreases |children|
  {
    if children != [] {
      var tail := children[1..];
      AddFramesOk(children, decode);
      if FrameOk(children[0], decode) {
        AddFramesSpec(acc + [(FrameOf(children[0], decode), delay)], tail, delay, decode);
      }
    }
  }

  lemma AddFramesOk(children: seq<Node>, decode: Decoder)
    requires children != []
    ensures (forall i :: 0 <= i < |children| ==> FrameOk(children[i], decode)) <==>
      FrameOk(children[0], decode) && forall i :: 0 <= i < |children[1..]| ==> FrameOk(children[1..][i], decode)
  {
    if FrameOk(children[0], decode) && forall i :: 0 <= i < |children[1..]| ==> FrameOk(children[1..][i], decode) {
      forall i | 0 < i < |children| ensures FrameOk(children[i], decode) {
        assert children[i] == children[1..][i - 1];
      }
    }
  }

  /** The variables of the chunk loop of ani.py:64-86. */
  datatype Scan = Scan(raw: seq<(Ico, nat)>, defaultRate: nat, expectingSeq: bool,
                       seqs: Option<seq<nat>>, rate: Option<seq<nat>>)

  const Start: Scan := Scan([], DefaultDelay, false, None, None)

  /** One turn of the chunk loop (ani.py:70-86). Any other tag is skipped. */
  function Step(s: Scan, n: Node, decode: Decoder): Option<Scan>
  {
    if n.ckID == AnihTag then
      match Data(n)
      case None => None
      case Some(d) =>
        match ParseAnih(d)
        case None => None
        case Some(h) => Some(s.(defaultRate := h.defaultRate, expectingSeq := h.seqPresent))
    else if n.ckID == ListTag && n.Chunk? then
      None
    else if n.ckID == ListTag && n.identifier == FramTag then
      match AddFrames(s.raw, n.subChunks, s.defaultRate, decode)
      case None => None
      case Some(raw) => Some(s.(raw := raw))
    else if n.ckID == RateTag then
      match Data(n)
      case None => None
      case Some(d) => Some(s.(rate := Some(Words(d, n.ckSize))))
    else if n.ckID == SeqTag then
      if !s.expectingSeq then None
      else
        match Data(n)
        case None => None
        case Some(d) => Some(s.(seqs := Some(Words(d, n.ckSize))))
    else Some(s)
  }

  function ScanAll(s: Scan, chunks: seq<Node>, decode: Decoder): Option<Scan>
    decreases |chunks|
  {
    if chunks == [] then Some(s)
    else
      match Step(s, chunks[0], decode)
      case None => None
      case Some(t) => ScanAll(t, chunks[1..], decode)
  }

  /** Scanning a + b is scanning a, then b. */
  lemma {:induction false} ScanAppend(s: Scan, a: seq<Node>, b: seq<Node>, decode: Decoder)
    ensures ScanAll(s, a + b, decode) == match ScanAll(s, a, decode) case None => None case Some(t) => ScanAll(t, b, decode)
    decreases |a|
  {
    if a == [] {
      assert a + b == b;
    } else {
      assert (a + b)[0] == a[0] && (a + b)[1..] == a[1..] + b;
      if Step(s, a[0], decode).Some? {
        ScanAppend(Step(s, a[0], decode).value, a[1..], b, decode);
      }
    }
  }

  lemma ScanOne(s: Scan, n: Node, decode: Decoder)
    ensures ScanAll(s, [n], decode) == Step(s, n, decode)
  {
    assert [n][1..] == [];
  }

  /** An `anih` chunk whose data parses. */
  predicate AnihChunk(n: Node)
  {
    n.ckID == AnihTag && Data(n).Some? && ParseAnih(Data(n).value).Some?
  }

  /** The delay and the seq flag of the last `anih` that parses. */
  function LastAnih(chunks: seq<Node>): Option<AniHeader>
  {
    if chunks == [] then None
    else
      var n := chunks[|chunks| - 1];
      if AnihChunk(n) then ParseAnih(Data(n).value)
      else LastAnih(chunks[..|chunks| - 1])
  }

  /** The words of the last chunk with the given tag that has data. */
  function LastWords(chunks: seq<Node>, tag: seq<byte>): Option<seq<nat>>
  {
    if chunks == [] then None
    else
      var n := chunks[|chunks| - 1];
      if n.ckID == tag && Data(n).Some? then Some(Words(Data(n).value, n.ckSize))
      else LastWords(chunks[..|chunks| - 1], tag)
  }

  function RateOf(h: Option<AniHeader>): nat
  {
    if h.Some? then h.value.defaultRate else DefaultDelay
  }

  function ExpectOf(h: Option<AniHeader>): bool
  {
    h.Some? && h.value.seqPresent
  }

  /** Where the scan state comes from: the delay and the seq flag from the
      last `anih` (DEFAULT_DELAY and no flag before one), and `rate` and
      `seq ` from the last chunk of that tag. */
  predicate Summarises(t: Scan, chunks: seq<Node>)
  {
    t.defaultRate == RateOf(LastAnih(chunks)) && t.expectingSeq == ExpectOf(LastAnih(chunks)) &&
    t.rate == LastWords(chunks, RateTag) && t.seqs == LastWords(chunks, SeqTag)
  }

  lemma {:induction false} ScanFields(chunks: seq<Node>, decode: Decoder)
    requires ScanAll(Start, chunks, decode).Some?
    ensures Summarises(ScanAll(Start, chunks, decode).value, chunks)
    decreases |chunks|
  {
    if chunks != [] {
      var m := |chunks| - 1;
      var pre := chunks[..m];
      var n := chunks[m];
      assert chunks == pre + [n];
      ScanAppend(Start, pre, [n], decode);
      ScanFields(pre, decode);
      var t := ScanAll(Start, pre, decode).value;
      ScanOne(t, n, decode);
      StepFields(t, pre, n, decode);
    }
  }

  /** One chunk keeps the scan state summarising the chunks read. */
  lemma StepFields(t: Scan, pre: seq<Node>, n: Node, decode: Decoder)
    requires Summarises(t, pre) && Step(t, n, decode).Some?
    ensures Summarises(Step(t, n, decode).value, pre + [n])
  {
    LastAnihSnoc(pre, n);
    LastWordsSnoc(pre, n, RateTag);
    LastWordsSnoc(pre, n, SeqTag);
    TagsDistinct();
  }

  lemma TagsDistinct()
    ensures AnihTag != ListTag && AnihTag != RateTag && AnihTag != SeqTag
    ensures ListTag != RateTag && ListTag != SeqTag && RateTag != SeqTag
  {
    assert AnihTag[0] != ListTag[0] && AnihTag[0] != RateTag[0] && AnihTag[0] != SeqTag[0];
    assert ListTag[0] != RateTag[0] && ListTag[0] != SeqTag[0] && RateTag[0] != SeqTag[0];
  }

  lemma LastAnihSnoc(pre: seq<Node>, n: Node)
    ensures LastAnih(pre + [n]) == if AnihChunk(n) then ParseAnih(Data(n).value) else LastAnih(pre)
  {
    var c := pre + [n];
    assert c[|c| - 1] == n && c[..|c| - 1] == pre;
  }

  lemma LastWordsSnoc(pre: seq<Node>, n: Node, tag: seq<byte>)
    ensures LastWords(pre + [n], tag) == if n.ckID == tag && Data(n).Some? then Some(Words(Data(n).value, n.ckSize)) else LastWords(pre, tag)
  {
    var c := pre + [n];
    assert c[|c| - 1] == n && c[..|c| - 1] == pre;
  }

  /** The scan only appends raw frames. */
  lemma {:induction false} ScanGrows(s: Scan, chunks: seq<Node>, decode: Decoder)
    requires ScanAll(s, chunks, decode).Some?
    ensures var t := ScanAll(s, chunks, decode).value; |s.raw| <= |t.raw| && t.raw[..|s.raw|] == s.raw
    decreases |chunks|
  {
    if chunks != [] {
      StepGrows(s, chunks[0], decode);
      ScanGrows(Step(s, chunks[0], decode).value, chunks[1..], decode);
    }
  }

  lemma StepGrows(s: Scan, n: Node, decode: Decoder)
    requires Step(s, n, decode).Some?
    ensures var t := Step(s, n, decode).value; |s.raw| <= |t.raw| && t.raw[..|s.raw|] == s.raw
  {
    if n.ckID != AnihTag && n.ckID == ListTag && n.Riff? && n.identifier == FramTag {
      AddFramesSpec(s.raw, n.subChunks, s.defaultRate, decode);
    }
  }

  lemma ScanPrefix(s: Scan, a: seq<Node>, b: seq<Node>, decode: Decoder)
    requires ScanAll(s, a + b, decode).Some?
    ensures ScanAll(s, a, decode).Some?
  {
    ScanAppend(s, a, b, decode);
  }

  /** ani.py:74-77 with ani.py:70-72: the images of a `fram` list become
      raw frames in order, each with the default rate of the last `anih`
      before the list, or DEFAULT_DELAY. */
  lemma FramDelay(pre: seq<Node>, n: Node, post: seq<Node>, decode: Decoder)
    requires n.ckID == ListTag && n.Riff? && n.identifier == FramTag
    requires ScanAll(Start, pre + [n] + post, decode).Some?
    ensures ScanAll(Start, pre, decode).Some?
    ensures var raw := ScanAll(Start, pre + [n] + post, decode).value.raw;
      var base := |ScanAll(Start, pre, decode).value.raw|;
      (forall i :: 0 <= i < |n.subChunks| ==> FrameOk(n.subChunks[i], decode)) &&
      base + |n.subChunks| <= |raw| &&
      raw[base..base + |n.subChunks|] == NewFrames(n.subChunks, RateOf(LastAnih(pre)), decode)
  {
    ScanSplit(Start, pre, n, post, decode);
    var t := ScanAll(Start, pre, decode).value;
    ScanFields(pre, decode);
    FramThenRest(t, n, post, decode);
  }

  /** The images of a `fram` list read in state t stay where they were put. */
  lemma FramThenRest(t: Scan, n: Node, post: seq<Node>, decode: Decoder)
    requires n.ckID == ListTag && n.Riff? && n.identifier == FramTag
    requires Step(t, n, decode).Some? && ScanAll(Step(t, n, decode).value, post, decode).Some?
    ensures var raw := ScanAll(Step(t, n, decode).value, post, decode).value.raw;
      (forall i :: 0 <= i < |n.subChunks| ==> FrameOk(n.subChunks[i], decode)) &&
      |t.raw| + |n.subChunks| <= |raw| &&
      raw[|t.raw|..|t.raw| + |n.subChunks|] == NewFrames(n.subChunks, t.defaultRate, decode)
  {
    FramStep(t, n, decode);
    var u := Step(t, n, decode).value;
    ScanGrows(u, post, decode);
    var raw := ScanAll(u, post, decode).value.raw;
    assert raw[..|u.raw|] == u.raw;
    assert raw[|t.raw|..|t.raw| + |n.subChunks|] == u.raw[|t.raw|..];
  }

  /** Scanning pre, then n, then post. */
  lemma ScanSplit(s: Scan, pre: seq<Node>, n: Node, post: seq<Node>, decode: Decoder)
    ensures ScanAll(s, pre + [n] + post, decode) ==
      match ScanAll(s, pre, decode)
      case None => None
      case Some(t) => match Step(t, n, decode) case None => None case Some(t') => ScanAll(t', post, decode)
  {
    assert pre + [n] + post == pre + ([n] + post);
    ScanAppend(s, pre, [n] + post, decode);
    assert ([n] + post)[0] == n && ([n] + post)[1..] == post;
  }

  lemma FramStep(t: Scan, n: Node, decode: Decoder)
    requires n.ckID == ListTag && n.Riff? && n.identifier == FramTag
    requires Step(t, n, decode).Some?
    ensures forall i :: 0 <= i < |n.subChunks| ==> FrameOk(n.subChunks[i], decode)
    ensures Step(t, n, decode).value.raw == t.raw + NewFrames(n.subChunks, t.defaultRate, decode)
  {
    AddFramesSpec(t.raw, n.subChunks, t.defaultRate, decode);
  }

  /** ani.py:82-83: a `seq ` chunk fails unless the last `anih` before it
      has the seq flag. */
  lemma SeqUnexpected(pre: seq<Node>, n: Node, post: seq<Node>, decode: Decoder)
    requires n.ckID == SeqTag && !ExpectOf(LastAnih(pre))
    ensures ScanAll(Start, pre + [n] + post, decode) == None
  {
    ScanSplit(Start, pre, n, post, decode);
    if ScanAll(Start, pre, decode).Some? {
      ScanFields(pre, decode);
    }
  }

  // ---------------------------------------------------------------------
  // Arrangement and rates

  /** ani.py:88-95: the raw frame each output frame is. With `seq ` it is
      that list, which must be non-empty and in range; without, every raw
      frame in order, and then the seq flag must be clear. */
  function Order(s: Scan): (r: Option<seq<nat>>)
    ensures r.Some? ==> forall k :: 0 <= k < |r.value| ==> r.value[k] < |s.raw|
  {
    match s.seqs
    case Some(q) =>
      if q == [] || exists k :: 0 <= k < |q| && q[k] >= |s.raw| then None else Some(q)
    case None =>
      if s.expectingSeq then None else Some(seq(|s.raw|, i => i))
  }

  /** ani.py:96-98: `frames[index].post_delay = item` for each rate entry
      in turn, on the raw frame that output frame `index` is. */
  function ApplyRate(delays: seq<nat>, order: seq<nat>, rate: seq<nat>): (r: seq<nat>)
    requires |rate| <= |order| && forall k :: 0 <= k < |order| ==> order[k] < |delays|
    ensures |r| == |delays|
    decreases |rate|
  {
    if rate == [] then delays
    else
      var n := |rate| - 1;
      ApplyRate(delays, order, rate[..n])[order[n] := rate[n]]
  }

  /** A raw frame no output frame with a rate entry is keeps its delay. */
  lemma {:induction false} RateUntouched(delays: seq<nat>, order: seq<nat>, rate: seq<nat>, i: nat)
    requires |rate| <= |order| && forall k :: 0 <= k < |order| ==> order[k] < |delays|
    requires i < |delays| && forall k :: 0 <= k < |rate| ==> order[k] != i
    ensures ApplyRate(delays, order, rate)[i] == delays[i]
    decreases |rate|
  {
    if rate != [] {
      RateUntouched(delays, order, rate[..|rate| - 1], i);
    }
  }

  /** The last write wins: a raw frame ends with the rate entry of the last
      output frame that is it. */
  lemma {:induction false} RateLastWrite(delays: seq<nat>, order: seq<nat>, rate: seq<nat>, i: nat, k: nat)
    requires |rate| <= |order| && forall k :: 0 <= k < |order| ==> order[k] < |delays|
    requires k < |rate| && order[k] == i && forall l :: k < l < |rate| ==> order[l] != i
    ensures ApplyRate(delays, order, rate)[i] == rate[k]
    decreases |rate|
  {
    var n := |rate| - 1;
    if k < n {
      var pre := rate[..n];
      assert order[n] != i;
      RateLastWrite(delays, order, pre, i, k);
      assert pre[k] == rate[k];
    }
  }

  /** The frames `Ani.frames` returns: raw images, the raw frame each output
      frame is, and the final delay of each raw frame. */
  datatype Plan = Plan(icos: seq<Ico>, order: seq<nat>, delays: seq<nat>)

  function Icos(raw: seq<(Ico, nat)>): (r: seq<Ico>)
    ensures |r| == |raw|
  {
    seq(|raw|, i requires 0 <= i < |raw| => raw[i].0)
  }

  function Delays(raw: seq<(Ico, nat)>): (r: seq<nat>)
    ensures |r| == |raw|
  {
    seq(|raw|, i requires 0 <= i < |raw| => raw[i].1)
  }

  function Arranged(s: Scan): (r: Option<Plan>)
    ensures r.Some? ==> (|r.value.icos| == |r.value.delays| &&
      forall k :: 0 <= k < |r.value.order| ==> r.value.order[k] < |r.value.icos|)
  {
    match Order(s)
    case None => None
    case Some(order) =>
      var rate := if s.rate.Some? then s.rate.value else [];
      if |rate| > |order| then None
      else Some(Plan(Icos(s.raw), order, ApplyRate(Delays(s.raw), order, rate)))
  }

  /** ani.py:89-95: a seq flag with no `seq ` chunk fails. */
  lemma SeqMissing(chunks: seq<Node>, decode: Decoder)
    requires ScanAll(Start, chunks, decode).Some?
    requires ExpectOf(LastAnih(chunks)) && LastWords(chunks, SeqTag).None?
    ensures Arranged(ScanAll(Start, chunks, decode).value).None?
  {
    ScanFields(chunks, decode);
  }

  /** With `seq `, the output follows it; without, the raw frames in order. */
  lemma ArrangedOrder(chunks: seq<Node>, decode: Decoder)
    requires ScanAll(Start, chunks, decode).Some? && Arranged(ScanAll(Start, chunks, decode).value).Some?
    ensures var s := ScanAll(Start, chunks, decode).value;
      Arranged(s).value.order == if LastWords(chunks, SeqTag).Some? then LastWords(chunks, SeqTag).value
        else seq(|s.raw|, i => i)
    ensures LastWords(chunks, SeqTag).Some? ==> LastWords(chunks, SeqTag).value != []
    ensures LastWords(chunks, RateTag).Some? ==> |LastWords(chunks, RateTag).value| <= |Arranged(ScanAll(Start, chunks, decode).value).value.order|
  {
    ScanFields(chunks, decode);
  }

  // ---------------------------------------------------------------------
  // The Ani object

  /** ani.py:12-20. */
  class AniFrame {
    const ico: Ico
    var postDelay: nat

    constructor (ico: Ico, postDelay: nat)
      ensures this.ico == ico && this.postDelay == postDelay
    {
      this.ico := ico;
      this.postDelay := postDelay;
    }
  }

  /** An `Ani` holds the parsed RIFF list (ani.py:24). */
  datatype Ani = Ani(riff: Node)

  /** `Ani(contents)` (ani.py:23-26): the RIFF list must have form type `ACON`. */
  function AniFromBytes(contents: seq<byte>): (r: Option<Ani>)
    ensures r.Some? <==> ParseRiff(contents).Some? && ParseRiff(contents).value.identifier == AconTag
    ensures r.Some? ==> r.value.riff == ParseRiff(contents).value
  {
    match ParseRiff(contents)
    case None => None
    case Some(n) => if n.identifier == AconTag then Some(Ani(n)) else None
  }

  lemma AniRoundTrip(n: Node)
    requires WellFormedFile(n) && n.identifier == AconTag
    ensures AniFromBytes(NodeBytes(n)) == Some(Ani(n))
  {
    FileRoundTrip(n);
  }

  /** `ani_header` (ani.py:55-60): the first `anih` chunk parsed, or None
      for `{}`; Fail where the parse fails. */
  function FirstAnih(chunks: seq<Node>): Result<Option<AniHeader>>
  {
    if chunks == [] then Ok(None)
    else if chunks[0].ckID == AnihTag then
      match Data(chunks[0])
      case None => Fail
      case Some(d) =>
        match ParseAnih(d)
        case None => Fail
        case Some(h) => Ok(Some(h))
    else FirstAnih(chunks[1..])
  }

  function AniHeaderOf(ani: Ani): Result<Option<AniHeader>>
    requires ani.riff.Riff?
  {
    FirstAnih(ani.riff.subChunks)
  }

  /** `ani_header` reads the first `anih` chunk and no other. */
  lemma {:induction false} FirstAnihAt(chunks: seq<Node>, k: nat)
    requires k < |chunks| && chunks[k].ckID == AnihTag
    requires forall j :: 0 <= j < k ==> chunks[j].ckID != AnihTag
    ensures FirstAnih(chunks) == match Data(chunks[k])
      case None => Fail
      case Some(d) => if ParseAnih(d).Some? then Ok(ParseAnih(d)) else Fail
    decreases k
  {
    if k > 0 {
      FirstAnihAt(chunks[1..], k - 1);
    }
  }

  lemma {:induction false} NoAnih(chunks: seq<Node>)
    requires forall j :: 0 <= j < |chunks| ==> chunks[j].ckID != AnihTag
    ensures FirstAnih(chunks) == Ok(None)
  {
    if chunks != [] {
      NoAnih(chunks[1..]);
    }
  }

  // ---------------------------------------------------------------------
  // The `frames` property on objects

  /** The frame objects hold the raw images and delays, in order. */
  predicate Mirrors(frames: seq<AniFrame>, raw: seq<(Ico, nat)>)
    reads frames
  {
    |frames| == |raw| && forall k :: 0 <= k < |frames| ==> frames[k].ico == raw[k].0 && frames[k].postDelay == raw[k].1
  }

  /** Each raw frame is its own object. */
  predicate FramesDistinct(frames: seq<AniFrame>)
  {
    forall k, l :: 0 <= k < l < |frames| ==> frames[k] != frames[l]
  }

  /** The local variables of the chunk loop of ani.py:64-86. */
  datatype Loaded = Loaded(frames: seq<AniFrame>, defaultRate: nat, expectingSeq: bool,
                           seqs: Option<seq<nat>>, rate: Option<seq<nat>>)

  /** The loop variables hold the scan state s. */
  predicate Shows(l: Loaded, s: Scan)
    reads l.frames
  {
    Mirrors(l.frames, s.raw) && FramesDistinct(l.frames) && l.defaultRate == s.defaultRate &&
    l.expectingSeq == s.expectingSeq && l.seqs == s.seqs && l.rate == s.rate
  }

  /** ani.py:76-77: one new frame object per child of a `fram` list. */
  method AddFrameObjects(frames: seq<AniFrame>, children: seq<Node>, delay: nat, ghost acc: seq<(Ico, nat)>)
    returns (r: Option<seq<AniFrame>>)
    requires Mirrors(frames, acc) && FramesDistinct(frames)
    ensures r.Some? <==> AddFrames(acc, children, delay, IcoFromBytes).Some?
    ensures r.Some? ==> (Mirrors(r.value, AddFrames(acc, children, delay, IcoFromBytes).value) &&
      FramesDistinct(r.value) && |frames| <= |r.value| && (forall k :: 0 <= k < |frames| ==> r.value[k] == frames[k]) &&
      forall k :: |frames| <= k < |r.value| ==> fresh(r.value[k]))
  {
    var fs := frames;
    ghost var a := acc;
    var j := 0;
    while j < |children|
      invariant j <= |children| && Mirrors(fs, a) && FramesDistinct(fs)
      invariant AddFrames(acc, children, delay, IcoFromBytes) == AddFrames(a, children[j..], delay, IcoFromBytes)
      invariant |frames| <= |fs| && forall k :: 0 <= k < |frames| ==> fs[k] == frames[k]
      invariant forall k :: |frames| <= k < |fs| ==> fresh(fs[k])
    {
      var n := children[j];
      AddFramesNext(a, children, j, delay, IcoFromBytes);
      if !n.Chunk? {
        return None;
      }
      var ico := FromBytes(n.ckData);
      if ico.None? {
        return None;
      }
      var f := new AniFrame(ico.value, delay);
      MirrorsSnoc(fs, a, f, (ico.value, delay));
      DistinctSnoc(fs, f);
      fs := fs + [f];
      a := a + [(ico.value, delay)];
      j := j + 1;
    }
    assert children[j..] == [];
    r := Some(fs);
  }

  lemma AddFramesNext(a: seq<(Ico, nat)>, children: seq<Node>, j: nat, delay: nat, decode: Decoder)
    requires j < |children|
    ensures AddFrames(a, children[j..], delay, decode) ==
      match Data(children[j])
      case None => None
      case Some(d) =>
        match decode(d)
        case None => None
        case Some(ico) => AddFrames(a + [(ico, delay)], children[j + 1..], delay, decode)
  {
    assert children[j..][0] == children[j] && children[j..][1..] == children[j + 1..];
  }

  lemma MirrorsSnoc(fs: seq<AniFrame>, a: seq<(Ico, nat)>, f: AniFrame, x: (Ico, nat))
    requires Mirrors(fs, a) && f.ico == x.0 && f.postDelay == x.1
    ensures Mirrors(fs + [f], a + [x])
  {
  }

  lemma DistinctSnoc(fs: seq<AniFrame>, f: AniFrame)
    requires FramesDistinct(fs) && forall k :: 0 <= k < |fs| ==> fs[k] != f
    ensures FramesDistinct(fs + [f])
  {
  }

  /** One turn of the chunk loop of ani.py:64-86 on the loop variables. */
  method StepChunk(l: Loaded, n: Node, ghost s: Scan) returns (r: Option<Loaded>)
    requires Shows(l, s)
    ensures r.Some? <==> Step(s, n, IcoFromBytes).Some?
    ensures r.Some? ==> (Shows(r.value, Step(s, n, IcoFromBytes).value) &&
      |l.frames| <= |r.value.frames| && (forall k :: 0 <= k < |l.frames| ==> r.value.frames[k] == l.frames[k]) &&
      forall k :: |l.frames| <= k < |r.value.frames| ==> fresh(r.value.frames[k]))
  {
    if n.ckID == AnihTag {
      if !n.Chunk? {
        return None;
      }
      var h := ParseAnih(n.ckData);
      if h.None? {
        return None;
      }
      return Some(l.(defaultRate := h.value.defaultRate, expectingSeq := h.value.seqPresent));
    } else if n.ckID == ListTag && n.Chunk? {
      return None;
    } else if n.ckID == ListTag && n.identifier == FramTag {
      var fs := AddFrameObjects(l.frames, n.subChunks, l.defaultRate, s.raw);
      if fs.None? {
        return None;
      }
      return Some(l.(frames := fs.value));
    } else if n.ckID == RateTag {
      if !n.Chunk? {
        return None;
      }
      var ws := ReadWords(n.ckData, n.ckSize);
      return Some(l.(rate := Some(ws)));
    } else if n.ckID == SeqTag {
      if !l.expectingSeq || !n.Chunk? {
        return None;
      }
      var ws := ReadWords(n.ckData, n.ckSize);
      return Some(l.(seqs := Some(ws)));
    }
    return Some(l);
  }

  /** The chunk loop of ani.py:64-86. */
  method ScanChunks(chunks: seq<Node>) returns (r: Option<Loaded>)
    ensures r.Some? <==> ScanAll(Start, chunks, IcoFromBytes).Some?
    ensures r.Some? ==> (Shows(r.value, ScanAll(Start, chunks, IcoFromBytes).value) &&
      forall k :: 0 <= k < |r.value.frames| ==> fresh(r.value.frames[k]))
  {
    var l := Loaded([], DefaultDelay, false, None, None);
    ghost var s := Start;
    var i := 0;
    while i < |chunks|
      invariant i <= |chunks| && Shows(l, s)
      invariant ScanAll(Start, chunks, IcoFromBytes) == ScanAll(s, chunks[i..], IcoFromBytes)
      invariant forall k :: 0 <= k < |l.frames| ==> fresh(l.frames[k])
    {
      assert chunks[i..][0] == chunks[i] && chunks[i..][1..] == chunks[i + 1..];
      var next := StepChunk(l, chunks[i], s);
      if next.None? {
        return None;
      }
      s := Step(s, chunks[i], IcoFromBytes).value;
      l := next.value;
      i := i + 1;
    }
    assert chunks[i..] == [];
    r := Some(l);
  }

  /** What `Ani.frames` computes: the scan of the RIFF list's chunks with
      `Ico.from_bytes` as the decoder, then the arrangement. */
  function FramesPlan(ani: Ani): Option<Plan>
    requires ani.riff.Riff?
  {
    match ScanAll(Start, ani.riff.subChunks, IcoFromBytes)
    case None => None
    case Some(s) => Arranged(s)
  }

  /** The frame objects show the plan: output frame k is raw frame
      `order[k]`, with its image and final delay. */
  predicate Presents(frames: seq<AniFrame>, p: Plan)
    reads frames
  {
    |frames| == |p.order| &&
    forall k :: 0 <= k < |frames| ==> (p.order[k] < |p.icos| && p.order[k] < |p.delays| &&
      frames[k].ico == p.icos[p.order[k]] && frames[k].postDelay == p.delays[p.order[k]])
  }

  lemma ApplyRateNext(delays: seq<nat>, order: seq<nat>, rate: seq<nat>, index: nat)
    requires index < |rate| && index < |order| && forall k :: 0 <= k < |order| ==> order[k] < |delays|
    ensures ApplyRate(delays, order, rate[..index + 1]) == ApplyRate(delays, order, rate[..index])[order[index] := rate[index]]
  {
    assert rate[..index + 1][..index] == rate[..index];
  }

  /** `Ani.frames` (ani.py:62-99). Output frames that the `seq ` list maps
      to the same raw frame are the same object, so a later rate entry
      overrides an earlier one. */
  method Frames(ani: Ani) returns (r: Option<seq<AniFrame>>)
    requires ani.riff.Riff?
    ensures r.Some? <==> FramesPlan(ani).Some?
    ensures r.Some? ==> Presents(r.value, FramesPlan(ani).value)
    ensures r.Some? ==> forall k, l :: 0 <= k < |r.value| && 0 <= l < |r.value| ==>
      (r.value[k] == r.value[l] <==> FramesPlan(ani).value.order[k] == FramesPlan(ani).value.order[l])
  {
    var loaded := ScanChunks(ani.riff.subChunks);
    if loaded.None? {
      return None;
    }
    var l := loaded.value;
    ghost var s := ScanAll(Start, ani.riff.subChunks, IcoFromBytes).value;
    var frames := Arrange(l, s);
    if frames.None? {
      return None;
    }
    if l.rate.Some? {
      var ok := SetRates(frames.value, l.frames, Order(s).value, l.rate.value, Delays(s.raw));
      if !ok {
        return None;
      }
    }
    r := frames;
  }

  /** ani.py:96-98: `frames[index].post_delay = item` for each rate entry;
      it fails once index runs past the output frames. */
  method SetRates(frames: seq<AniFrame>, objs: seq<AniFrame>, ghost order: seq<nat>, rate: seq<nat>, ghost delays: seq<nat>)
    returns (ok: bool)
    requires FramesDistinct(objs) && |delays| == |objs| && |frames| == |order|
    requires forall k :: 0 <= k < |order| ==> order[k] < |objs| && frames[k] == objs[order[k]]
    requires forall i :: 0 <= i < |objs| ==> objs[i].postDelay == delays[i]
    modifies objs
    ensures ok <==> |rate| <= |order|
    ensures ok ==> forall i :: 0 <= i < |objs| ==> objs[i].postDelay == ApplyRate(delays, order, rate)[i]
  {
    var index := 0;
    while index < |rate|
      invariant index <= |rate| && index <= |order|
      invariant forall i :: 0 <= i < |objs| ==> objs[i].postDelay == ApplyRate(delays, order, rate[..index])[i]
    {
      if index >= |frames| {
        return false;
      }
      ApplyRateNext(delays, order, rate, index);
      frames[index].postDelay := rate[index];
      index := index + 1;
    }
    assert rate[..index] == rate;
    return true;
  }

  /** ani.py:88-95: the output frames as raw frame objects, each as often as
      the `seq ` list names it. */
  method Arrange(l: Loaded, ghost s: Scan) returns (r: Option<seq<AniFrame>>)
    requires Shows(l, s)
    ensures r.Some? <==> Order(s).Some?
    ensures r.Some? ==> (|r.value| == |Order(s).value| &&
      forall k :: 0 <= k < |r.value| ==> r.value[k] == l.frames[Order(s).value[k]])
  {
    if l.seqs.Some? {
      var q := l.seqs.value;
      if |q| == 0 {
        return None;
      }
      var frames := [];
      var j := 0;
      while j < |q|
        invariant j <= |q| && |frames| == j
        invariant forall k :: 0 <= k < j ==> q[k] < |l.frames| && frames[k] == l.frames[q[k]]
      {
        if q[j] >= |l.frames| {
          return None;
        }
        frames := frames + [l.frames[q[j]]];
        j := j + 1;
      }
      r := Some(frames);
    } else {
      if l.expectingSeq {
        return None;
      }
      r := Some(l.frames);
    }
  }
}
