/** The ICO container and its raster decoder: the 16-byte directory entry,
    the 6-byte file header, and the decoder of the first image (colour
    table, bottom-up pixel rows padded to 32 bits, and the 1-bit AND mask),
    which reads its pixel rows through a `Bitstream`. */
module Ico {
  import opened Wrappers
  import opened Bytes
  import opened Bits
  import opened Bitstreams
  import opened Bmp

  /** ICONDIRENTRY, the `<BBBBHHII` layout. */
  datatype IcoImageInfo = IcoImageInfo(
    width: byte, height: byte, colorsCount: byte, reserved: byte,
    colorPlanesHotspotX: u16, bitsPerPixelHotspotY: u16, dataSize: u32, dataOffset: u32)

  function InfoBytes(x: IcoImageInfo): (r: seq<byte>)
    ensures |r| == 16
  {
    [x.width, x.height, x.colorsCount, x.reserved]
    + EncodeU16(x.colorPlanesHotspotX) + EncodeU16(x.bitsPerPixelHotspotY)
    + EncodeU32(x.dataSize) + EncodeU32(x.dataOffset)
  }

  /** `IcoImageInfo.from_bytes`: the first 16 bytes; shorter input fails. */
  function InfoFromBytes(data: seq<byte>): (r: Option<IcoImageInfo>)
    ensures r.Some? <==> |data| >= 16
  {
    if |data| < 16 then None
    else Some(IcoImageInfo(data[0], data[1], data[2], data[3], U16(data[4..6]), U16(data[6..8]),
                           U32(data[8..12]), U32(data[12..16])))
  }

  lemma InfoRoundTrip(x: IcoImageInfo)
    ensures InfoFromBytes(InfoBytes(x)) == Some(x)
  {
    var s := InfoBytes(x);
    var a, b := EncodeU16(x.colorPlanesHotspotX), EncodeU16(x.bitsPerPixelHotspotY);
    var c, d := EncodeU32(x.dataSize), EncodeU32(x.dataOffset);
    assert s == [x.width, x.height, x.colorsCount, x.reserved] + a + b + c + d;
    assert s[4..6] == a && s[6..8] == b && s[8..12] == c && s[12..16] == d;
  }

  lemma InfoBytesOfDecode(data: seq<byte>)
    requires |data| >= 16
    ensures InfoBytes(InfoFromBytes(data).value) == data[..16]
  {
    assert data[..16] == data[..4] + data[4..6] + data[6..8] + data[8..12] + data[12..16];
  }

  /** One decoded image: its directory entry, its bitmap header, the colour
      table, the pixel values top row first, and the mask bits likewise. */
  datatype IcoImage = IcoImage(
    info: IcoImageInfo, bmpHeader: BitmapInfoHeader, colorMap: seq<Color>,
    imageData: seq<nat>, maskData: seq<nat>)

  datatype Ico = Ico(reserved: u16, imageType: u16, imageCount: u16, images: seq<IcoImage>)

  /** `bytes(ico)`: the three header fields only; the images are not written. */
  function IcoBytes(x: Ico): (r: seq<byte>)
    ensures |r| == 6
    ensures U16(r[0..2]) == x.reserved && U16(r[2..4]) == x.imageType && U16(r[4..6]) == x.imageCount
  {
    var r := EncodeU16(x.reserved) + EncodeU16(x.imageType) + EncodeU16(x.imageCount);
    assert r[0..2] == EncodeU16(x.reserved) && r[2..4] == EncodeU16(x.imageType);
    assert r[4..6] == EncodeU16(x.imageCount);
    r
  }

  // ---------------------------------------------------------------------
  // The reading cursor, as the decoder sees it

  /** The unread bits of a `Bitstream`, and whether it is a stream built on
      an empty buffer that has not been read yet: on that one `pop_bits(0)`
      still fails, because it indexes the empty buffer. */
  datatype Cursor = Cursor(bits: seq<bool>, stuck: bool)

  /** A fresh stream over src. */
  function Start(src: seq<byte>): (c: Cursor)
    ensures |c.bits| == 8 * |src|
  {
    Cursor(StreamBits(src), src == [])
  }

  /** `pop_bits(n)`: the next n bits as a big-endian number, or failure. */
  function Pop(c: Cursor, n: nat): (r: Option<(nat, Cursor)>)
    ensures r.Some? <==> !c.stuck && n <= |c.bits|
    ensures r.Some? ==> r.value.0 < Pow2(n) && r.value.1 == Cursor(c.bits[n..], false)
  {
    if c.stuck || n > |c.bits| then None
    else
      BeValueBound(c.bits[..n]);
      Some((BeValue(c.bits[..n]), Cursor(c.bits[n..], false)))
  }

  ghost function Abs(s: Bitstream): Cursor
    reads s
  {
    Cursor(s.Unread(), s.buffer == [] && s.remainder == 0)
  }

  predicate IsSuffix<T(==)>(a: seq<T>, b: seq<T>)
  {
    |a| <= |b| && a == b[|b| - |a|..]
  }

  lemma SuffixTrans<T>(a: seq<T>, b: seq<T>, c: seq<T>)
    requires IsSuffix(a, b) && IsSuffix(b, c)
    ensures IsSuffix(a, c)
  {
    assert c[|c| - |b|..][|b| - |a|..] == c[|c| - |a|..];
  }

  /** `pop_bits` on the stream, seen through the cursor. */
  method PopCode(s: Bitstream, n: nat) returns (r: Option<nat>)
    requires s.Valid()
    modifies s
    ensures s.Valid()
    ensures r.None? <==> Pop(old(Abs(s)), n).None?
    ensures r.Some? ==> Pop(old(Abs(s)), n) == Some((r.value, Abs(s)))
    ensures r.Some? ==> IsSuffix(s.buffer, old(s.buffer))
  {
    UnreadLength(s.buffer, s.remainder);
    var ok, v := s.PopBits(n);
    if ok {
      r := Some(v);
    } else {
      r := None;
    }
  }

  /** `remaining_buffer()`: the bytes not yet touched, a suffix of the
      stream's original buffer whose length is the whole bytes left unread. */
  lemma RemainingOfSuffix(s: Bitstream, src: seq<byte>)
    requires s.Valid() && IsSuffix(s.buffer, src)
    ensures |s.Unread()| / 8 <= |src|
    ensures s.RemainingBuffer() == src[|src| - |s.Unread()| / 8..]
  {
    UnreadLength(s.buffer, s.remainder);
    if s.buffer != [] {
      var t := |s.buffer| - 1;
      assert |s.Unread()| == s.remainder + 8 * t;
      if s.remainder == 8 {
        assert |s.Unread()| / 8 == t + 1;
      } else {
        assert |s.Unread()| / 8 == t;
        assert s.buffer[1..] == src[|src| - t..];
      }
    }
  }

  // ---------------------------------------------------------------------
  // What the decoder reads, as functions of the cursor

  predicate AllBelow(vs: seq<nat>, k: nat)
  {
    forall i :: 0 <= i < |vs| ==> vs[i] < k
  }

  /** n successive `pop_bits(bpp)` calls: the codes in reading order. */
  function PopCodes(c: Cursor, n: nat, bpp: nat): (r: Option<(seq<nat>, Cursor)>)
    ensures r.Some? ==> |r.value.0| == n && AllBelow(r.value.0, Pow2(bpp))
    ensures r.Some? ==> |r.value.1.bits| <= |c.bits|
  {
    if n == 0 then Some(([], c))
    else
      match PopCodes(c, n - 1, bpp)
      case None => None
      case Some((vs, c1)) =>
        match Pop(c1, bpp)
        case None => None
        case Some((v, c2)) => Some((vs + [v], c2))
  }

  /** Discarded bits after a row of `width` codes of `bpp` bits, Python's
      `(32 - width * bpp % 32) & 31`: on the value 32 - m, with m in 0..31,
      `& 31` is `% 32`. Python's `%` with a positive divisor is Dafny's. */
  function Pad(width: int, bpp: nat): (p: nat)
    ensures p < 32
  {
    (32 - (width * bpp) % 32) % 32
  }

  /** Rows of a non-negative width end on a 32-bit boundary: the stride
      `width * bpp + Pad(width, bpp)` is a multiple of 32. */
  lemma RowAligned(width: nat, bpp: nat, S: nat)
    requires S == Mul(width, bpp) + Pad(width, bpp)
    ensures S % 32 == 0
  {
    MulIsProduct(width, bpp);
    var x := Mul(width, bpp);
    assert Pad(width, bpp) == (32 - x % 32) % 32;
    var q, m := x / 32, x % 32;
    assert x == 32 * q + m;
    if m != 0 {
      assert S == 32 * (q + 1);
    } else {
      assert S == 32 * q;
    }
  }

  /** One stored row: w codes, then `pop_bits(pad)` if pad is not zero. */
  function ReadRow(c: Cursor, w: nat, bpp: nat, pad: nat): (r: Option<(seq<nat>, Cursor)>)
    ensures r.Some? ==> |r.value.0| == w && AllBelow(r.value.0, Pow2(bpp))
    ensures r.Some? ==> |r.value.1.bits| <= |c.bits|
  {
    match PopCodes(c, w, bpp)
    case None => None
    case Some((vs, c1)) =>
      if pad == 0 then Some((vs, c1))
      else
        match Pop(c1, pad)
        case None => None
        case Some((_, c2)) => Some((vs, c2))
  }

  predicate Rows(rows: seq<seq<nat>>, w: nat, bound: nat)
  {
    forall i :: 0 <= i < |rows| ==> |rows[i]| == w && AllBelow(rows[i], bound)
  }

  /** n stored rows, in the order they are read (bottom row first). */
  function ReadRows(c: Cursor, n: nat, w: nat, bpp: nat, pad: nat): (r: Option<(seq<seq<nat>>, Cursor)>)
    ensures r.Some? ==> |r.value.0| == n && Rows(r.value.0, w, Pow2(bpp))
    ensures r.Some? ==> |r.value.1.bits| <= |c.bits|
  {
    if n == 0 then Some(([], c))
    else
      match ReadRows(c, n - 1, w, bpp, pad)
      case None => None
      case Some((rows, c1)) =>
        match ReadRow(c1, w, bpp, pad)
        case None => None
        case Some((row, c2)) => Some((rows + [row], c2))
  }

  /** A plane read from a fresh stream over src: the stored rows and then
      `remaining_buffer()`, the bytes still untouched. */
  function Plane(src: seq<byte>, n: nat, w: nat, bpp: nat, pad: nat): (r: Option<(seq<seq<nat>>, seq<byte>)>)
    ensures r.Some? ==> |r.value.0| == n && Rows(r.value.0, w, Pow2(bpp))
    ensures r.Some? ==> IsSuffix(r.value.1, src)
  {
    match ReadRows(Start(src), n, w, bpp, pad)
    case None => None
    case Some((rows, c)) => Some((rows, src[|src| - |c.bits| / 8..]))
  }

  /** `rows.reverse()`. */
  function Reversed<T>(s: seq<T>): (r: seq<T>)
    ensures |r| == |s|
    ensures forall i :: 0 <= i < |s| ==> r[i] == s[|s| - 1 - i]
  {
    if s == [] then [] else Reversed(s[1..]) + [s[0]]
  }

  /** `for row in rows: out.extend(row)`. */
  function Flatten<T>(rows: seq<seq<T>>): seq<T>
  {
    if rows == [] then [] else Flatten(rows[..|rows| - 1]) + rows[|rows| - 1]
  }

  /** The colour table: n entries of 4 bytes each, alpha forced to 255,
      and the bytes after it. */
  function ColorTable(rem: seq<byte>, n: nat): (r: Option<(seq<Color>, seq<byte>)>)
    ensures r.Some? <==> 4 * n <= |rem|
    ensures r.Some? ==> |r.value.0| == n && r.value.1 == rem[4 * n..]
    ensures r.Some? ==> forall k :: 0 <= k < n ==> r.value.0[k].alpha == 0xFF
  {
    if n == 0 then Some(([], rem))
    else
      match ColorTable(rem, n - 1)
      case None => None
      case Some((cm, rest)) =>
        match ColorFromBytes(Slice(rest, 0, 4))
        case None => None
        case Some(color) => Some((cm + [color.(alpha := 0xFF)], Drop(rest, 4)))
  }

  // ---------------------------------------------------------------------
  // The decoder's loops

  /** Once a pop fails, every longer run of pops fails. */
  lemma {:induction false} CodesFail(c: Cursor, j: nat, n: nat, bpp: nat)
    requires j <= n && PopCodes(c, j, bpp).None?
    ensures PopCodes(c, n, bpp).None?
  {
    if j < n {
      CodesFail(c, j, n - 1, bpp);
    }
  }

  lemma {:induction false} RowsFail(c: Cursor, i: nat, n: nat, w: nat, bpp: nat, pad: nat)
    requires i <= n && ReadRows(c, i, w, bpp, pad).None?
    ensures ReadRows(c, n, w, bpp, pad).None?
  {
    if i < n {
      RowsFail(c, i, n - 1, w, bpp, pad);
    }
  }

  lemma CodesStep(c0: Cursor, j: nat, bpp: nat, row: seq<nat>, c1: Cursor, v: nat, c2: Cursor)
    requires PopCodes(c0, j, bpp) == Some((row, c1)) && Pop(c1, bpp) == Some((v, c2))
    ensures PopCodes(c0, j + 1, bpp) == Some((row + [v], c2))
  {
  }

  lemma CodesStepFail(c0: Cursor, j: nat, w: nat, bpp: nat, row: seq<nat>, c1: Cursor)
    requires j < w && PopCodes(c0, j, bpp) == Some((row, c1)) && Pop(c1, bpp).None?
    ensures PopCodes(c0, w, bpp).None?
  {
    CodesFail(c0, j + 1, w, bpp);
  }

  /** `for j in range(w): row.append(bitstream.pop_bits(bpp))`. */
  method ReadCodes(s: Bitstream, w: nat, bpp: nat) returns (r: Option<seq<nat>>)
    requires s.Valid()
    modifies s
    ensures s.Valid()
    ensures r.None? <==> PopCodes(old(Abs(s)), w, bpp).None?
    ensures r.Some? ==> PopCodes(old(Abs(s)), w, bpp) == Some((r.value, Abs(s)))
    ensures r.Some? ==> IsSuffix(s.buffer, old(s.buffer))
  {
    ghost var c0 := Abs(s);
    ghost var buf0 := s.buffer;
    var row := [];
    var j := 0;
    while j < w
      invariant j <= w && s.Valid() && IsSuffix(s.buffer, buf0)
      invariant PopCodes(c0, j, bpp) == Some((row, Abs(s)))
    {
      ghost var b := s.buffer;
      ghost var c1 := Abs(s);
      var v := PopCode(s, bpp);
      if v.None? {
        CodesStepFail(c0, j, w, bpp, row, c1);
        return None;
      }
      SuffixTrans(s.buffer, b, buf0);
      CodesStep(c0, j, bpp, row, c1, v.value, Abs(s));
      row := row + [v.value];
      j := j + 1;
    }
    r := Some(row);
  }

  /** One stored row, then `pop_bits(excess_bits)` if that is not zero. */
  method ReadStoredRow(s: Bitstream, w: nat, bpp: nat, pad: nat) returns (r: Option<seq<nat>>)
    requires s.Valid()
    modifies s
    ensures s.Valid()
    ensures r.None? <==> ReadRow(old(Abs(s)), w, bpp, pad).None?
    ensures r.Some? ==> ReadRow(old(Abs(s)), w, bpp, pad) == Some((r.value, Abs(s)))
    ensures r.Some? ==> IsSuffix(s.buffer, old(s.buffer))
  {
    ghost var buf0 := s.buffer;
    r := ReadCodes(s, w, bpp);
    if r.None? || pad == 0 {
      return;
    }
    ghost var b := s.buffer;
    var p := PopCode(s, pad);
    if p.None? {
      return None;
    }
    SuffixTrans(s.buffer, b, buf0);
  }

  lemma RowsStep(c0: Cursor, i: nat, w: nat, bpp: nat, pad: nat,
                 rows: seq<seq<nat>>, c1: Cursor, row: seq<nat>, c2: Cursor)
    requires ReadRows(c0, i, w, bpp, pad) == Some((rows, c1))
    requires ReadRow(c1, w, bpp, pad) == Some((row, c2))
    ensures ReadRows(c0, i + 1, w, bpp, pad) == Some((rows + [row], c2))
  {
  }

  lemma RowsStepFail(c0: Cursor, i: nat, n: nat, w: nat, bpp: nat, pad: nat, rows: seq<seq<nat>>, c1: Cursor)
    requires i < n && ReadRows(c0, i, w, bpp, pad) == Some((rows, c1))
    requires ReadRow(c1, w, bpp, pad).None?
    ensures ReadRows(c0, n, w, bpp, pad).None?
  {
    RowsFail(c0, i + 1, n, w, bpp, pad);
  }

  /** The row loop of the decoder (ico.py:135-143, and 154-162 for the
      mask): n stored rows from the stream. */
  method ReadStoredRows(s: Bitstream, n: nat, w: nat, bpp: nat, pad: nat) returns (r: Option<seq<seq<nat>>>)
    requires s.Valid()
    modifies s
    ensures s.Valid()
    ensures r.None? <==> ReadRows(old(Abs(s)), n, w, bpp, pad).None?
    ensures r.Some? ==> ReadRows(old(Abs(s)), n, w, bpp, pad) == Some((r.value, Abs(s)))
    ensures r.Some? ==> IsSuffix(s.buffer, old(s.buffer))
  {
    ghost var c0 := Abs(s);
    ghost var buf0 := s.buffer;
    var rows := [];
    var i := 0;
    while i < n
      invariant i <= n && s.Valid() && IsSuffix(s.buffer, buf0)
      invariant ReadRows(c0, i, w, bpp, pad) == Some((rows, Abs(s)))
    {
      ghost var b := s.buffer;
      ghost var c1 := Abs(s);
      var row := ReadStoredRow(s, w, bpp, pad);
      if row.None? {
        RowsStepFail(c0, i, n, w, bpp, pad, rows, c1);
        return None;
      }
      SuffixTrans(s.buffer, b, buf0);
      RowsStep(c0, i, w, bpp, pad, rows, c1, row.value, Abs(s));
      rows := rows + [row.value];
      i := i + 1;
    }
    r := Some(rows);
  }

  /** A plane read through a fresh `Bitstream(src)`, then
      `remaining_buffer()` (ico.py:134-144, 153-162). */
  method ReadPlane(src: seq<byte>, n: nat, w: nat, bpp: nat, pad: nat) returns (r: Option<(seq<seq<nat>>, seq<byte>)>)
    ensures r == Plane(src, n, w, bpp, pad)
  {
    var s := new Bitstream(src);
    assert Abs(s) == Start(src);
    var rows := ReadStoredRows(s, n, w, bpp, pad);
    if rows.None? {
      return None;
    }
    RemainingOfSuffix(s, src);
    r := Some((rows.value, s.RemainingBuffer()));
  }

  /** `for row in rows: image_data.extend(row)`. */
  method Extend(rows: seq<seq<nat>>) returns (out: seq<nat>)
    ensures out == Flatten(rows)
  {
    out := [];
    var k := 0;
    while k < |rows|
      invariant k <= |rows| && out == Flatten(rows[..k])
    {
      assert rows[..k + 1][..k] == rows[..k];
      out := out + rows[k];
      k := k + 1;
    }
    assert rows[..|rows|] == rows;
  }

  /** The colour-table loop (ico.py:123-130): fails when fewer than four
      bytes are left for an entry. */
  method ReadColorTable(rem0: seq<byte>, n: nat) returns (r: Option<(seq<Color>, seq<byte>)>)
    ensures r == ColorTable(rem0, n)
  {
    var colorMap := [];
    var rem := rem0;
    var i := 0;
    while i < n
      invariant i <= n && ColorTable(rem0, i) == Some((colorMap, rem))
    {
      var color := ColorFromBytes(Slice(rem, 0, 4));
      if color.None? {
        assert ColorTable(rem0, n).None? by {
          assert 4 * n > |rem0|;
        }
        return None;
      }
      colorMap := colorMap + [color.value.(alpha := 0xFF)];
      rem := Drop(rem, 4);
      i := i + 1;
    }
    r := Some((colorMap, rem));
  }

  // ---------------------------------------------------------------------
  // `Ico.from_bytes`

  /** `range(height >> 1)`: Python's `>>` floors, and an empty range for a
      negative count. */
  function HalfHeight(height: i32): nat
  {
    if height < 0 then 0 else height / 2
  }

  /** `range(width)`. */
  function Count(width: i32): nat
  {
    if width < 0 then 0 else width
  }

  /** The directory entry after the 6-byte file header, and the bitmap
      header at the entry's offset. */
  function ImageHeaders(data: seq<byte>): (r: Option<(IcoImageInfo, BitmapInfoHeader)>)
  {
    match InfoFromBytes(Drop(data, 6))
    case None => None
    case Some(info) =>
      match BitmapHeaderAt(data, info.dataOffset as nat)
      case None => None
      case Some(h) => Some((info, h))
  }

  /** The bitmap header read twice: first 40 bytes at off, then
      `header_size` bytes there, which fails unless `header_size` is at
      least 40. */
  function BitmapHeaderAt(data: seq<byte>, off: nat): Option<BitmapInfoHeader>
  {
    match HeaderFromBytes(Slice(data, off, off + 40))
    case None => None
    case Some(first) => HeaderFromBytes(Slice(data, off, off + first.headerSize as nat))
  }

  /** The pixel plane, top row first, then the mask read from the bytes
      the pixel rows left. */
  function PixelsAndMask(src: seq<byte>, h: BitmapInfoHeader): (r: Option<(seq<nat>, seq<nat>)>)
  {
    var n, w, bpp := HalfHeight(h.height), Count(h.width), h.bitsPerPixel as nat;
    match Plane(src, n, w, bpp, Pad(h.width, bpp))
    case None => None
    case Some((stored, rest)) =>
      var image := Flatten(Reversed(stored));
      match Mask(rest, h, |image|)
      case None => None
      case Some(mask) => Some((image, mask))
  }

  /** The mask of an image of `count` pixels: all zeros at 32 bits per
      pixel, otherwise 1-bit rows, top row first. */
  function Mask(rest: seq<byte>, h: BitmapInfoHeader, count: nat): (r: Option<seq<nat>>)
  {
    if h.bitsPerPixel == 32 then Some(seq(count, _ => 0))
    else
      match Plane(rest, HalfHeight(h.height), Count(h.width), 1, Pad(h.width, 1))
      case None => None
      case Some((maskRows, _)) => Some(Flatten(Reversed(maskRows)))
  }

  /** The colour table (2^bpp entries when bpp <= 8, none otherwise) and the
      bytes after it. */
  function ColorMap(rem: seq<byte>, bpp: nat): (r: Option<(seq<Color>, seq<byte>)>)
    ensures r.Some? <==> bpp > 8 || 4 * Pow2(bpp) <= |rem|
    ensures r.Some? && bpp <= 8 ==> |r.value.0| == Pow2(bpp) && r.value.1 == rem[4 * Pow2(bpp)..]
    ensures r.Some? && bpp <= 8 ==> forall k :: 0 <= k < |r.value.0| ==> r.value.0[k].alpha == 0xFF
    ensures bpp > 8 ==> r == Some(([], rem))
  {
    if bpp <= 8 then ColorTable(rem, Pow2(bpp)) else Some(([], rem))
  }

  /** The first image: its data runs from `data_offset + header_size` to
      `data_offset + data_size`, clamped as a Python slice. */
  function DecodeImage(data: seq<byte>): (r: Option<IcoImage>)
  {
    match ImageHeaders(data)
    case None => None
    case Some((info, h)) => ImageBody(Payload(data, info, h), info, h)
  }

  function Payload(data: seq<byte>, info: IcoImageInfo, h: BitmapInfoHeader): seq<byte>
  {
    var off := info.dataOffset as nat;
    Slice(data, off + h.headerSize as nat, off + info.dataSize as nat)
  }

  /** The colour table, then the pixel and mask planes. */
  function ImageBody(rem: seq<byte>, info: IcoImageInfo, h: BitmapInfoHeader): (r: Option<IcoImage>)
  {
    match ColorMap(rem, h.bitsPerPixel as nat)
    case None => None
    case Some((colorMap, pixels)) =>
      match PixelsAndMask(pixels, h)
      case None => None
      case Some((image, mask)) => Some(IcoImage(info, h, colorMap, image, mask))
  }

  /** `Ico.from_bytes(data)`: the 6-byte header, then at most one image. */
  function IcoFromBytes(data: seq<byte>): (r: Option<Ico>)
  {
    if |data| < 6 then None
    else
      var count := U16(data[4..6]);
      var images := if count == 0 then Some([]) else
        match DecodeImage(data)
        case None => None
        case Some(image) => Some([image]);
      match images
      case None => None
      case Some(images) => Some(Ico(U16(data[0..2]), U16(data[2..4]), count, images))
  }

  /** The pixel loop of ico.py:131-147. */
  method ReadPixelsAndMask(src: seq<byte>, h: BitmapInfoHeader) returns (r: Option<(seq<nat>, seq<nat>)>)
    ensures r == PixelsAndMask(src, h)
  {
    var n, w, bpp := HalfHeight(h.height), Count(h.width), h.bitsPerPixel as nat;
    var plane := ReadPlane(src, n, w, bpp, Pad(h.width, bpp));
    if plane.None? {
      return None;
    }
    var image := Extend(Reversed(plane.value.0));
    var mask := ReadMask(plane.value.1, h, |image|);
    if mask.None? {
      return None;
    }
    r := Some((image, mask.value));
  }

  /** The mask loop of ico.py:148-163. */
  method ReadMask(rest: seq<byte>, h: BitmapInfoHeader, count: nat) returns (r: Option<seq<nat>>)
    ensures r == Mask(rest, h, count)
  {
    if h.bitsPerPixel == 32 {
      return Some(seq(count, _ => 0));
    }
    var maskPlane := ReadPlane(rest, HalfHeight(h.height), Count(h.width), 1, Pad(h.width, 1));
    if maskPlane.None? {
      return None;
    }
    var mask := Extend(Reversed(maskPlane.value.0));
    r := Some(mask);
  }

  /** ico.py:123-130. */
  method ReadColorMap(rem: seq<byte>, bpp: nat) returns (r: Option<(seq<Color>, seq<byte>)>)
    ensures r == ColorMap(rem, bpp)
  {
    if bpp <= 8 {
      r := ReadColorTable(rem, Pow2(bpp));
    } else {
      r := Some(([], rem));
    }
  }

  /** One pass of the image loop of `Ico.from_bytes` (ico.py:118-169). */
  method ReadImage(data: seq<byte>) returns (r: Option<IcoImage>)
    ensures r == DecodeImage(data)
  {
    var headers := ImageHeaders(data);
    if headers.None? {
      return None;
    }
    var (info, h) := headers.value;
    r := ReadImageBody(Payload(data, info, h), info, h);
  }

  method ReadImageBody(remainder: seq<byte>, info: IcoImageInfo, h: BitmapInfoHeader) returns (r: Option<IcoImage>)
    ensures r == ImageBody(remainder, info, h)
  {
    var table := ReadColorMap(remainder, h.bitsPerPixel as nat);
    if table.None? {
      return None;
    }
    var planes := ReadPixelsAndMask(table.value.1, h);
    if planes.None? {
      return None;
    }
    r := Some(IcoImage(info, h, table.value.0, planes.value.0, planes.value.1));
  }

  /** `Ico.from_bytes` (ico.py:113-176): the image loop stops after its first
      pass, so at most one image is decoded. */
  method FromBytes(data: seq<byte>) returns (r: Option<Ico>)
    ensures r == IcoFromBytes(data)
  {
    if |data| < 6 {
      return None;
    }
    var reserved, imageType, imageCount := U16(data[0..2]), U16(data[2..4]), U16(data[4..6]);
    var images := [];
    if imageCount > 0 {
      var image := ReadImage(data);
      if image.None? {
        return None;
      }
      images := [image.value];
    }
    r := Some(Ico(reserved, imageType, imageCount, images));
  }

  // ---------------------------------------------------------------------
  // Where each code comes from

  /** `a * b`, by repeated addition: the offsets below stay linear. */
  function Mul(a: nat, b: nat): nat
  {
    if a == 0 then 0 else Mul(a - 1, b) + b
  }

  lemma {:induction false} MulIsProduct(a: nat, b: nat)
    ensures Mul(a, b) == a * b
  {
    if a > 0 {
      MulIsProduct(a - 1, b);
    }
  }

  /** n codes of bpp bits consume exactly n*bpp bits. */
  lemma {:induction false} PopCodesRest(c: Cursor, n: nat, bpp: nat)
    requires PopCodes(c, n, bpp).Some?
    ensures Mul(n, bpp) <= |c.bits|
    ensures PopCodes(c, n, bpp).value.1.bits == c.bits[Mul(n, bpp)..]
  {
    if n > 0 {
      PopCodesRest(c, n - 1, bpp);
      var c1 := PopCodes(c, n - 1, bpp).value.1;
      assert PopCodes(c, n, bpp).value.1 == Pop(c1, bpp).value.1;
      assert c1.bits[bpp..] == c.bits[Mul(n - 1, bpp) + bpp..];
    }
  }

  /** Code j of n is the big-endian value of bits j*bpp .. j*bpp+bpp. */
  lemma {:induction false} PopCodeAt(c: Cursor, n: nat, bpp: nat, j: nat)
    requires PopCodes(c, n, bpp).Some? && j < n
    ensures Mul(j, bpp) + bpp <= |c.bits|
    ensures PopCodes(c, n, bpp).value.0[j] == BeValue(c.bits[Mul(j, bpp)..Mul(j, bpp) + bpp])
  {
    var (vs0, c1) := PopCodes(c, n - 1, bpp).value;
    assert PopCodes(c, n, bpp).value.0 == vs0 + [Pop(c1, bpp).value.0];
    if j < n - 1 {
      PopCodeAt(c, n - 1, bpp, j);
    } else {
      PopCodesRest(c, n - 1, bpp);
      assert c1.bits[..bpp] == c.bits[Mul(j, bpp)..Mul(j, bpp) + bpp];
    }
  }

  /** A stored row occupies `w * bpp + pad` bits. */
  lemma {:induction false} ReadRowRest(c: Cursor, w: nat, bpp: nat, pad: nat)
    requires ReadRow(c, w, bpp, pad).Some?
    ensures Mul(w, bpp) + pad <= |c.bits|
    ensures ReadRow(c, w, bpp, pad).value.1.bits == c.bits[Mul(w, bpp) + pad..]
  {
    PopCodesRest(c, w, bpp);
    var c1 := PopCodes(c, w, bpp).value.1;
    assert c1.bits[pad..] == c.bits[Mul(w, bpp) + pad..];
  }

  /** n stored rows consume n strides of `w * bpp + pad` bits. */
  lemma {:induction false} ReadRowsRest(c: Cursor, n: nat, w: nat, bpp: nat, pad: nat)
    requires ReadRows(c, n, w, bpp, pad).Some?
    ensures Mul(n, Mul(w, bpp) + pad) <= |c.bits|
    ensures ReadRows(c, n, w, bpp, pad).value.1.bits == c.bits[Mul(n, Mul(w, bpp) + pad)..]
  {
    if n > 0 {
      ReadRowsRest(c, n - 1, w, bpp, pad);
      var c1 := ReadRows(c, n - 1, w, bpp, pad).value.1;
      ReadRowRest(c1, w, bpp, pad);
      assert ReadRows(c, n, w, bpp, pad).value.1 == ReadRow(c1, w, bpp, pad).value.1;
      var b := Mul(n - 1, Mul(w, bpp) + pad);
      assert c1.bits[Mul(w, bpp) + pad..] == c.bits[b + Mul(w, bpp) + pad..];
    }
  }

  /** The codes of a row are its w pops of bpp bits. */
  lemma {:induction false} ReadRowCodes(c: Cursor, w: nat, bpp: nat, pad: nat)
    requires ReadRow(c, w, bpp, pad).Some?
    ensures PopCodes(c, w, bpp).Some?
    ensures ReadRow(c, w, bpp, pad).value.0 == PopCodes(c, w, bpp).value.0
  {
  }

  /** Code j of a row read from the bits of c after its first b starts at
      bit o = b + j * bpp of c. */
  lemma {:induction false} RowCodeAt(c: Cursor, c1: Cursor, b: nat, w: nat, bpp: nat, pad: nat, j: nat, o: nat)
    requires b <= |c.bits| && c1.bits == c.bits[b..] && ReadRow(c1, w, bpp, pad).Some? && j < w
    requires o == b + Mul(j, bpp)
    ensures o + bpp <= |c.bits|
    ensures ReadRow(c1, w, bpp, pad).value.0[j] == BeValue(c.bits[o..o + bpp])
  {
    ReadRowCodes(c1, w, bpp, pad);
    PopCodeAt(c1, w, bpp, j);
    assert c1.bits[Mul(j, bpp)..Mul(j, bpp) + bpp] == c.bits[o..o + bpp];
  }

  /** Row k of n is the row read once the first k rows are read. */
  lemma {:induction false} RowAt(c: Cursor, n: nat, w: nat, bpp: nat, pad: nat, k: nat)
    requires ReadRows(c, n, w, bpp, pad).Some? && k < n
    ensures ReadRows(c, k, w, bpp, pad).Some?
    ensures ReadRow(ReadRows(c, k, w, bpp, pad).value.1, w, bpp, pad).Some?
    ensures ReadRows(c, n, w, bpp, pad).value.0[k]
         == ReadRow(ReadRows(c, k, w, bpp, pad).value.1, w, bpp, pad).value.0
  {
    var rows0 := ReadRows(c, n - 1, w, bpp, pad).value.0;
    assert ReadRows(c, n, w, bpp, pad).value.0
        == rows0 + [ReadRow(ReadRows(c, n - 1, w, bpp, pad).value.1, w, bpp, pad).value.0];
    if k < n - 1 {
      RowAt(c, n - 1, w, bpp, pad, k);
    }
  }

  /** Code j of stored row k starts at bit `k * S + j * bpp`, where the
      stride S is `w * bpp + pad`. */
  lemma {:induction false} ReadRowsCodeAt(c: Cursor, n: nat, w: nat, bpp: nat, pad: nat, k: nat, j: nat, b: nat)
    requires ReadRows(c, n, w, bpp, pad).Some? && k < n && j < w
    requires b == Mul(k, Mul(w, bpp) + pad) + Mul(j, bpp)
    ensures b + bpp <= |c.bits|
    ensures ReadRows(c, n, w, bpp, pad).value.0[k][j] == BeValue(c.bits[b..b + bpp])
  {
    RowAt(c, n, w, bpp, pad, k);
    ReadRowsRest(c, k, w, bpp, pad);
    RowCodeAt(c, ReadRows(c, k, w, bpp, pad).value.1, Mul(k, Mul(w, bpp) + pad), w, bpp, pad, j, b);
  }

  // ---------------------------------------------------------------------
  // Where each pixel comes from

  lemma {:induction false} MulMono(a: nat, b: nat, w: nat)
    requires a <= b
    ensures Mul(a, w) <= Mul(b, w)
  {
    if a < b {
      MulMono(a, b - 1, w);
    }
  }

  /** Rows of equal width w flatten to `|rows| * w` values. */
  lemma {:induction false} FlattenLength<T>(rows: seq<seq<T>>, w: nat)
    requires forall k :: 0 <= k < |rows| ==> |rows[k]| == w
    ensures |Flatten(rows)| == Mul(|rows|, w)
  {
    if rows != [] {
      FlattenLength(rows[..|rows| - 1], w);
    }
  }

  /** Value j of row i lands at index `i * w + j` of the flattened rows. */
  lemma {:induction false} FlattenAt<T>(rows: seq<seq<T>>, w: nat, i: nat, j: nat, o: nat)
    requires forall k :: 0 <= k < |rows| ==> |rows[k]| == w
    requires i < |rows| && j < w && o == Mul(i, w) + j
    ensures o < |Flatten(rows)| && Flatten(rows)[o] == rows[i][j]
  {
    var m := |rows| - 1;
    var init := rows[..m];
    FlattenLength(init, w);
    FlattenLength(rows, w);
    if i < m {
      MulMono(i + 1, m, w);
      FlattenAt(init, w, i, j, o);
    }
  }

  /** Flattening keeps every value below the rows' bound. */
  lemma {:induction false} FlattenBelow(rows: seq<seq<nat>>, w: nat, bound: nat)
    requires Rows(rows, w, bound)
    ensures AllBelow(Flatten(rows), bound)
  {
    if rows != [] {
      var init := rows[..|rows| - 1];
      assert Rows(init, w, bound);
      FlattenBelow(init, w, bound);
    }
  }

  lemma ReversedRows(rows: seq<seq<nat>>, w: nat, bound: nat)
    requires Rows(rows, w, bound)
    ensures Rows(Reversed(rows), w, bound)
  {
    var r := Reversed(rows);
    forall i | 0 <= i < |r|
      ensures |r[i]| == w && AllBelow(r[i], bound)
    {
      assert r[i] == rows[|rows| - 1 - i];
    }
  }

  /** n rows of a stride that is a whole number of bytes leave the bytes
      after the first `n * stride / 8`. */
  lemma PlaneRest(src: seq<byte>, n: nat, w: nat, bpp: nat, pad: nat, T: nat)
    requires Plane(src, n, w, bpp, pad).Some?
    requires (Mul(w, bpp) + pad) % 8 == 0 && T == Mul(n, Mul(w, bpp) + pad)
    ensures T / 8 <= |src|
    ensures Plane(src, n, w, bpp, pad).value.1 == src[T / 8..]
  {
    var S := Mul(w, bpp) + pad;
    ReadRowsRest(Start(src), n, w, bpp, pad);
    var q := S / 8;
    DivEight(S, q);
    MulEight(n, S, q);
    DivEight(T, Mul(n, q));
    var c := ReadRows(Start(src), n, w, bpp, pad).value.1;
    DivEight(|c.bits|, |src| - Mul(n, q));
    assert Plane(src, n, w, bpp, pad).value.1 == src[|src| - |c.bits| / 8..];
  }

  lemma {:induction false} MulEight(n: nat, S: nat, q: nat)
    requires S == 8 * q
    ensures Mul(n, S) == 8 * Mul(n, q)
  {
    if n > 0 {
      MulEight(n - 1, S, q);
    }
  }

  lemma {:induction false} MulOne(a: nat)
    ensures Mul(a, 1) == a
  {
    if a > 0 {
      MulOne(a - 1);
    }
  }

  /** The image holds `height/2` rows of `width` codes, each below 2^bpp. */
  lemma ImageShape(src: seq<byte>, h: BitmapInfoHeader)
    requires PixelsAndMask(src, h).Some?
    ensures |PixelsAndMask(src, h).value.0| == Mul(HalfHeight(h.height), Count(h.width))
    ensures AllBelow(PixelsAndMask(src, h).value.0, Pow2(h.bitsPerPixel as nat))
  {
    var n, w, bpp := HalfHeight(h.height), Count(h.width), h.bitsPerPixel as nat;
    PixelsOfPlane(src, h, n, w, bpp, Pad(h.width, bpp));
    var stored := Plane(src, n, w, bpp, Pad(h.width, bpp)).value.0;
    ReversedRows(stored, w, Pow2(bpp));
    FlattenLength(Reversed(stored), w);
    FlattenBelow(Reversed(stored), w, Pow2(bpp));
  }

  /** The mask is all zeros at 32 bits per pixel and otherwise holds
      `height/2` rows of `width` bits. */
  lemma MaskShape(rest: seq<byte>, h: BitmapInfoHeader, count: nat)
    requires Mask(rest, h, count).Some?
    ensures |Mask(rest, h, count).value| == if h.bitsPerPixel == 32 then count else Mul(HalfHeight(h.height), Count(h.width))
    ensures AllBelow(Mask(rest, h, count).value, 2)
    ensures h.bitsPerPixel == 32 ==> forall k :: 0 <= k < count ==> Mask(rest, h, count).value[k] == 0
  {
    if h.bitsPerPixel != 32 {
      var w := Count(h.width);
      var maskRows := Plane(rest, HalfHeight(h.height), w, 1, Pad(h.width, 1)).value.0;
      assert Pow2(1) == 2;
      ReversedRows(maskRows, w, 2);
      FlattenLength(Reversed(maskRows), w);
      FlattenBelow(Reversed(maskRows), w, 2);
    }
  }

  /** The image is the pixel plane's rows, top row first, end to end. */
  lemma PixelsOfPlane(src: seq<byte>, h: BitmapInfoHeader, n: nat, w: nat, bpp: nat, pad: nat)
    requires n == HalfHeight(h.height) && w == Count(h.width) && bpp == h.bitsPerPixel as nat && pad == Pad(h.width, bpp)
    requires PixelsAndMask(src, h).Some?
    ensures Plane(src, n, w, bpp, pad).Some?
    ensures PixelsAndMask(src, h).value.0 == Flatten(Reversed(Plane(src, n, w, bpp, pad).value.0))
  {
  }

  /** The mask is read from the bytes the pixel plane left. */
  lemma MaskOfRest(src: seq<byte>, h: BitmapInfoHeader, n: nat, w: nat, bpp: nat, pad: nat)
    requires n == HalfHeight(h.height) && w == Count(h.width) && bpp == h.bitsPerPixel as nat && pad == Pad(h.width, bpp)
    requires PixelsAndMask(src, h).Some?
    ensures Plane(src, n, w, bpp, pad).Some?
    ensures Mask(Plane(src, n, w, bpp, pad).value.1, h, |PixelsAndMask(src, h).value.0|).Some?
    ensures PixelsAndMask(src, h).value.1 == Mask(Plane(src, n, w, bpp, pad).value.1, h, |PixelsAndMask(src, h).value.0|).value
  {
  }

  /** The mask has one bit per pixel. */
  lemma MaskMatchesImage(src: seq<byte>, h: BitmapInfoHeader)
    requires PixelsAndMask(src, h).Some?
    ensures |PixelsAndMask(src, h).value.1| == |PixelsAndMask(src, h).value.0|
    ensures AllBelow(PixelsAndMask(src, h).value.1, 2)
  {
    var n, w, bpp := HalfHeight(h.height), Count(h.width), h.bitsPerPixel as nat;
    MaskOfRest(src, h, n, w, bpp, Pad(h.width, bpp));
    ImageShape(src, h);
    MaskShape(Plane(src, n, w, bpp, Pad(h.width, bpp)).value.1, h, |PixelsAndMask(src, h).value.0|);
  }

  /** Code j of stored row k of a plane starts at bit `k * S + j * bpp` of
      its bytes, where the stride S is `w * bpp + pad`. */
  lemma {:induction false} PlaneCodeAt(src: seq<byte>, n: nat, w: nat, bpp: nat, pad: nat, k: nat, j: nat, o: nat)
    requires Plane(src, n, w, bpp, pad).Some? && k < n && j < w
    requires o == Mul(k, Mul(w, bpp) + pad) + Mul(j, bpp)
    ensures o + bpp <= 8 * |src|
    ensures Plane(src, n, w, bpp, pad).value.0[k][j] == BeValue(StreamBits(src)[o..o + bpp])
  {
    ReadRowsCodeAt(Start(src), n, w, bpp, pad, k, j, o);
  }

  /** Value j of row i of the reversed rows, flattened, is at `i * w + j`
      and comes from row `|rows| - 1 - i`. */
  lemma {:induction false} ReversedFlattenAt<T>(rows: seq<seq<T>>, w: nat, i: nat, j: nat, o: nat, k: nat)
    requires forall k :: 0 <= k < |rows| ==> |rows[k]| == w
    requires i < |rows| && j < w && o == Mul(i, w) + j && k == |rows| - 1 - i
    ensures o < |Flatten(Reversed(rows))| && Flatten(Reversed(rows))[o] == rows[k][j]
  {
    var rev := Reversed(rows);
    assert forall k :: 0 <= k < |rev| ==> rev[k] == rows[|rows| - 1 - k];
    FlattenAt(rev, w, i, j, o);
  }

  /** Value (i, j) of a plane's rows, top row first, end to end. */
  lemma {:induction false} FlatCodeAt(src: seq<byte>, n: nat, w: nat, bpp: nat, pad: nat, i: nat, j: nat, o: nat, p: nat)
    requires Plane(src, n, w, bpp, pad).Some? && i < n && j < w
    requires o == Mul(n - 1 - i, Mul(w, bpp) + pad) + Mul(j, bpp) && p == Mul(i, w) + j
    ensures o + bpp <= 8 * |src|
    ensures p < |Flatten(Reversed(Plane(src, n, w, bpp, pad).value.0))|
    ensures Flatten(Reversed(Plane(src, n, w, bpp, pad).value.0))[p] == BeValue(StreamBits(src)[o..o + bpp])
  {
    var stored := Plane(src, n, w, bpp, pad).value.0;
    ReversedFlattenAt(stored, w, i, j, p, n - 1 - i);
    PlaneCodeAt(src, n, w, bpp, pad, n - 1 - i, j, o);
  }

  /** Pixel (i, j), top row first, is code j of stored row n-1-i: rows are
      stored bottom-up, each of `w * bpp` bits and then `pad` discarded bits. */
  lemma {:induction false} PixelAt(src: seq<byte>, h: BitmapInfoHeader, n: nat, w: nat, bpp: nat, pad: nat, i: nat, j: nat, o: nat)
    requires n == HalfHeight(h.height) && w == Count(h.width) && bpp == h.bitsPerPixel as nat && pad == Pad(h.width, bpp)
    requires PixelsAndMask(src, h).Some? && i < n && j < w
    requires o == Mul(n - 1 - i, Mul(w, bpp) + pad) + Mul(j, bpp)
    ensures Mul(i, w) + j < |PixelsAndMask(src, h).value.0|
    ensures o + bpp <= 8 * |src|
    ensures PixelsAndMask(src, h).value.0[Mul(i, w) + j] == BeValue(StreamBits(src)[o..o + bpp])
  {
    PixelsOfPlane(src, h, n, w, bpp, pad);
    FlatCodeAt(src, n, w, bpp, pad, i, j, o, Mul(i, w) + j);
  }

  /** For a positive width the pixel rows end on a byte boundary, so the
      mask plane starts at byte `n * S / 8`, S being the pixel row stride. */
  lemma PixelRest(src: seq<byte>, h: BitmapInfoHeader, n: nat, w: nat, bpp: nat, pad: nat, T: nat)
    requires w == Count(h.width) && bpp == h.bitsPerPixel as nat && pad == Pad(h.width, bpp)
    requires Plane(src, n, w, bpp, pad).Some? && w > 0
    requires T == Mul(n, Mul(w, bpp) + pad)
    ensures T == 8 * (T / 8) && T / 8 <= |src|
    ensures Plane(src, n, w, bpp, pad).value.1 == src[T / 8..]
  {
    var S := Mul(w, bpp) + pad;
    RowAligned(w, bpp, S);
    WordIsBytes(S);
    PlaneRest(src, n, w, bpp, pad, T);
    MulEight(n, S, S / 8);
    DivEight(T, Mul(n, S / 8));
  }

  lemma DivEight(T: nat, m: nat)
    requires T == 8 * m
    ensures T / 8 == m && T == 8 * (T / 8)
  {
  }

  lemma WordIsBytes(S: nat)
    requires S % 32 == 0
    ensures S % 8 == 0 && S == 8 * (S / 8)
  {
    assert S == 8 * (4 * (S / 32));
  }

  /** Bits of the bytes after the first q are the stream's bits after 8q. */
  lemma BitsOfRest(src: seq<byte>, q: nat, rest: seq<byte>, d: nat, a: nat, b: nat, len: nat)
    requires q <= |src| && rest == src[q..] && d == 8 * q
    requires a + len <= 8 * |rest| && b == d + a
    ensures b + len <= 8 * |src|
    ensures StreamBits(rest)[a..a + len] == StreamBits(src)[b..b + len]
  {
    StreamBitsDrop(src, q);
    SliceOfDrop(StreamBits(src), d, a, b, len);
  }

  lemma SliceOfDrop<T>(s: seq<T>, d: nat, a: nat, b: nat, len: nat)
    requires d + a + len <= |s| && b == d + a
    ensures s[d..][a..a + len] == s[b..b + len]
  {
  }

  lemma MaskOffset(k: nat, w: nat, pad1: nat, j: nat)
    ensures Mul(k, Mul(w, 1) + pad1) + Mul(j, 1) == Mul(k, w + pad1) + j
  {
    MulOne(w);
    MulOne(j);
  }

  /** Below 32 bits per pixel, mask bit (i, j), top row first, is bit j of
      stored mask row n-1-i; each mask row is w bits and then pad1
      discarded bits. */
  lemma {:induction false} MaskBitAt(rest: seq<byte>, h: BitmapInfoHeader, count: nat, n: nat, w: nat, pad1: nat, i: nat, j: nat, o: nat)
    requires n == HalfHeight(h.height) && w == Count(h.width) && pad1 == Pad(h.width, 1)
    requires Mask(rest, h, count).Some? && h.bitsPerPixel != 32 && i < n && j < w
    requires o == Mul(n - 1 - i, w + pad1) + j
    ensures Mul(i, w) + j < |Mask(rest, h, count).value|
    ensures o < 8 * |rest|
    ensures Mask(rest, h, count).value[Mul(i, w) + j] == BeValue(StreamBits(rest)[o..o + 1])
  {
    MaskOfPlane(rest, h, count, n, w, pad1);
    MaskOffset(n - 1 - i, w, pad1, j);
    FlatCodeAt(rest, n, w, 1, pad1, i, j, o, Mul(i, w) + j);
  }

  lemma MaskOfPlane(rest: seq<byte>, h: BitmapInfoHeader, count: nat, n: nat, w: nat, pad1: nat)
    requires n == HalfHeight(h.height) && w == Count(h.width) && pad1 == Pad(h.width, 1)
    requires Mask(rest, h, count).Some? && h.bitsPerPixel != 32
    ensures Plane(rest, n, w, 1, pad1).Some?
    ensures Mask(rest, h, count).value == Flatten(Reversed(Plane(rest, n, w, 1, pad1).value.0))
  {
  }

  /** Mask bit (i, j) of a decoded image is bit `T + o` of its pixel bytes,
      T being where the pixel rows end. */
  lemma {:induction false} MaskAt(src: seq<byte>, h: BitmapInfoHeader, n: nat, w: nat, bpp: nat, pad: nat, pad1: nat, i: nat, j: nat, T: nat, o: nat)
    requires n == HalfHeight(h.height) && w == Count(h.width) && bpp == h.bitsPerPixel as nat
    requires pad == Pad(h.width, bpp) && pad1 == Pad(h.width, 1)
    requires PixelsAndMask(src, h).Some? && bpp != 32 && i < n && j < w
    requires T == Mul(n, Mul(w, bpp) + pad) && o == T + Mul(n - 1 - i, w + pad1) + j
    ensures Mul(i, w) + j < |PixelsAndMask(src, h).value.1|
    ensures o < 8 * |src|
    ensures PixelsAndMask(src, h).value.1[Mul(i, w) + j] == BeValue(StreamBits(src)[o..o + 1])
  {
    MaskOfRest(src, h, n, w, bpp, pad);
    var rest := Plane(src, n, w, bpp, pad).value.1;
    MaskBitAt(rest, h, |PixelsAndMask(src, h).value.0|, n, w, pad1, i, j, o - T);
    RestBit(src, h, n, w, bpp, pad, T, o - T, o);
  }

  /** Bit a of the bytes the pixel plane left is bit T + a of the pixel
      bytes. */
  lemma RestBit(src: seq<byte>, h: BitmapInfoHeader, n: nat, w: nat, bpp: nat, pad: nat, T: nat, a: nat, o: nat)
    requires w == Count(h.width) && bpp == h.bitsPerPixel as nat && pad == Pad(h.width, bpp)
    requires Plane(src, n, w, bpp, pad).Some? && w > 0
    requires T == Mul(n, Mul(w, bpp) + pad) && o == T + a && a < 8 * |Plane(src, n, w, bpp, pad).value.1|
    ensures o < 8 * |src|
    ensures StreamBits(Plane(src, n, w, bpp, pad).value.1)[a..a + 1] == StreamBits(src)[o..o + 1]
  {
    PixelRest(src, h, n, w, bpp, pad, T);
    BitsOfRest(src, T / 8, Plane(src, n, w, bpp, pad).value.1, T, a, o, 1);
  }

  // ---------------------------------------------------------------------
  // Headers and the file

  /** `BitmapInfoHeader.from_bytes` reads only the first 40 bytes. */
  lemma HeaderPrefix(a: seq<byte>, b: seq<byte>)
    requires |a| >= 40 && |b| >= 40 && a[..40] == b[..40]
    ensures HeaderFromBytes(a) == HeaderFromBytes(b)
  {
    assert a[0..4] == b[0..4] && a[4..8] == b[4..8] && a[8..12] == b[8..12];
    assert a[12..14] == b[12..14] && a[14..16] == b[14..16];
    assert a[16..20] == b[16..20] && a[20..24] == b[20..24] && a[24..28] == b[24..28];
    assert a[28..32] == b[28..32] && a[32..36] == b[32..36] && a[36..40] == b[36..40];
  }

  /** Reading the bitmap header a second time, with its own `header_size`,
      succeeds exactly when that size is at least 40: the slice is clamped,
      so a size past the end still reads the 40 bytes that are there. */
  lemma SecondReadSucceeds(data: seq<byte>, off: nat, first: BitmapInfoHeader)
    requires off + 40 <= |data| && HeaderFromBytes(data[off..off + 40]) == Some(first)
    ensures HeaderFromBytes(Slice(data, off, off + first.headerSize as nat)).Some? <==> first.headerSize >= 40
  {
  }

  /** ... and then gives back the same header. */
  lemma SecondReadSame(data: seq<byte>, off: nat, first: BitmapInfoHeader)
    requires off + 40 <= |data| && HeaderFromBytes(data[off..off + 40]) == Some(first)
    requires first.headerSize >= 40
    ensures HeaderFromBytes(Slice(data, off, off + first.headerSize as nat)) == Some(first)
  {
    var e := Min(off + first.headerSize as nat, |data|);
    var t := Slice(data, off, off + first.headerSize as nat);
    var b := data[off..off + 40];
    assert t == data[off..e];
    assert t[..40] == b == b[..40];
    HeaderPrefix(t, b);
  }

  /** The bitmap header is read exactly when 40 bytes are there and they
      give a header size of at least 40. */
  lemma BitmapHeaderOk(data: seq<byte>, off: nat)
    ensures BitmapHeaderAt(data, off).Some? <==>
      off + 40 <= |data| && HeaderFromBytes(data[off..off + 40]).value.headerSize >= 40
  {
    if off + 40 <= |data| {
      assert Slice(data, off, off + 40) == data[off..off + 40];
      SecondReadSucceeds(data, off, HeaderFromBytes(data[off..off + 40]).value);
    }
  }

  /** The headers of the first image: the directory entry right after the
      6-byte file header, and the bitmap header at its offset. */
  lemma ImageHeadersRead(data: seq<byte>)
    ensures ImageHeaders(data).Some? <==>
      |data| >= 22 && BitmapHeaderAt(data, InfoFromBytes(data[6..]).value.dataOffset as nat).Some?
    ensures ImageHeaders(data).Some? ==>
      ImageHeaders(data).value.0 == InfoFromBytes(data[6..]).value
      && Some(ImageHeaders(data).value.1) == BitmapHeaderAt(data, ImageHeaders(data).value.0.dataOffset as nat)
  {
  }

  /** The file decodes exactly when its 6-byte header is there and, unless
      it announces no image, the first image decodes. */
  lemma IcoDecodes(data: seq<byte>)
    ensures IcoFromBytes(data).Some? <==> |data| >= 6 && (U16(data[4..6]) == 0 || DecodeImage(data).Some?)
  {
  }

  /** At most one image is decoded: `len(images) == min(image_count, 1)`. */
  lemma IcoImageCount(data: seq<byte>)
    requires IcoFromBytes(data).Some?
    ensures |IcoFromBytes(data).value.images| == Min(IcoFromBytes(data).value.imageCount, 1)
  {
  }

  /** The decoded header fields re-encode to the first 6 bytes. */
  lemma IcoHeaderBytes(data: seq<byte>)
    requires IcoFromBytes(data).Some?
    ensures IcoBytes(IcoFromBytes(data).value) == data[..6]
  {
    var x := IcoFromBytes(data).value;
    assert x.reserved == U16(data[0..2]) && x.imageType == U16(data[2..4]) && x.imageCount == U16(data[4..6]);
    SixBytes(data, x);
  }

  lemma SixBytes(data: seq<byte>, x: Ico)
    requires |data| >= 6
    requires x.reserved == U16(data[0..2]) && x.imageType == U16(data[2..4]) && x.imageCount == U16(data[4..6])
    ensures IcoBytes(x) == data[..6]
  {
    assert EncodeU16(x.reserved) == data[0..2] && EncodeU16(x.imageType) == data[2..4];
    assert EncodeU16(x.imageCount) == data[4..6];
    assert data[..6] == data[0..2] + data[2..4] + data[4..6];
  }

  /** `bytes(ico)` holds only the header, so it reads back as the same
      header with no image when it announces none, and fails otherwise. */
  lemma IcoBytesRoundTrip(x: Ico)
    ensures IcoFromBytes(IcoBytes(x)) == if x.imageCount == 0 then Some(x.(images := [])) else None
  {
    var d := IcoBytes(x);
    assert Drop(d, 6) == [];
  }
}

