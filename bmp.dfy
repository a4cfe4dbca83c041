/** The two BMP records: a colour-table entry and the 40-byte
    BITMAPINFOHEADER. Each is a value type with a little-endian encoder
    (`bytes(x)`, the fields packed in declaration order) and a decoder
    (`from_bytes`, which reads the record's fixed size from the front of its
    input, ignores the rest, and fails on shorter input). */
module Bmp {
  import opened Wrappers
  import opened Bytes

  /** Colour-table entry, stored blue, green, red, alpha. */
  datatype Color = Color(blue: byte, green: byte, red: byte, alpha: byte)

  /** `values()`: the fields in declaration order. */
  function ColorValues(c: Color): (vs: seq<byte>)
    ensures |vs| == 4
  {
    [c.blue, c.green, c.red, c.alpha]
  }

  /** `bytes(color)`: one byte per field, in the order of `values()`. */
  function ColorBytes(c: Color): (r: seq<byte>)
    ensures |r| == 4
  {
    ColorValues(c)
  }

  /** `Color.from_bytes(data)`. */
  function ColorFromBytes(data: seq<byte>): (r: Option<Color>)
    ensures r.Some? <==> |data| >= 4
    ensures r.Some? ==> ColorValues(r.value) == data[..4]
  {
    if |data| < 4 then None else Some(Color(data[0], data[1], data[2], data[3]))
  }

  lemma ColorRoundTrip(c: Color)
    ensures ColorFromBytes(ColorBytes(c)) == Some(c)
  {
  }

  lemma ColorBytesOfDecode(data: seq<byte>)
    requires |data| >= 4
    ensures ColorBytes(ColorFromBytes(data).value) == data[..4]
  {
  }

  /** The Windows BITMAPINFOHEADER; width and height are signed. */
  datatype BitmapInfoHeader = BitmapInfoHeader(
    headerSize: u32, width: i32, height: i32, colorPlanes: u16, bitsPerPixel: u16,
    compressionMethod: u32, imageSize: u32, resolutionH: u32, resolutionV: u32,
    colorsInPalette: u32, importantColors: u32)

  /** The six trailing u32 fields, packed at offsets 16, 20, ..., 36. */
  function TailBytes(h: BitmapInfoHeader): (r: seq<byte>)
    ensures |r| == 24
  {
    EncodeU32(h.compressionMethod) + EncodeU32(h.imageSize) + EncodeU32(h.resolutionH)
    + EncodeU32(h.resolutionV) + EncodeU32(h.colorsInPalette) + EncodeU32(h.importantColors)
  }

  /** `bytes(header)`: the `IiiHHIIIIII` layout. */
  function HeaderBytes(h: BitmapInfoHeader): (r: seq<byte>)
    ensures |r| == 40
  {
    FrontBytes(h) + TailBytes(h)
  }

  /** Field at byte offset k, as a u32. */
  function U32At(data: seq<byte>, k: nat): u32
    requires k + 4 <= |data|
  {
    U32(data[k..k + 4])
  }

  /** `BitmapInfoHeader.from_bytes(data)`. */
  function HeaderFromBytes(data: seq<byte>): (r: Option<BitmapInfoHeader>)
    ensures r.Some? <==> |data| >= 40
    ensures r.Some? ==> (r.value.width < 0 <==> data[7] >= 0x80)
    ensures r.Some? ==> (r.value.height < 0 <==> data[11] >= 0x80)
  {
    if |data| < 40 then None
    else Some(BitmapInfoHeader(
      U32At(data, 0), I32(data[4..8]), I32(data[8..12]), U16(data[12..14]), U16(data[14..16]),
      U32At(data, 16), U32At(data, 20), U32At(data, 24), U32At(data, 28), U32At(data, 32), U32At(data, 36)))
  }

  lemma TailRoundTrip(h: BitmapInfoHeader, s: seq<byte>)
    requires s == TailBytes(h)
    ensures U32At(s, 0) == h.compressionMethod && U32At(s, 4) == h.imageSize
    ensures U32At(s, 8) == h.resolutionH && U32At(s, 12) == h.resolutionV
    ensures U32At(s, 16) == h.colorsInPalette && U32At(s, 20) == h.importantColors
  {
    var p := EncodeU32(h.compressionMethod) + EncodeU32(h.imageSize) + EncodeU32(h.resolutionH);
    var q := EncodeU32(h.resolutionV) + EncodeU32(h.colorsInPalette) + EncodeU32(h.importantColors);
    assert s == p + q;
    assert p[0..4] == EncodeU32(h.compressionMethod) && p[4..8] == EncodeU32(h.imageSize);
    assert p[8..12] == EncodeU32(h.resolutionH);
    assert q[0..4] == EncodeU32(h.resolutionV) && q[4..8] == EncodeU32(h.colorsInPalette);
    assert q[8..12] == EncodeU32(h.importantColors);
    assert s[0..4] == p[0..4] && s[4..8] == p[4..8] && s[8..12] == p[8..12];
    assert s[12..16] == q[0..4] && s[16..20] == q[4..8] && s[20..24] == q[8..12];
  }

  /** The first five fields at offsets 0, 4, 8, 12 and 14. */
  function FrontBytes(h: BitmapInfoHeader): (r: seq<byte>)
    ensures |r| == 16
  {
    EncodeU32(h.headerSize) + EncodeI32(h.width) + EncodeI32(h.height)
    + EncodeU16(h.colorPlanes) + EncodeU16(h.bitsPerPixel)
  }

  lemma FrontRoundTrip(h: BitmapInfoHeader, s: seq<byte>)
    requires s == FrontBytes(h)
    ensures U32(s[0..4]) == h.headerSize && I32(s[4..8]) == h.width && I32(s[8..12]) == h.height
    ensures U16(s[12..14]) == h.colorPlanes && U16(s[14..16]) == h.bitsPerPixel
  {
    var front := EncodeU32(h.headerSize) + EncodeI32(h.width) + EncodeI32(h.height);
    var mid := EncodeU16(h.colorPlanes) + EncodeU16(h.bitsPerPixel);
    assert s == front + mid;
    assert front[0..4] == EncodeU32(h.headerSize);
    assert front[4..8] == EncodeI32(h.width) && front[8..12] == EncodeI32(h.height);
    assert mid[0..2] == EncodeU16(h.colorPlanes) && mid[2..4] == EncodeU16(h.bitsPerPixel);
    assert s[0..4] == front[0..4] && s[4..8] == front[4..8] && s[8..12] == front[8..12];
    assert s[12..14] == mid[0..2] && s[14..16] == mid[2..4];
    I32RoundTrip(h.width);
    I32RoundTrip(h.height);
  }

  lemma HeaderRoundTrip(h: BitmapInfoHeader)
    ensures HeaderFromBytes(HeaderBytes(h)) == Some(h)
  {
    var s := HeaderBytes(h);
    var f, t := FrontBytes(h), TailBytes(h);
    assert s == f + t;
    assert s[0..4] == f[0..4] && s[4..8] == f[4..8] && s[8..12] == f[8..12];
    assert s[12..14] == f[12..14] && s[14..16] == f[14..16];
    FrontRoundTrip(h, f);
    TailRoundTrip(h, t);
    assert s[16..20] == t[0..4] && s[20..24] == t[4..8] && s[24..28] == t[8..12];
    assert s[28..32] == t[12..16] && s[32..36] == t[16..20] && s[36..40] == t[20..24];
  }

  /** Six u32 fields re-encoded give back the 24 bytes they were read from. */
  lemma TailOfDecode(s: seq<byte>, h: BitmapInfoHeader)
    requires |s| == 24
    requires h.compressionMethod == U32At(s, 0) && h.imageSize == U32At(s, 4)
    requires h.resolutionH == U32At(s, 8) && h.resolutionV == U32At(s, 12)
    requires h.colorsInPalette == U32At(s, 16) && h.importantColors == U32At(s, 20)
    ensures TailBytes(h) == s
  {
    assert s == s[0..4] + s[4..8] + s[8..12] + s[12..16] + s[16..20] + s[20..24];
  }

  lemma HeaderBytesOfDecode(data: seq<byte>)
    requires |data| >= 40
    ensures HeaderBytes(HeaderFromBytes(data).value) == data[..40]
  {
    var h := HeaderFromBytes(data).value;
    var t := data[16..40];
    assert t[0..4] == data[16..20] && t[4..8] == data[20..24] && t[8..12] == data[24..28];
    assert t[12..16] == data[28..32] && t[16..20] == data[32..36] && t[20..24] == data[36..40];
    TailOfDecode(t, h);
    assert EncodeU32(h.headerSize) == data[0..4];
    assert EncodeI32(h.width) == data[4..8] && EncodeI32(h.height) == data[8..12];
    assert EncodeU16(h.colorPlanes) == data[12..14] && EncodeU16(h.bitsPerPixel) == data[14..16];
    assert FrontBytes(h) == data[..16] by {
      assert data[..16] == data[0..4] + data[4..8] + data[8..12] + data[12..14] + data[14..16];
    }
    assert data[..40] == data[..16] + t;
  }
}
