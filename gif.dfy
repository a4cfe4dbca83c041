/** `make_gif` of ani2gif.py: the images of a list of icons as a GIF89a
    file whose frames store every pixel uncompressed, in the fixed block
    layout of sections 17-27 of the GIF89a specification. */
module Gif {
  import opened Wrappers
  import opened Bytes
  import opened Bmp
  import opened Ico

  /** The colour index written for masked pixels, also the transparent
      colour of every frame (ani2gif.py:14). */
  const MaxColor: byte := 0x7F

  const Magic: seq<byte> := [0x47, 0x49, 0x46, 0x38, 0x39, 0x61]  // "GIF89a"

  /** Logical Screen Descriptor flags: a global colour table of
      2^(6+1) = 128 entries, colour resolution 7 bits. */
  const ScreenFlags: byte := 0xE6

  /** The NETSCAPE2.0 application extension, looping 65535 times
      (ani2gif.py:29). */
  const Netscape: seq<byte> := [0x21, 0xFF, 0x0B,
    0x4E, 0x45, 0x54, 0x53, 0x43, 0x41, 0x50, 0x45, 0x32, 0x2E, 0x30,
    0x03, 0x01, 0xFF, 0xFF, 0x00]

  /** The graphic control extension of every frame (ani2gif.py:35): packed
      field 0x05 (disposal 1, transparency on), delay 9, transparent index
      MaxColor. */
  const Gce: seq<byte> := [0x21, 0xF9, 0x04, 0x05, 0x09, 0x00, MaxColor, 0x00]

  /** The LZW minimum code size byte (ani2gif.py:43). */
  const MinCodeSize: byte := 7

  const Trailer: byte := 0x3B

  /** The padding of the global colour table: the 112 entries of `range(16, 128)`. */
  const PadEntries: nat := 112

  /** `struct.pack("<6sHHBBB", magic, width, height, 0xE6, MAX_COLOR, 0)`;
      width and height are bytes, so their high bytes are 0. */
  function Header(w: byte, h: byte): seq<byte>
  {
    Magic + [w, 0, h, 0, ScreenFlags, MaxColor, 0]
  }

  /** `struct.pack("BBB", red, green, blue)`. */
  function Triple(c: Color): seq<byte>
  {
    [c.red, c.green, c.blue]
  }

  /** The colour-map part of the global colour table (ani2gif.py:22-23). */
  function Triples(cm: seq<Color>): seq<byte>
  {
    if cm == [] then [] else Triples(cm[..|cm| - 1]) + Triple(cm[|cm| - 1])
  }

  /** The global colour table (ani2gif.py:21-27). */
  function Gct(cm: seq<Color>): seq<byte>
  {
    Triples(cm) + Zeros(3 * PadEntries)
  }

  /** `struct.pack('<BHHHHB', 0x2c, 0, 0, width, height, 0)`. */
  function Descriptor(w: byte, h: byte): seq<byte>
  {
    [0x2C, 0, 0, 0, 0, w, 0, h, 0, 0]
  }

  /** The byte written for pixel index of frame f (ani2gif.py:50-53):
      MaxColor where the mask bit is 1, else the image value, which `bytes`
      rejects above 255. None where `images[0]`, the mask or the image data
      has no such entry. */
  function Pixel(f: Ico, index: nat): Option<byte>
  {
    if f.images == [] || index >= |f.images[0].maskData| then None
    else if f.images[0].maskData[index] == 1 then Some(MaxColor)
    else if index >= |f.images[0].imageData| || f.images[0].imageData[index] >= 0x100 then None
    else Some(f.images[0].imageData[index])
  }

  /** The n pixels from start on. */
  function Pixels(f: Ico, start: nat, n: nat): Option<seq<byte>>
  {
    if n == 0 then Some([])
    else
      match Pixels(f, start, n - 1)
      case None => None
      case Some(ps) =>
        match Pixel(f, start + n - 1)
        case None => None
        case Some(p) => Some(ps + [p])
  }

  /** A row (ani2gif.py:47-56): a sub-block of w + 1 bytes, a CLEAR code
      0x80 and the pixels, then a 1-byte sub-block holding the STOP code
      0x81. */
  function RowBytes(w: byte, ps: seq<byte>): seq<byte>
    requires w < 0xFF
  {
    [w + 1, 0x80] + ps + [0x01, 0x81]
  }

  /** Row i of frame f; `struct.pack("B", width + 1)` fails for width 255. */
  function Row(f: Ico, w: byte, i: nat): Option<seq<byte>>
  {
    if w + 1 >= 0x100 then None
    else
      match Pixels(f, i * w, w)
      case None => None
      case Some(ps) => Some(RowBytes(w, ps))
  }

  /** The first n rows of frame f. */
  function Rows(f: Ico, w: byte, n: nat): Option<seq<byte>>
  {
    if n == 0 then Some([])
    else
      match Rows(f, w, n - 1)
      case None => None
      case Some(rs) =>
        match Row(f, w, n - 1)
        case None => None
        case Some(r) => Some(rs + r)
  }

  /** One frame (ani2gif.py:35-57) around its rows. */
  function BlockBytes(w: byte, h: byte, rs: seq<byte>): seq<byte>
  {
    Gce + Descriptor(w, h) + [MinCodeSize] + rs + [0]
  }

  function Block(f: Ico, w: byte, h: byte): Option<seq<byte>>
  {
    match Rows(f, w, h)
    case None => None
    case Some(rs) => Some(BlockBytes(w, h, rs))
  }

  /** The blocks of all frames, in order. */
  function Blocks(frames: seq<Ico>, w: byte, h: byte): Option<seq<byte>>
  {
    if frames == [] then Some([])
    else
      match Blocks(frames[..|frames| - 1], w, h)
      case None => None
      case Some(bs) =>
        match Block(frames[|frames| - 1], w, h)
        case None => None
        case Some(b) => Some(bs + b)
  }

  /** The bytes before the first frame: header, colour table, NETSCAPE. */
  function Preamble(w: byte, h: byte, cm: seq<Color>): seq<byte>
  {
    Header(w, h) + Gct(cm) + Netscape
  }

  function FileBytes(w: byte, h: byte, cm: seq<Color>, bs: seq<byte>): seq<byte>
  {
    Preamble(w, h, cm) + bs + [Trailer]
  }

  /** `make_gif(frames)`: None where it raises. The size and the colour
      table come from `frames[0].images[0]`. */
  function GifBytes(frames: seq<Ico>): Option<seq<byte>>
  {
    if frames == [] || frames[0].images == [] then None
    else
      var img := frames[0].images[0];
      match Blocks(frames, img.info.width, img.info.height)
      case None => None
      case Some(bs) => Some(FileBytes(img.info.width, img.info.height, img.colorMap, bs))
  }

  // ---------------------------------------------------------------------
  // The loops of make_gif

  /** ani2gif.py:21-27. */
  method ColorTable(cm: seq<Color>) returns (gct: seq<byte>)
    ensures gct == Gct(cm)
  {
    gct := [];
    var i := 0;
    while i < |cm|
      invariant i <= |cm| && gct == Triples(cm[..i])
    {
      assert cm[..i + 1][..i] == cm[..i];
      gct := gct + Triple(cm[i]);
      i := i + 1;
    }
    assert cm[..i] == cm;
    var k := 16;
    while k < 128
      invariant 16 <= k <= 128 && gct == Triples(cm) + Zeros(3 * (k - 16))
    {
      gct := gct + [0, 0, 0];
      k := k + 1;
    }
  }

  /** ani2gif.py:46-56 for one frame: the rows, with `index` running on
      over the whole frame. A value above 255 makes `bytes(row)` raise; the
      loop stops at that pixel, with the same outcome. */
  method FrameRows(f: Ico, w: byte, h: byte) returns (r: Option<seq<byte>>)
    ensures r == Rows(f, w, h)
  {
    var out := [];
    var index := 0;
    var i := 0;
    while i < h
      invariant i <= h && index == i * w && Rows(f, w, i) == Some(out)
    {
      if w + 1 >= 0x100 {
        RowsFail(f, w, i, h);
        return None;
      }
      ghost var before := out;
      var row := [];
      var j := 0;
      while j < w
        invariant j <= w && index == i * w + j && Pixels(f, i * w, j) == Some(row)
      {
        if f.images == [] || index >= |f.images[0].maskData| {
          PixelsFail(f, i * w, j, w);
          RowsFail(f, w, i, h);
          return None;
        }
        if f.images[0].maskData[index] == 1 {
          row := row + [MaxColor];
        } else if index >= |f.images[0].imageData| || f.images[0].imageData[index] >= 0x100 {
          PixelsFail(f, i * w, j, w);
          RowsFail(f, w, i, h);
          return None;
        } else {
          row := row + [f.images[0].imageData[index]];
        }
        index := index + 1;
        j := j + 1;
      }
      out := out + [w + 1, 0x80] + row + [0x01, 0x81];
      assert out == before + RowBytes(w, row);
      MulSucc(i, w);
      i := i + 1;
    }
    r := Some(out);
  }

  lemma {:induction false} PixelsFail(f: Ico, start: nat, j: nat, n: nat)
    requires j < n && Pixel(f, start + j).None?
    ensures Pixels(f, start, n).None?
    decreases n
  {
    if n - 1 > j {
      PixelsFail(f, start, j, n - 1);
    }
  }

  lemma {:induction false} RowsFail(f: Ico, w: byte, i: nat, n: nat)
    requires i < n && Row(f, w, i).None?
    ensures Rows(f, w, n).None?
    decreases n
  {
    if n - 1 > i {
      RowsFail(f, w, i, n - 1);
    }
  }

  lemma {:induction false} BlocksFail(frames: seq<Ico>, w: byte, h: byte, k: nat)
    requires k < |frames| && Block(frames[k], w, h).None?
    ensures Blocks(frames, w, h).None?
    decreases |frames|
  {
    var m := |frames| - 1;
    if m > k {
      assert frames[..m][k] == frames[k];
      BlocksFail(frames[..m], w, h, k);
    }
  }

  lemma BlocksNext(frames: seq<Ico>, w: byte, h: byte, k: nat)
    requires k < |frames|
    ensures Blocks(frames[..k + 1], w, h) ==
      match Blocks(frames[..k], w, h)
      case None => None
      case Some(bs) => if Rows(frames[k], w, h).None? then None else Some(bs + BlockBytes(w, h, Rows(frames[k], w, h).value))
  {
    assert frames[..k + 1][..k] == frames[..k] && frames[..k + 1][k] == frames[k];
  }

  /** The frame loop of ani2gif.py:33-57, appending to output. */
  method WriteFrames(output: seq<byte>, frames: seq<Ico>, w: byte, h: byte) returns (r: Option<seq<byte>>)
    ensures r == Prepend(output, Blocks(frames, w, h))
  {
    var out := output;
    var k := 0;
    while k < |frames|
      invariant k <= |frames| && Blocks(frames[..k], w, h).Some? && out == output + Blocks(frames[..k], w, h).value
    {
      var rows := FrameRows(frames[k], w, h);
      if rows.None? {
        BlocksFail(frames, w, h, k);
        return None;
      }
      ghost var before := out;
      out := out + Gce + Descriptor(w, h) + [MinCodeSize] + rows.value + [0];
      WriteStep(output, frames, w, h, k, before, rows.value);
      k := k + 1;
    }
    assert frames[..k] == frames;
    r := Some(out);
  }

  lemma WriteStep(output: seq<byte>, frames: seq<Ico>, w: byte, h: byte, k: nat, before: seq<byte>, rows: seq<byte>)
    requires k < |frames| && Blocks(frames[..k], w, h).Some? && before == output + Blocks(frames[..k], w, h).value
    requires Rows(frames[k], w, h) == Some(rows)
    ensures Blocks(frames[..k + 1], w, h).Some?
    ensures before + Gce + Descriptor(w, h) + [MinCodeSize] + rows + [0] == output + Blocks(frames[..k + 1], w, h).value
  {
    BlocksNext(frames, w, h, k);
    var bs := Blocks(frames[..k], w, h).value;
    BlockAppend(before, w, h, rows);
    AppendAssoc(output, bs, BlockBytes(w, h, rows));
  }

  lemma BlockAppend(before: seq<byte>, w: byte, h: byte, rows: seq<byte>)
    ensures before + Gce + Descriptor(w, h) + [MinCodeSize] + rows + [0] == before + BlockBytes(w, h, rows)
  {
  }

  /** `make_gif` (ani2gif.py:9-59). */
  method MakeGif(frames: seq<Ico>) returns (r: Option<seq<byte>>)
    ensures r == GifBytes(frames)
  {
    if |frames| == 0 || |frames[0].images| == 0 {
      return None;
    }
    var img := frames[0].images[0];
    var w := img.info.width;
    var h := img.info.height;
    var output := Header(w, h);
    var gct := ColorTable(img.colorMap);
    output := output + gct + Netscape;
    var written := WriteFrames(output, frames, w, h);
    if written.None? {
      return None;
    }
    output := written.value + [Trailer];
    r := Some(output);
  }

  // ---------------------------------------------------------------------
  // When make_gif succeeds

  /** Multiplying both sides of a <= b on the right by c keeps the order. */
  lemma MulMonoRight(a: nat, b: nat, c: nat)
    requires a <= b
    ensures a * c <= b * c
  {
  }

  /** a * b as a natural number. */
  lemma Product(a: nat, b: nat) returns (c: nat)
    ensures c == a * b
  {
    c := a * b;
  }

  lemma MulSucc(m: nat, c: nat)
    ensures (m + 1) * c == m * c + c
  {
  }

  lemma {:induction false} PixelsOk(f: Ico, start: nat, n: nat)
    ensures Pixels(f, start, n).Some? <==> forall p :: start <= p < start + n ==> Pixel(f, p).Some?
    decreases n
  {
    if n > 0 {
      PixelsOk(f, start, n - 1);
    }
  }

  lemma {:induction false} PixelsLength(f: Ico, start: nat, n: nat)
    requires Pixels(f, start, n).Some?
    ensures |Pixels(f, start, n).value| == n
    decreases n
  {
    if n > 0 {
      PixelsLength(f, start, n - 1);
    }
  }

  /** A row is written exactly when the width is below 255 and its w
      pixels can be read. */
  lemma RowOk(f: Ico, w: byte, i: nat)
    ensures Row(f, w, i).Some? <==> w < 0xFF && forall p :: i * w <= p < i * w + w ==> Pixel(f, p).Some?
  {
    PixelsOk(f, i * w, w);
  }

  lemma RowLength(f: Ico, w: byte, i: nat)
    requires Row(f, w, i).Some?
    ensures |Row(f, w, i).value| == w + 4
  {
    PixelsLength(f, i * w, w);
  }

  /** The first n rows are written exactly when n is 0 or the width is
      below 255 and the first n * w pixels can be read. */
  lemma {:induction false} RowsOk(f: Ico, w: byte, n: nat)
    ensures Rows(f, w, n).Some? <==> n == 0 || (w < 0xFF && forall p :: 0 <= p < n * w ==> Pixel(f, p).Some?)
    decreases n
  {
    if n > 0 {
      var m := n - 1;
      RowsOk(f, w, m);
      RowOk(f, w, m);
      MulSucc(m, w);
    }
  }

  lemma {:induction false} RowsLength(f: Ico, w: byte, n: nat)
    requires Rows(f, w, n).Some?
    ensures |Rows(f, w, n).value| == n * (w + 4)
    decreases n
  {
    if n > 0 {
      var m := n - 1;
      RowsLength(f, w, m);
      RowLength(f, w, m);
      MulSucc(m, w + 4);
    }
  }

  lemma {:induction false} BlocksOk(frames: seq<Ico>, w: byte, h: byte)
    ensures Blocks(frames, w, h).Some? <==> forall k :: 0 <= k < |frames| ==> Rows(frames[k], w, h).Some?
    decreases |frames|
  {
    if frames != [] {
      var m := |frames| - 1;
      var pre := frames[..m];
      BlocksOk(pre, w, h);
      assert forall k :: 0 <= k < m ==> pre[k] == frames[k];
    }
  }

  lemma {:induction false} BlocksLength(frames: seq<Ico>, w: byte, h: byte)
    requires Blocks(frames, w, h).Some?
    ensures |Blocks(frames, w, h).value| == |frames| * (20 + h * (w + 4))
    decreases |frames|
  {
    if frames != [] {
      var m := |frames| - 1;
      BlocksLength(frames[..m], w, h);
      RowsLength(frames[m], w, h);
      MulSucc(m, 20 + h * (w + 4));
    }
  }

  /** `make_gif` returns exactly when there is a first image and every
      frame's rows, at the first image's size, can be written. */
  lemma GifOk(frames: seq<Ico>)
    ensures GifBytes(frames).Some? <==> (frames != [] && frames[0].images != [] &&
      forall k :: 0 <= k < |frames| ==>
        Rows(frames[k], frames[0].images[0].info.width, frames[0].images[0].info.height).Some?)
  {
    if frames != [] && frames[0].images != [] {
      BlocksOk(frames, frames[0].images[0].info.width, frames[0].images[0].info.height);
    }
  }

  // ---------------------------------------------------------------------
  // The layout of the file

  lemma {:induction false} TriplesAt(cm: seq<Color>, c: nat)
    requires c < |cm|
    ensures |Triples(cm)| == 3 * |cm|
    ensures Triples(cm)[3 * c..3 * c + 3] == Triple(cm[c])
    decreases |cm|
  {
    var m := |cm| - 1;
    if c < m {
      TriplesAt(cm[..m], c);
      assert cm[..m][c] == cm[c];
    } else {
      if m > 0 {
        TriplesAt(cm[..m], 0);
      }
    }
  }

  lemma {:induction false} TriplesLength(cm: seq<Color>)
    ensures |Triples(cm)| == 3 * |cm|
  {
    if cm != [] {
      TriplesAt(cm, 0);
    }
  }

  /** Colour-map entry c becomes the red, green, blue triple at 3c of the
      global colour table. */
  lemma GctAt(cm: seq<Color>, c: nat)
    requires c < |cm|
    ensures |Gct(cm)| == 3 * (|cm| + PadEntries)
    ensures Gct(cm)[3 * c..3 * c + 3] == [cm[c].red, cm[c].green, cm[c].blue]
  {
    TriplesAt(cm, c);
  }

  /** 112 black entries follow the colour map. */
  lemma GctPad(cm: seq<Color>)
    ensures |Gct(cm)| == 3 * (|cm| + PadEntries)
    ensures forall i :: 3 * |cm| <= i < |Gct(cm)| ==> Gct(cm)[i] == 0
  {
    TriplesLength(cm);
  }

  /** The screen descriptor announces a 128-entry table (its low three bits
      are 6), so it matches the table written exactly when the colour map
      has 16 entries. */
  lemma GctMatchesHeader(cm: seq<Color>)
    ensures |Gct(cm)| / 3 == Pow2(ScreenFlags % 8 + 1) <==> |cm| == 16
  {
    GctPad(cm);
    assert Pow2(7) == 128 by {
      assert Pow2(1) == 2 && Pow2(2) == 4 && Pow2(3) == 8 && Pow2(4) == 16 && Pow2(5) == 32 && Pow2(6) == 64;
    }
  }

  /** The file is the header, the global colour table, the NETSCAPE block,
      the blocks and the trailer. */
  lemma FileLayout(w: byte, h: byte, cm: seq<Color>, bs: seq<byte>)
    ensures var g := 3 * (|cm| + PadEntries);
      var out := FileBytes(w, h, cm, bs);
      |out| == 32 + g + |bs| + 1 &&
      out[..13] == Header(w, h) && out[13..13 + g] == Gct(cm) &&
      out[13 + g..32 + g] == Netscape && out[32 + g..|out| - 1] == bs &&
      out[|out| - 1] == Trailer
  {
    GctPad(cm);
  }

  /** With w and h the size of the first image, the file is
      13 + 3 * (|color_map| + 112) + 19 + |frames| * (20 + h * (w + 4)) + 1
      bytes long. */
  lemma GifLength(frames: seq<Ico>)
    requires GifBytes(frames).Some?
    ensures var img := frames[0].images[0];
      var w: nat := img.info.width;
      var h: nat := img.info.height;
      |GifBytes(frames).value| == 13 + 3 * (|img.colorMap| + PadEntries) + 19 + |frames| * (20 + h * (w + 4)) + 1
  {
    var img := frames[0].images[0];
    var bs := Blocks(frames, img.info.width, img.info.height).value;
    FileLayout(img.info.width, img.info.height, img.colorMap, bs);
    BlocksLength(frames, img.info.width, img.info.height);
  }

  /** A block is the graphic control extension, the image descriptor, the
      code size 7, the rows and a terminating 0. */
  lemma BlockLayout(w: byte, h: byte, rs: seq<byte>)
    ensures var b := BlockBytes(w, h, rs);
      |b| == 20 + |rs| && b[..8] == Gce && b[8..18] == Descriptor(w, h) &&
      b[18] == MinCodeSize && b[19..|b| - 1] == rs && b[|b| - 1] == 0
  {
  }

  lemma {:induction false} PixelsAt(f: Ico, start: nat, n: nat, j: nat)
    requires Pixels(f, start, n).Some? && j < n
    ensures |Pixels(f, start, n).value| == n
    ensures Pixel(f, start + j).Some? && Pixels(f, start, n).value[j] == Pixel(f, start + j).value
    decreases n
  {
    PixelsLength(f, start, n);
    if j < n - 1 {
      PixelsAt(f, start, n - 1, j);
    } else {
      PixelsLength(f, start, n - 1);
    }
  }

  /** Byte y of row i sits at i * (w + 4) + y of the rows. */
  lemma {:induction false} RowsAt(f: Ico, w: byte, n: nat, i: nat, y: nat, o: nat)
    requires Rows(f, w, n).Some? && i < n && y < w + 4 && o == i * (w as int + 4) + y
    ensures Row(f, w, i).Some? && |Row(f, w, i).value| == w + 4
    ensures o < |Rows(f, w, n).value| && Rows(f, w, n).value[o] == Row(f, w, i).value[y]
    decreases n
  {
    var m := n - 1;
    var c := w + 4;
    var rs := Rows(f, w, m).value;
    assert Rows(f, w, n).value == rs + Row(f, w, m).value;
    RowsLength(f, w, m);
    if i < m {
      RowsAt(f, w, m, i, y, o);
      MulSucc(i, c);
      MulMonoRight(i + 1, m, c);
    } else {
      RowLength(f, w, i);
    }
  }

  /** Byte y of frame k's block sits at k * (20 + h * (w + 4)) + y of the
      blocks. */
  lemma {:induction false} BlocksAt(frames: seq<Ico>, w: byte, h: byte, k: nat, y: nat, o: nat)
    requires Blocks(frames, w, h).Some? && k < |frames| && y < 20 + h * (w as int + 4)
    requires o == k * (20 + h * (w as int + 4)) + y
    ensures Block(frames[k], w, h).Some? && |Block(frames[k], w, h).value| == 20 + h * (w as int + 4)
    ensures o < |Blocks(frames, w, h).value| && Blocks(frames, w, h).value[o] == Block(frames[k], w, h).value[y]
    decreases |frames|
  {
    var m := |frames| - 1;
    var pre := frames[..m];
    var size := 20 + h * (w + 4);
    var bs := Blocks(pre, w, h).value;
    assert Blocks(frames, w, h).value == bs + Block(frames[m], w, h).value;
    BlocksLength(pre, w, h);
    if k < m {
      assert pre[k] == frames[k];
      BlocksAt(pre, w, h, k, y, o);
      MulSucc(k, size);
      MulMonoRight(k + 1, m, size);
    } else {
      RowsLength(frames[k], w, h);
    }
  }

  /** Byte p of the blocks is byte at = 32 + 3 * (|cm| + 112) + p of the
      file, after the preamble. */
  lemma BlocksInFile(w: byte, h: byte, cm: seq<Color>, bs: seq<byte>, p: nat, at: nat)
    requires p < |bs| && at == 32 + 3 * (|cm| + PadEntries) + p
    ensures at < |FileBytes(w, h, cm, bs)| && FileBytes(w, h, cm, bs)[at] == bs[p]
  {
    GctPad(cm);
  }

  /** Byte p of the rows sits after the 19 bytes that open a block. */
  lemma RowsInBlock(w: byte, h: byte, rs: seq<byte>, p: nat)
    requires p < |rs|
    ensures 19 + p < |BlockBytes(w, h, rs)| && BlockBytes(w, h, rs)[19 + p] == rs[p]
  {
  }

  /** Pixel j of a row sits after its two-byte sub-block header. */
  lemma PixelsInRow(w: byte, ps: seq<byte>, j: nat)
    requires w < 0xFF && j < |ps|
    ensures 2 + j < |RowBytes(w, ps)| && RowBytes(w, ps)[2 + j] == ps[j]
  {
  }

  /** Byte 2 + j of row i is the frame's pixel s + j, where s = i * w is
      where the row starts. */
  lemma RowPixel(f: Ico, w: byte, i: nat, j: nat, s: nat)
    requires Row(f, w, i).Some? && j < w && s == i * w
    ensures Pixel(f, s + j).Some? && 2 + j < |Row(f, w, i).value|
    ensures Row(f, w, i).value[2 + j] == Pixel(f, s + j).value
  {
    var ps := Pixels(f, s, w).value;
    PixelsAt(f, s, w, j);
    PixelsInRow(w, ps, j);
  }

  /** Byte o = 19 + i * (w + 4) + 2 + j of frame f's block is the frame's
      pixel p = i * w + j. */
  lemma FramePixel(f: Ico, w: byte, h: byte, i: nat, j: nat, p: nat, o: nat)
    requires Block(f, w, h).Some? && i < h && j < w
    requires p == i * w + j && o == 19 + i * (w as int + 4) + 2 + j
    ensures Pixel(f, p).Some? && o < |Block(f, w, h).value|
    ensures Block(f, w, h).value[o] == Pixel(f, p).value
  {
    var rs := Rows(f, w, h).value;
    RowsAt(f, w, h, i, 2 + j, o - 19);
    var s := Product(i, w);
    RowPixel(f, w, i, j, s);
    RowsInBlock(w, h, rs, o - 19);
  }

  /** Row offsets stay inside the h rows of a frame. */
  lemma RowInside(w: nat, h: nat, i: nat, j: nat)
    requires i < h && j < w
    ensures 19 + i * (w + 4) + 2 + j < 20 + h * (w + 4)
  {
    MulSucc(i, w + 4);
    MulMonoRight(i + 1, h, w + 4);
  }

  /** Byte q = k * (20 + h * (w + 4)) + 19 + i * (w + 4) + 2 + j of the
      blocks is pixel p = i * w + j of frame k. */
  lemma BlocksPixel(frames: seq<Ico>, w: byte, h: byte, k: nat, i: nat, j: nat, p: nat) returns (q: nat)
    requires Blocks(frames, w, h).Some? && k < |frames| && i < h && j < w && p == i * w + j
    ensures q == k * (20 + h * (w as int + 4)) + 19 + i * (w as int + 4) + 2 + j
    ensures Pixel(frames[k], p).Some? && q < |Blocks(frames, w, h).value|
    ensures Blocks(frames, w, h).value[q] == Pixel(frames[k], p).value
  {
    var r := Product(i, w as int + 4);
    var y := 19 + r + 2 + j;
    RowInside(w, h, i, j);
    var c := Product(h, w as int + 4);
    var base := Product(k, 20 + c);
    q := base + y;
    BlocksAt(frames, w, h, k, y, q);
    FramePixel(frames[k], w, h, i, j, p, y);
  }

  /** Byte at of the file holding the blocks bs is pixel p = i * w + j of
      frame k. */
  lemma FilePixel(frames: seq<Ico>, w: byte, h: byte, cm: seq<Color>, bs: seq<byte>, k: nat, i: nat, j: nat, p: nat, at: nat)
    requires Blocks(frames, w, h) == Some(bs) && k < |frames| && i < h && j < w && p == i * w + j
    requires at == 32 + 3 * (|cm| + PadEntries) + k * (20 + h * (w as int + 4)) + 19 + i * (w as int + 4) + 2 + j
    ensures Pixel(frames[k], p).Some? && at < |FileBytes(w, h, cm, bs)|
    ensures FileBytes(w, h, cm, bs)[at] == Pixel(frames[k], p).value
  {
    var q := BlocksPixel(frames, w, h, k, i, j, p);
    BlocksInFile(w, h, cm, bs, q, at);
  }

  /** Pixel j of row i of frame k sits at byte at = 32 + 3 * (|color_map| +
      112) + k * (20 + h * (w + 4)) + 19 + i * (w + 4) + 2 + j of the file,
      where w, h and color_map are those of the first image; that byte is
      the frame's pixel p = i * w + j: MaxColor where masked, else its
      colour index. */
  lemma GifPixel(frames: seq<Ico>, k: nat, i: nat, j: nat, p: nat, at: nat)
    requires GifBytes(frames).Some? && k < |frames|
    requires var img := frames[0].images[0];
      var w: nat := img.info.width;
      var h: nat := img.info.height;
      i < h && j < w && p == i * w + j &&
      at == 32 + 3 * (|img.colorMap| + PadEntries) + k * (20 + h * (w + 4)) + 19 + i * (w + 4) + 2 + j
    ensures Pixel(frames[k], p).Some? && at < |GifBytes(frames).value|
    ensures GifBytes(frames).value[at] == Pixel(frames[k], p).value
  {
    var img := frames[0].images[0];
    var bs := GifBlocks(frames);
    FilePixel(frames, img.info.width, img.info.height, img.colorMap, bs, k, i, j, p, at);
  }

  /** A file make_gif writes is the preamble and trailer around the blocks. */
  lemma GifBlocks(frames: seq<Ico>) returns (bs: seq<byte>)
    requires GifBytes(frames).Some?
    ensures var img := frames[0].images[0];
      Blocks(frames, img.info.width, img.info.height) == Some(bs) &&
      GifBytes(frames).value == FileBytes(img.info.width, img.info.height, img.colorMap, bs)
  {
    var img := frames[0].images[0];
    bs := Blocks(frames, img.info.width, img.info.height).value;
  }
}
