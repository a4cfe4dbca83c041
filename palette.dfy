/** The two colour-reduction passes of a decoded ICO image.
    `posterize` looks for the finest level i in 0..7 at which clearing the low
    i bits of blue, green and red (and more of alpha) leaves at most
    `color_count` distinct colours, and returns those colours in no
    particular order. `palettize` maps every pixel to an index into a given
    palette: the transparency index, an exact match, or else the nearest
    entry in the largest-channel-difference distance over red, green and
    blue. */
module Palette {
  import opened Wrappers
  import opened Bytes
  import opened Bits
  import opened Bmp
  import opened Ico

  // ---------------------------------------------------------------------
  // The colour of a pixel value

  /** Pixel values of 24 and 32 bpp images are turned into colours through
      their big-endian bytes, the most significant byte going to `blue`. */
  function Unpack32(j: nat): (c: Color)
    requires j < 0x1_0000_0000
  {
    Color(j / 0x100_0000, j / 0x1_0000 % 0x100, j / 0x100 % 0x100, j % 0x100)
  }

  /** The three bytes of a 24 bpp value; `posterize` adds an opaque alpha. */
  function Unpack24(j: nat): (c: Color)
    requires j < 0x100_0000
  {
    Color(j / 0x1_0000, j / 0x100 % 0x100, j % 0x100, 0xFF)
  }

  /** The big-endian value of a colour's four bytes. */
  function Pack32(c: Color): nat
  {
    ((c.blue * 0x100 + c.green) * 0x100 + c.red) * 0x100 + c.alpha
  }

  function Pack24(c: Color): nat
  {
    (c.blue * 0x100 + c.green) * 0x100 + c.red
  }

  lemma Unpack32RoundTrip(c: Color)
    ensures Pack32(c) < 0x1_0000_0000 && Unpack32(Pack32(c)) == c
  {
    var j := Pack32(c);
    var j1 := (c.blue * 0x100 + c.green) * 0x100 + c.red;
    var j2 := c.blue * 0x100 + c.green;
    assert j / 0x100 == j1 && j % 0x100 == c.alpha;
    assert j1 / 0x100 == j2 && j1 % 0x100 == c.red;
    assert j2 / 0x100 == c.blue && j2 % 0x100 == c.green;
    DivDiv(j, j1, j2);
  }

  lemma DivDiv(j: nat, j1: nat, j2: nat)
    requires j1 == j / 0x100 && j2 == j1 / 0x100
    ensures j / 0x1_0000 == j2 && j / 0x100_0000 == j2 / 0x100
  {
  }

  lemma Pack32OfUnpack(j: nat)
    requires j < 0x1_0000_0000
    ensures Pack32(Unpack32(j)) == j
  {
    var j1 := j / 0x100;
    var j2 := j1 / 0x100;
    DivDiv(j, j1, j2);
    assert j == j1 * 0x100 + j % 0x100;
    assert j1 == j2 * 0x100 + j1 % 0x100;
    assert j2 == (j2 / 0x100) * 0x100 + j2 % 0x100;
  }

  lemma Pack24OfUnpack(j: nat)
    requires j < 0x100_0000
    ensures Pack24(Unpack24(j)) == j && Unpack24(j).alpha == 0xFF
  {
    var j1 := j / 0x100;
    assert j / 0x1_0000 == j1 / 0x100;
    assert j == j1 * 0x100 + j % 0x100;
    assert j1 == (j1 / 0x100) * 0x100 + j1 % 0x100;
  }

  /** The colour `posterize` reads for pixel value j: the colour-table entry
      at 8 bpp or less, otherwise the value's bytes. None where Python
      raises: an index past the table, a value too wide for `to_bytes`, or
      an unsupported depth. */
  function SourceColor(img: IcoImage, j: nat): Option<Color>
  {
    var bpp := img.bmpHeader.bitsPerPixel;
    if bpp <= 8 then (if j < |img.colorMap| then Some(img.colorMap[j]) else None)
    else if bpp == 24 then (if j < 0x100_0000 then Some(Unpack24(j)) else None)
    else if bpp == 32 then (if j < 0x1_0000_0000 then Some(Unpack32(j)) else None)
    else None
  }

  /** The colour `palettize` reads for pixel value j. At 24 bpp it builds a
      `Color` from three values, which raises, so that depth fails too. */
  function PaletteColor(img: IcoImage, j: nat): Option<Color>
  {
    var bpp := img.bmpHeader.bitsPerPixel;
    if bpp <= 8 then (if j < |img.colorMap| then Some(img.colorMap[j]) else None)
    else if bpp == 32 then (if j < 0x1_0000_0000 then Some(Unpack32(j)) else None)
    else None
  }

  /** Where each lookup succeeds, and that a wide value's colour holds
      exactly its bytes. */
  lemma ColorLookup(img: IcoImage, j: nat)
    ensures var bpp := img.bmpHeader.bitsPerPixel;
      SourceColor(img, j).Some? <==> ((bpp <= 8 && j < |img.colorMap|)
        || (bpp == 24 && j < 0x100_0000) || (bpp == 32 && j < 0x1_0000_0000))
    ensures var bpp := img.bmpHeader.bitsPerPixel;
      PaletteColor(img, j).Some? <==> (bpp <= 8 && j < |img.colorMap|) || (bpp == 32 && j < 0x1_0000_0000)
    ensures img.bmpHeader.bitsPerPixel <= 8 && j < |img.colorMap| ==>
      SourceColor(img, j) == PaletteColor(img, j) == Some(img.colorMap[j])
    ensures img.bmpHeader.bitsPerPixel == 32 && j < 0x1_0000_0000 ==>
      SourceColor(img, j) == PaletteColor(img, j) && Pack32(SourceColor(img, j).value) == j
    ensures img.bmpHeader.bitsPerPixel == 24 && j < 0x100_0000 ==>
      Pack24(SourceColor(img, j).value) == j && SourceColor(img, j).value.alpha == 0xFF
  {
    if img.bmpHeader.bitsPerPixel == 32 && j < 0x1_0000_0000 {
      Pack32OfUnpack(j);
    }
    if img.bmpHeader.bitsPerPixel == 24 && j < 0x100_0000 {
      Pack24OfUnpack(j);
    }
  }

  // ---------------------------------------------------------------------
  // posterize

  /** A tuple of the set `posterize` collects; each field holds the shifted
      value of the colour field of the same name. */
  datatype Shade = Shade(blue: nat, green: nat, red: nat, alpha: nat)

  /** Transparent and masked pixels all fold to this one tuple. */
  const Clear := Shade(0, 0, 0, 0)

  /** `max(i, 8 - alpha_bits)`: the shift applied to alpha at level i. */
  function AlphaShift(i: nat, alphaBits: int): nat
  {
    if 8 - alphaBits > i then 8 - alphaBits else i
  }

  /** The tuple pixel x adds at level i; None where Python raises (no
      colour, or an opaque pixel past the end of the mask). */
  function FoldPixel(img: IcoImage, alphaBits: int, i: nat, x: nat): Option<Shade>
    requires x < |img.imageData|
  {
    match SourceColor(img, img.imageData[x])
    case None => None
    case Some(c) =>
      if c.alpha < 128 then Some(Clear)
      else if x >= |img.maskData| then None
      else if img.maskData[x] == 1 then Some(Clear)
      else Some(Shade(Shr(c.blue, i), Shr(c.green, i), Shr(c.red, i), Shr(c.alpha, AlphaShift(i, alphaBits))))
  }

  /** Where the pixel scan of one level stands. */
  datatype Scan = Raised | Overflowed | Collected(shades: set<Shade>)

  /** The scan of level i over the first k pixels. It stops, and later
      pixels are never looked at, once the set exceeds `color_count`. */
  function ScanLevel(img: IcoImage, colorCount: int, alphaBits: int, i: nat, k: nat): Scan
    requires k <= |img.imageData|
    decreases k
  {
    if k == 0 then Collected({})
    else match ScanLevel(img, colorCount, alphaBits, i, k - 1)
      case Collected(p) =>
        (match FoldPixel(img, alphaBits, i, k - 1)
         case None => Raised
         case Some(s) => if |p + {s}| > colorCount then Overflowed else Collected(p + {s}))
      case other => other
  }

  /** The complete scan of level i. */
  function LevelScan(img: IcoImage, colorCount: int, alphaBits: int, i: nat): Scan
  {
    ScanLevel(img, colorCount, alphaBits, i, |img.imageData|)
  }

  /** A level that neither raises nor fits: the search goes on past it. */
  predicate Skipped(img: IcoImage, colorCount: int, alphaBits: int, i: nat)
  {
    var s := LevelScan(img, colorCount, alphaBits, i);
    s.Overflowed? || (s.Collected? && |s.shades| > colorCount)
  }

  datatype Level = Raises | NoLevel | LevelFound(level: nat, shades: set<Shade>)

  /** The first level from i on whose scan fits in `color_count`. */
  function FirstLevel(img: IcoImage, colorCount: int, alphaBits: int, i: nat): Level
    requires i <= 8
    decreases 8 - i
  {
    if i == 8 then NoLevel
    else match LevelScan(img, colorCount, alphaBits, i)
      case Raised => Raises
      case Collected(p) => if |p| <= colorCount then LevelFound(i, p) else FirstLevel(img, colorCount, alphaBits, i + 1)
      case Overflowed => FirstLevel(img, colorCount, alphaBits, i + 1)
  }

  /** A tuple whose fields, shifted back, are bytes again. */
  predicate Unfoldable(s: Shade, i: nat, sa: nat)
  {
    Shl(s.blue, i) < 0x100 && Shl(s.green, i) < 0x100 && Shl(s.red, i) < 0x100 && Shl(s.alpha, sa) < 0x100
  }

  /** The output colour of a tuple: each field shifted back into the field
      of the same name. */
  function Unfold(s: Shade, i: nat, sa: nat): Color
    requires Unfoldable(s, i, sa)
  {
    Color(Shl(s.blue, i), Shl(s.green, i), Shl(s.red, i), Shl(s.alpha, sa))
  }

  /** The colours of a level's tuples. */
  ghost function Image(p: set<Shade>, i: nat, sa: nat): set<Color>
  {
    set s | s in p && Unfoldable(s, i, sa) :: Unfold(s, i, sa)
  }

  /** `out` lists the colours of `colors`, each exactly once. */
  ghost predicate Enumerates(out: seq<Color>, colors: set<Color>)
  {
    (forall a, b :: 0 <= a < b < |out| ==> out[a] != out[b])
    && (forall c :: c in colors <==> c in out)
  }

  /** What `posterize(color_count, alpha_bits)` returns: Fail where it
      raises, `None` when no level fits, and otherwise the colours of the
      first fitting level in some order. */
  ghost predicate Posterized(img: IcoImage, colorCount: int, alphaBits: int, r: Result<Option<seq<Color>>>)
  {
    if |img.colorMap| > 0 && colorCount >= |img.colorMap| then r == Ok(Some(img.colorMap))
    else match FirstLevel(img, colorCount, alphaBits, 0)
      case Raises => r == Fail
      case NoLevel => r == Ok(None)
      case LevelFound(i, p) =>
        r.Ok? && r.value.Some? && |r.value.value| == |p|
        && Enumerates(r.value.value, Image(p, i, AlphaShift(i, alphaBits)))
  }

  lemma {:induction false} ShrShl(x: nat, n: nat)
    ensures Shl(Shr(x, n), n) <= x
    ensures Shl(Shr(x, n), n) == x - LowBits(x, n)
  {
    LowBitsSplit(x, n);
  }

  lemma FoldUnfoldable(img: IcoImage, alphaBits: int, i: nat, x: nat)
    requires x < |img.imageData| && FoldPixel(img, alphaBits, i, x).Some?
    ensures Unfoldable(FoldPixel(img, alphaBits, i, x).value, i, AlphaShift(i, alphaBits))
  {
    var c := SourceColor(img, img.imageData[x]).value;
    var sa := AlphaShift(i, alphaBits);
    ShlZero(i);
    ShlZero(sa);
    ShrShl(c.blue, i);
    ShrShl(c.green, i);
    ShrShl(c.red, i);
    ShrShl(c.alpha, sa);
  }

  /** Every collected tuple can be shifted back. */
  lemma ScanUnfoldable(img: IcoImage, colorCount: int, alphaBits: int, i: nat, k: nat, s: Shade)
    requires k <= |img.imageData| && ScanLevel(img, colorCount, alphaBits, i, k).Collected?
    requires s in ScanLevel(img, colorCount, alphaBits, i, k).shades
    ensures Unfoldable(s, i, AlphaShift(i, alphaBits))
  {
    ScanOnlyPixels(img, colorCount, alphaBits, i, k, s);
    var x :| 0 <= x < k && FoldPixel(img, alphaBits, i, x) == Some(s);
    FoldUnfoldable(img, alphaBits, i, x);
  }

  /** One pixel of the scan. */
  lemma ScanStep(img: IcoImage, colorCount: int, alphaBits: int, i: nat, k: nat, p: set<Shade>)
    requires k < |img.imageData| && ScanLevel(img, colorCount, alphaBits, i, k) == Collected(p)
    ensures FoldPixel(img, alphaBits, i, k).None? ==> ScanLevel(img, colorCount, alphaBits, i, k + 1) == Raised
    ensures FoldPixel(img, alphaBits, i, k).Some? ==>
      var q := p + {FoldPixel(img, alphaBits, i, k).value};
      ScanLevel(img, colorCount, alphaBits, i, k + 1) == if |q| > colorCount then Overflowed else Collected(q)
  {
  }

  /** Once a scan raises or overflows it stays so. */
  lemma {:induction false} ScanSettles(img: IcoImage, colorCount: int, alphaBits: int, i: nat, k: nat, n: nat)
    requires k <= n <= |img.imageData| && !ScanLevel(img, colorCount, alphaBits, i, k).Collected?
    ensures ScanLevel(img, colorCount, alphaBits, i, n) == ScanLevel(img, colorCount, alphaBits, i, k)
    decreases n
  {
    if n > k {
      ScanSettles(img, colorCount, alphaBits, i, k, n - 1);
    }
  }

  /** Different tuples give different colours. */
  lemma UnfoldInjective(s: Shade, t: Shade, i: nat, sa: nat)
    requires Unfoldable(s, i, sa) && Unfoldable(t, i, sa) && Unfold(s, i, sa) == Unfold(t, i, sa)
    ensures s == t
  {
    ShlLinear(s.blue, t.blue, i);
    ShlLinear(t.blue, s.blue, i);
    ShlLinear(s.green, t.green, i);
    ShlLinear(t.green, s.green, i);
    ShlLinear(s.red, t.red, i);
    ShlLinear(t.red, s.red, i);
    ShlLinear(s.alpha, t.alpha, sa);
    ShlLinear(t.alpha, s.alpha, sa);
  }

  /** The colours of `done + {s}` for a new tuple s. */
  lemma ImageStep(done: set<Shade>, s: Shade, i: nat, sa: nat)
    requires Unfoldable(s, i, sa) && s !in done
    requires forall d :: d in done ==> Unfoldable(d, i, sa)
    ensures Image(done + {s}, i, sa) == Image(done, i, sa) + {Unfold(s, i, sa)}
    ensures Unfold(s, i, sa) !in Image(done, i, sa)
  {
    if Unfold(s, i, sa) in Image(done, i, sa) {
      var d :| d in done && Unfoldable(d, i, sa) && Unfold(d, i, sa) == Unfold(s, i, sa);
      UnfoldInjective(d, s, i, sa);
      assert false;
    }
  }

  lemma EnumeratesStep(out: seq<Color>, colors: set<Color>, c: Color)
    requires Enumerates(out, colors) && c !in colors
    ensures Enumerates(out + [c], colors + {c})
  {
  }

  /** `for r, g, b, a in palette: new_color_map.append(Color(...))`. */
  method UnfoldAll(palette: set<Shade>, i: nat, sa: nat) returns (out: seq<Color>)
    requires forall s :: s in palette ==> Unfoldable(s, i, sa)
    ensures |out| == |palette| && Enumerates(out, Image(palette, i, sa))
  {
    out := [];
    var rest := palette;
    ghost var done: set<Shade> := {};
    while rest != {}
      invariant rest + done == palette && rest !! done
      invariant |out| == |done|
      invariant Enumerates(out, Image(done, i, sa))
      decreases |rest|
    {
      var s :| s in rest;
      ImageStep(done, s, i, sa);
      EnumeratesStep(out, Image(done, i, sa), Unfold(s, i, sa));
      out := out + [Unfold(s, i, sa)];
      rest := rest - {s};
      done := done + {s};
    }
    assert done == palette;
  }

  /** The pixel loop of one level: `ok` is false where it raises, and
      otherwise `palette` is the collected set, which exceeds `color_count`
      exactly when the loop broke off early. */
  method CollectLevel(img: IcoImage, colorCount: int, alphaBits: int, i: nat) returns (ok: bool, palette: set<Shade>)
    ensures !ok <==> LevelScan(img, colorCount, alphaBits, i).Raised?
    ensures ok ==> (LevelScan(img, colorCount, alphaBits, i) == Collected(palette)
      || (LevelScan(img, colorCount, alphaBits, i).Overflowed? && |palette| > colorCount))
  {
    var n := |img.imageData|;
    palette := {};
    var index := 0;
    while index < n
      invariant index <= n
      invariant ScanLevel(img, colorCount, alphaBits, i, index) == Collected(palette)
    {
      var s := FoldPixel(img, alphaBits, i, index);
      ScanStep(img, colorCount, alphaBits, i, index, palette);
      if s.None? {
        ScanSettles(img, colorCount, alphaBits, i, index + 1, n);
        return false, palette;
      }
      palette := palette + {s.value};
      if |palette| > colorCount {
        ScanSettles(img, colorCount, alphaBits, i, index + 1, n);
        return true, palette;
      }
      index := index + 1;
    }
    return true, palette;
  }

  /** `IcoImage.posterize(color_count, alpha_bits)`. */
  method Posterize(img: IcoImage, colorCount: int, alphaBits: int) returns (r: Result<Option<seq<Color>>>)
    ensures Posterized(img, colorCount, alphaBits, r)
  {
    if |img.colorMap| > 0 && colorCount >= |img.colorMap| {
      return Ok(Some(img.colorMap));
    }
    var i := 0;
    while i < 8
      invariant 0 <= i <= 8
      invariant FirstLevel(img, colorCount, alphaBits, 0) == FirstLevel(img, colorCount, alphaBits, i)
    {
      var ok, palette := CollectLevel(img, colorCount, alphaBits, i);
      if !ok {
        return Fail;
      }
      if |palette| <= colorCount {
        forall s | s in palette
          ensures Unfoldable(s, i, AlphaShift(i, alphaBits))
        {
          ScanUnfoldable(img, colorCount, alphaBits, i, |img.imageData|, s);
        }
        var out := UnfoldAll(palette, i, AlphaShift(i, alphaBits));
        return Ok(Some(out));
      }
      i := i + 1;
    }
    return Ok(None);
  }

  /** The search takes the first level that fits, past levels that only
      overflow. */
  lemma {:induction false} FirstLevelFound(img: IcoImage, colorCount: int, alphaBits: int, j: nat)
    requires j <= 8
    ensures var lv := FirstLevel(img, colorCount, alphaBits, j);
      lv.LevelFound? ==> (j <= lv.level < 8
        && LevelScan(img, colorCount, alphaBits, lv.level) == Collected(lv.shades)
        && |lv.shades| <= colorCount
        && forall l :: j <= l < lv.level ==> Skipped(img, colorCount, alphaBits, l))
    decreases 8 - j
  {
    if j < 8 {
      var s := LevelScan(img, colorCount, alphaBits, j);
      if s.Overflowed? || (s.Collected? && |s.shades| > colorCount) {
        assert Skipped(img, colorCount, alphaBits, j);
        assert FirstLevel(img, colorCount, alphaBits, j) == FirstLevel(img, colorCount, alphaBits, j + 1);
        FirstLevelFound(img, colorCount, alphaBits, j + 1);
      }
    }
  }

  /** `posterize` answers `None` exactly when every level overflows. */
  lemma {:induction false} FirstLevelNone(img: IcoImage, colorCount: int, alphaBits: int, j: nat)
    requires j <= 8
    ensures FirstLevel(img, colorCount, alphaBits, j).NoLevel? <==>
      forall l :: j <= l < 8 ==> Skipped(img, colorCount, alphaBits, l)
    decreases 8 - j
  {
    if j < 8 {
      FirstLevelNone(img, colorCount, alphaBits, j + 1);
      if Skipped(img, colorCount, alphaBits, j) {
        assert FirstLevel(img, colorCount, alphaBits, j) == FirstLevel(img, colorCount, alphaBits, j + 1);
        assert (forall l :: j <= l < 8 ==> Skipped(img, colorCount, alphaBits, l))
          <==> (forall l :: j + 1 <= l < 8 ==> Skipped(img, colorCount, alphaBits, l));
      } else {
        assert !FirstLevel(img, colorCount, alphaBits, j).NoLevel?;
      }
    }
  }

  /** It raises only when some level's scan raises before a level fits. */
  lemma {:induction false} FirstLevelRaises(img: IcoImage, colorCount: int, alphaBits: int, j: nat)
    requires j <= 8 && FirstLevel(img, colorCount, alphaBits, j).Raises?
    ensures exists l :: (j <= l < 8 && LevelScan(img, colorCount, alphaBits, l).Raised?
      && forall m :: j <= m < l ==> Skipped(img, colorCount, alphaBits, m))
    decreases 8 - j
  {
    if !LevelScan(img, colorCount, alphaBits, j).Raised? {
      FirstLevelRaises(img, colorCount, alphaBits, j + 1);
      var l :| j + 1 <= l < 8 && LevelScan(img, colorCount, alphaBits, l).Raised?
        && forall m :: j + 1 <= m < l ==> Skipped(img, colorCount, alphaBits, m);
      assert Skipped(img, colorCount, alphaBits, j);
    }
  }

  /** A completed scan holds the tuple of every pixel scanned ... */
  lemma {:induction false} ScanCovers(img: IcoImage, colorCount: int, alphaBits: int, i: nat, k: nat, x: nat)
    requires x < k <= |img.imageData| && ScanLevel(img, colorCount, alphaBits, i, k).Collected?
    ensures FoldPixel(img, alphaBits, i, x).Some?
    ensures FoldPixel(img, alphaBits, i, x).value in ScanLevel(img, colorCount, alphaBits, i, k).shades
  {
    if x < k - 1 {
      ScanCovers(img, colorCount, alphaBits, i, k - 1, x);
    }
  }

  /** ... and nothing else. */
  lemma {:induction false} ScanOnlyPixels(img: IcoImage, colorCount: int, alphaBits: int, i: nat, k: nat, s: Shade)
    requires k <= |img.imageData| && ScanLevel(img, colorCount, alphaBits, i, k).Collected?
    requires s in ScanLevel(img, colorCount, alphaBits, i, k).shades
    ensures exists x :: 0 <= x < k && FoldPixel(img, alphaBits, i, x) == Some(s)
  {
    var prev := ScanLevel(img, colorCount, alphaBits, i, k - 1);
    if prev.Collected? && s in prev.shades {
      ScanOnlyPixels(img, colorCount, alphaBits, i, k - 1, s);
    } else {
      assert FoldPixel(img, alphaBits, i, k - 1) == Some(s);
    }
  }

  /** v with its low n bits cleared. */
  function ClearLow(v: byte, n: nat): (r: byte)
    ensures r <= v && LowBits(r, n) == 0
  {
    LowBitsSplit(v, n);
    LowBitsOfShl(Shr(v, n), n, n);
    ShlZero(n);
    v - LowBits(v, n)
  }

  /** The colour a pixel of colour c stands for at level i: blue, green and
      red with their low i bits cleared and alpha with its low `sa` bits
      cleared, or all zero when it is transparent or masked. */
  function LevelColor(c: Color, masked: bool, i: nat, sa: nat): Color
  {
    if c.alpha < 128 || masked then Color(0, 0, 0, 0)
    else Color(ClearLow(c.blue, i), ClearLow(c.green, i), ClearLow(c.red, i), ClearLow(c.alpha, sa))
  }

  /** Folding a pixel and shifting the tuple back gives its level colour. */
  lemma FoldAgrees(img: IcoImage, alphaBits: int, i: nat, x: nat)
    requires x < |img.imageData| && FoldPixel(img, alphaBits, i, x).Some?
    ensures SourceColor(img, img.imageData[x]).Some?
    ensures var s := FoldPixel(img, alphaBits, i, x).value;
      var sa := AlphaShift(i, alphaBits);
      Unfoldable(s, i, sa) && Unfold(s, i, sa) == LevelColor(SourceColor(img, img.imageData[x]).value,
        x < |img.maskData| && img.maskData[x] == 1, i, sa)
  {
    var c := SourceColor(img, img.imageData[x]).value;
    var sa := AlphaShift(i, alphaBits);
    FoldUnfoldable(img, alphaBits, i, x);
    ShlZero(i);
    ShlZero(sa);
    ShrShl(c.blue, i);
    ShrShl(c.green, i);
    ShrShl(c.red, i);
    ShrShl(c.alpha, sa);
  }

  /** At a level whose scan completes, every pixel's level colour is among
      the colours `posterize` returns for that level. */
  lemma PixelRepresented(img: IcoImage, colorCount: int, alphaBits: int, i: nat, x: nat)
    requires x < |img.imageData| && LevelScan(img, colorCount, alphaBits, i).Collected?
    ensures SourceColor(img, img.imageData[x]).Some?
    ensures LevelColor(SourceColor(img, img.imageData[x]).value, x < |img.maskData| && img.maskData[x] == 1,
      i, AlphaShift(i, alphaBits)) in Image(LevelScan(img, colorCount, alphaBits, i).shades, i, AlphaShift(i, alphaBits))
  {
    ScanCovers(img, colorCount, alphaBits, i, |img.imageData|, x);
    FoldAgrees(img, alphaBits, i, x);
    var s := FoldPixel(img, alphaBits, i, x).value;
    var sa := AlphaShift(i, alphaBits);
    assert Unfold(s, i, sa) in Image(LevelScan(img, colorCount, alphaBits, i).shades, i, sa);
  }

  /** The output colours have no bit set below the level. */
  lemma LowBitsCleared(p: set<Shade>, i: nat, sa: nat, c: Color)
    requires c in Image(p, i, sa)
    ensures LowBits(c.blue, i) == 0 && LowBits(c.green, i) == 0 && LowBits(c.red, i) == 0
    ensures LowBits(c.alpha, sa) == 0
  {
    var s :| s in p && Unfoldable(s, i, sa) && Unfold(s, i, sa) == c;
    LowBitsOfShl(s.blue, i, i);
    LowBitsOfShl(s.green, i, i);
    LowBitsOfShl(s.red, i, i);
    LowBitsOfShl(s.alpha, sa, sa);
    ShlZero(i);
    ShlZero(sa);
  }

  /** An image of an unsupported depth with at least one pixel makes
      `posterize` raise. */
  lemma UnsupportedDepthRaises(img: IcoImage, colorCount: int, alphaBits: int)
    requires var bpp := img.bmpHeader.bitsPerPixel; bpp > 8 && bpp != 24 && bpp != 32
    requires |img.imageData| > 0
    ensures FirstLevel(img, colorCount, alphaBits, 0) == Raises
  {
    assert ScanLevel(img, colorCount, alphaBits, 0, 1) == Raised;
    ScanSettles(img, colorCount, alphaBits, 0, 1, |img.imageData|);
  }

  // ---------------------------------------------------------------------
  // palettize

  function AbsDiff(a: int, b: int): nat
  {
    Max(a, b) - Min(a, b)
  }

  /** The largest difference over red, green and blue; alpha is ignored. */
  function Distance(c: Color, d: Color): (r: nat)
    ensures r < 0x100
    ensures r == 0 <==> c.red == d.red && c.green == d.green && c.blue == d.blue
  {
    Max(Max(AbsDiff(c.red, d.red), AbsDiff(c.green, d.green)), AbsDiff(c.blue, d.blue))
  }

  /** b is the lowest index of minimal distance to c, and 0 for an empty
      palette. */
  predicate IsNearest(c: Color, pal: seq<Color>, b: nat)
  {
    (pal == [] ==> b == 0)
    && (pal != [] ==> (b < |pal|
      && (forall k :: 0 <= k < |pal| ==> Distance(c, pal[b]) <= Distance(c, pal[k]))
      && (forall k :: 0 <= k < b ==> Distance(c, pal[b]) < Distance(c, pal[k]))))
  }

  function Nearest(c: Color, pal: seq<Color>): (b: nat)
    ensures IsNearest(c, pal, b)
    decreases |pal|
  {
    if |pal| <= 1 then 0
    else
      var b := Nearest(c, pal[..|pal| - 1]);
      NearestStep(c, pal, b);
      if Distance(c, pal[|pal| - 1]) < Distance(c, pal[b]) then |pal| - 1 else b
  }

  lemma NearestStep(c: Color, pal: seq<Color>, b: nat)
    requires |pal| >= 2 && IsNearest(c, pal[..|pal| - 1], b)
    ensures IsNearest(c, pal, if Distance(c, pal[|pal| - 1]) < Distance(c, pal[b]) then |pal| - 1 else b)
  {
    var init := pal[..|pal| - 1];
    assert forall k :: 0 <= k < |init| ==> init[k] == pal[k];
  }

  lemma NearestUnique(c: Color, pal: seq<Color>, b: nat)
    requires IsNearest(c, pal, b)
    ensures b == Nearest(c, pal)
  {
  }

  /** `new_color_map.index(color)`: the first index holding c. */
  function FirstIndex(pal: seq<Color>, c: Color): (k: nat)
    requires c in pal
    ensures k < |pal| && pal[k] == c
    ensures forall m :: 0 <= m < k ==> pal[m] != c
  {
    if pal[0] == c then 0 else 1 + FirstIndex(pal[1..], c)
  }

  /** `transparency_index`, with -1 standing for the last entry. */
  function TransparencyIndex(pal: seq<Color>, t: int): int
  {
    if t == -1 then |pal| - 1 else t
  }

  /** Whether `mask` is given and non-empty (Python truthiness). */
  predicate HasMask(mask: Option<seq<int>>)
  {
    mask.Some? && mask.value != []
  }

  /** The index `palettize` emits for pixel x; None where Python raises. */
  function PixelIndex(img: IcoImage, pal: seq<Color>, t: int, mask: Option<seq<int>>, x: nat): Option<int>
    requires x < |img.imageData|
  {
    match PaletteColor(img, img.imageData[x])
    case None => None
    case Some(c) =>
      if c.alpha < 128 then Some(TransparencyIndex(pal, t))
      else if HasMask(mask) && x >= |mask.value| then None
      else if HasMask(mask) && mask.value[x] == 1 then Some(TransparencyIndex(pal, t))
      else if c in pal then Some(FirstIndex(pal, c))
      else Some(Nearest(c, pal))
  }

  /** The inner loop of `palettize`: scan the palette keeping the first
      entry of strictly smallest distance, starting from a margin of 1000. */
  method FindNearest(c: Color, pal: seq<Color>) returns (best: nat)
    ensures IsNearest(c, pal, best) && best == Nearest(c, pal)
  {
    best := 0;
    var margin := 1000;
    var k := 0;
    while k < |pal|
      invariant k <= |pal|
      invariant k == 0 ==> best == 0 && margin == 1000
      invariant k > 0 ==> (best < k && margin == Distance(c, pal[best])
        && (forall m :: 0 <= m < k ==> margin <= Distance(c, pal[m]))
        && (forall m :: 0 <= m < best ==> margin < Distance(c, pal[m])))
    {
      var d := Distance(c, pal[k]);
      if d < margin {
        margin := d;
        best := k;
      }
      k := k + 1;
    }
    NearestUnique(c, pal, best);
  }

  /** `IcoImage.palettize(new_color_map, transparency_index, mask)`. */
  method Palettize(img: IcoImage, pal: seq<Color>, t: int, mask: Option<seq<int>>) returns (r: Option<seq<int>>)
    ensures r.Some? <==> forall x :: 0 <= x < |img.imageData| ==> PixelIndex(img, pal, t, mask, x).Some?
    ensures r.Some? ==> (|r.value| == |img.imageData|
      && forall x :: 0 <= x < |img.imageData| ==> PixelIndex(img, pal, t, mask, x) == Some(r.value[x]))
  {
    var ti := t;
    if t == -1 {
      ti := |pal| - 1;
    }
    var pixels: seq<int> := [];
    var index := 0;
    while index < |img.imageData|
      invariant index <= |img.imageData| && |pixels| == index
      invariant forall x :: 0 <= x < index ==> PixelIndex(img, pal, t, mask, x) == Some(pixels[x])
    {
      var color := PaletteColor(img, img.imageData[index]);
      if color.None? {
        assert PixelIndex(img, pal, t, mask, index).None?;
        return None;
      }
      var c := color.value;
      if c.alpha < 128 {
        pixels := pixels + [ti];
      } else if HasMask(mask) && index >= |mask.value| {
        assert PixelIndex(img, pal, t, mask, index).None?;
        return None;
      } else if HasMask(mask) && mask.value[index] == 1 {
        pixels := pixels + [ti];
      } else if c in pal {
        pixels := pixels + [FirstIndex(pal, c)];
      } else {
        var best := FindNearest(c, pal);
        pixels := pixels + [best];
      }
      index := index + 1;
    }
    return Some(pixels);
  }

  /** What the emitted index means: the transparency index for a
      transparent or masked pixel, else the first exact match, else the
      lowest index of minimal distance. */
  lemma PixelIndexMeaning(img: IcoImage, pal: seq<Color>, t: int, mask: Option<seq<int>>, x: nat)
    requires x < |img.imageData| && PixelIndex(img, pal, t, mask, x).Some?
    ensures PaletteColor(img, img.imageData[x]).Some?
    ensures var c := PaletteColor(img, img.imageData[x]).value;
      var v := PixelIndex(img, pal, t, mask, x).value;
      var hidden := c.alpha < 128 || (HasMask(mask) && mask.value[x] == 1);
      (hidden ==> v == TransparencyIndex(pal, t))
      && (!hidden && c in pal ==> 0 <= v < |pal| && pal[v] == c && forall m :: 0 <= m < v ==> pal[m] != c)
      && (!hidden && c !in pal ==> v >= 0 && IsNearest(c, pal, v))
  {
  }

  /** With the default transparency index and a non-empty palette, every
      emitted index is an index of the palette. */
  lemma IndicesInRange(img: IcoImage, pal: seq<Color>, mask: Option<seq<int>>, x: nat)
    requires x < |img.imageData| && pal != [] && PixelIndex(img, pal, -1, mask, x).Some?
    ensures 0 <= PixelIndex(img, pal, -1, mask, x).value < |pal|
  {
  }

  /** An exact match is also at distance 0, but the nearest-entry rule,
      which ignores alpha, may find an earlier entry. */
  lemma ExactMatchIsClosest(c: Color, pal: seq<Color>)
    requires c in pal
    ensures Distance(c, pal[Nearest(c, pal)]) == 0
    ensures Nearest(c, pal) <= FirstIndex(pal, c)
  {
    var k := FirstIndex(pal, c);
    assert Distance(c, pal[k]) == 0;
  }

  /** `palettize` raises for every image of a depth other than 32 or 8 and
      below that has at least one pixel, 24 bpp included. */
  lemma PalettizeDepths(img: IcoImage, pal: seq<Color>, t: int, mask: Option<seq<int>>)
    requires var bpp := img.bmpHeader.bitsPerPixel; bpp > 8 && bpp != 32
    requires |img.imageData| > 0
    ensures PixelIndex(img, pal, t, mask, 0).None?
  {
  }
}
