# ani2gif in Dafny

ani2gif turns a Windows animated cursor into an animated GIF. An animated cursor (`.ani`) is a RIFF container whose
form type is `ACON`. It holds these chunks:

- an `anih` header;
- optional `rate` and `seq ` word lists;
- a `LIST` of form type `fram`, whose children are ICO/CUR files.

Each ICO file holds a directory entry, a BITMAPINFOHEADER, an optional colour table and bottom-up pixel and AND-mask
planes, packed MSB-first into 32-bit rows. The GIF writer emits:

- a logical screen;
- a global colour table: the colour map's entries followed by 112 black ones. That is the 128 entries the screen
  descriptor announces only for a 16-colour map;
- a NETSCAPE2.0 looping block;
- per frame, a graphic control extension, an image descriptor and an "uncompressed" LZW stream. Each row of that
  stream is two sub-blocks: `width + 1` bytes holding CLEAR (0x80) and the row's pixels, then one byte holding END
  (0x81).

The Dafny project models that core, module by module:

| module | file | models |
|---|---|---|
| `Wrappers` | wrappers.dfy | `Option`/`Result`, with `Fail` in place of a raised exception |
| `Bytes`, `Bits` | bytes.dfy, bits.dfy | subset types and little-endian codecs for `struct`'s `B`/`H`/`I`/`i`; Python slices, which clamp; shifts and masks on naturals |
| `Bitstreams` | bitstream.dfy | the `Bitstream` class (bitstream.py), with fields `buffer`, `remainder` and `remainderEnd` that its methods update |
| `Riffs` | riff.dfy | `Chunk` and `Riff` as one `Node` datatype; parsing, serialisation and their round trips (riff.py) |
| `Bmp` | bmp.dfy | `Color` and `BitmapInfoHeader` with their 4- and 40-byte codecs (bmp.py) |
| `Ico` | ico.dfy | `IcoImageInfo`, `IcoImage` and `Ico`, and `Ico.from_bytes` over a bit cursor that matches `Bitstream.pop_bits` (ico.py) |
| `Palette` | palette.dfy | `IcoImage.posterize` and `IcoImage.palettize` (ico.py:35-100) |
| `Lzw`, `LzwDictionary`, `LzwDecoder` | lzw.dfy, lzw_dictionary.dfy, lzw_decode.dfy | `encode_uncompressed` and `encode` (lzw.py); an invariant of the dictionary; a reference decoder for the codes `encode` emits |
| `Anis` | ani.dfy | `AniFrame` (a class, since `Ani.frames` updates `post_delay` in place); `Ani`, `_parse_anih`, `ani_header` and `frames` (ani.py) |
| `Gif` | gif.dfy | `make_gif` (ani2gif.py:9-59), as a byte-layout function and the loop that writes it |

Each loop of the source becomes a `method` proved equal to a specification function. For example, `Riffs.ReadRiff` is
proved equal to `Riffs.ParseRiff`, `Lzw.EncodeImage` to `Lzw.Encode` and `Gif.MakeGif` to `Gif.GifBytes`. The lemmas
state what those functions mean:

- round trips;
- lengths and byte layouts;
- when each operation fails;
- where each input pixel ends up in the output.

A raised exception is an `Option`/`Result` failure. An `assert` in the source is a failure too. The code is followed
wherever the specification differs from it. In particular, the inner bytes of a RIFF list are the `ckSize` bytes
after the form type, as riff.py:39 reads them, and not `ckSize - 4`.

General model choices:

- Integers are unbounded. Each fixed-width field has a subset type (`byte`, `u16`, `u32`, `i32`), and an encoder
  demands a value in range where `struct.pack` would raise.
- `struct` formats without `<` (`"HHH"` at ico.py:110, `"BBB"`, `"BB"`, `"B"`) use native order and no padding on
  the platforms the program runs on. They are modelled little-endian.
- The ICO decoder appears in the `Anis` lemmas as a function-typed parameter (`Decoder`). The methods instantiate
  it with `Ico.IcoFromBytes`.

## Model

| member | source | states |
|---|---|---|
| Bitstreams.Bitstream.constructor | bitstream.py:2-5 | the new stream holds the given buffer, and `remainder` is 8 when the buffer is non-empty and 0 otherwise. `remainder_end` is 0, and the unread bits are every bit of the buffer, MSB first |
| Bitstreams.Bitstream.PopBits | bitstream.py:7-19 | succeeds exactly when `bits` unread bits are left, except on an empty buffer: there only a 0-bit read of a stream whose remainder is not 0 succeeds, since the loop at bitstream.py:9 is entered for `0 >= 0` and `buffer[0]` raises. The result is the big-endian value of the next `bits` unread bits, below 2^bits. The unread bits then lose exactly those bits, the buffer keeps a suffix of itself and `remainder_end` is untouched |
| Bitstreams.Bitstream.PushBits | bitstream.py:21-31 | fails when `number >= 2^bits` (the assert at line 22) or when the last byte is partial but the buffer is empty (Python's `buffer[-1]`). Otherwise the buffer becomes `PushBytes` of the old state and `remainder_end` becomes `(remainder_end + bits) % 8`. On a packed buffer the push keeps it packed: the buffer has `ceil(total / 8)` bytes for the new bit count `total`, `remainder_end` is `total % 8`, and the little-endian value grows by `number` shifted to the old bit count |
| Bitstreams.Bitstream.RemainingBuffer | bitstream.py:33-36 | the bytes returned carry exactly the unread bits when the current byte is whole; when it is partial they carry the unread bits after it |
| Bitstreams.PushBytes | bitstream.py:24-30 | one push leaves the buffer `ceil((remainder_end + bits) / 8)` bytes longer, minus the partial byte it merges into. Every earlier byte is kept |
| Bitstreams.PushLaw | bitstream.py:24-31 | one push keeps the packing invariant. With `total` the old bit count, the buffer then has `ceil((total + bits) / 8)` bytes and `remainder_end` is `(remainder_end + bits) % 8`, that is `(total + bits) % 8`. The little-endian value of the buffer grows by `number << total` |
| Bitstreams.Pushed | bitstream.py:24-31 | the state one push leaves on a packed buffer: packed again with `bits` more bits, so `ceil(new bit count / 8)` bytes, and the value grown by `number` shifted left by the old bit count |
| Bitstreams.PushAll | bitstream.py:21-31 | a sequence of pushes into an empty stream leaves `ceil(total / 8)` bytes. Their little-endian value sums every number shifted by the bits pushed before it |
| Bitstreams.ReadWholeBytes | bitstream.py:9-14 | the whole-byte loop of `pop_bits` reads the big-endian value of the unread bits it passes, and leaves fewer bits to read than the current byte holds |
| Bitstreams.ReadBits | bitstream.py:8-19 | the loop and the tail step of `pop_bits` together read the big-endian value of the first `bits` unread bits and drop exactly those bits |
| Bitstreams.PushAllOneByte | bitstream.py:39-52 | pushes of eight bits or fewer in total leave the single byte that is their packed value |
| Bitstreams.PushSelfTest | bitstream.py:40-52 | the six pushes of the self-test leave the buffers 01, 03, 07, 0F, 2F and AF |
| Riffs.ChunkBytes | riff.py:11-12 | `bytes(chunk)` has `8 + ckSize + len(pad)` bytes, because `struct`'s `s` pads or cuts `ckData` to `ckSize` |
| Riffs.ParseChunk | riff.py:14-19 | `Chunk.from_bytes` fails exactly when fewer than 8 bytes are given, since `unpack` needs 8 |
| Riffs.ChunkBytesOfParse | riff.py:11-19 | re-serialising a parsed chunk gives the input's first `8 + ckSize + len(pad)` bytes. When the input is truncated, it gives the input followed by zeros |
| Riffs.ChunkRoundTrip | riff.py:11-19 | when the whole chunk and its pad byte are present, re-serialising it gives back exactly its `8 + ckSize + ckSize % 2` bytes |
| Riffs.ParseRiff | riff.py:36-48 | a parsed list is a `Riff` node whose id is the first four bytes |
| Riffs.ParseRiffChildren | riff.py:38-47 | `Riff.from_bytes` succeeds exactly when the children loop over the `ckSize` bytes after the form type succeeds, and the children are what that loop collects |
| Riffs.ParseRiffOf | riff.py:36-48 | the fields of a parsed list are the id, `ckSize`, the form type, the children and the pad byte when `ckSize` is odd |
| Riffs.NextItem | riff.py:43-45 | defines one turn of the child loop: the chunk at the front, re-parsed as a list when its id is `RIFF` or `LIST`. `Riffs.ReadItem`, `Riffs.ParseItemsKinds` and `Riffs.ChildStep` state what it reads |
| Riffs.ParseItems | riff.py:42-47 | defines the child loop: no children from no bytes, a failure on fewer than 8, and otherwise the next item followed by the items of the bytes after `len(bytes(item))`. `Riffs.ItemsRoundTrip` is its round trip and `Riffs.ParseRiffChildren` ties it to `Riff.from_bytes` |
| Riffs.ParseItemsKinds | riff.py:42-47 | a child is re-parsed as a nested list exactly when its id is `RIFF` or `LIST` |
| Riffs.NodeBytes | riff.py:11-12 | every serialised node has at least its 8-byte header |
| Riffs.ItemsBytesAppend | riff.py:31-32 | serialising children concatenates their serialisations |
| Riffs.ChildEven | riff.py:11-12 | a well-formed child serialises to an even number of bytes |
| Riffs.ChildStep | riff.py:43-45 | one loop step parses a well-formed child back from its own bytes, whatever follows |
| Riffs.ItemsRoundTrip | riff.py:42-47 | the children loop parses the serialisation of well-formed children back into exactly those children |
| Riffs.FileRoundTrip | riff.py:29-48 | `Riff.from_bytes(bytes(riff)) == riff` for every well-formed file. The file's `ckSize` may be anything from the children's length up |
| Riffs.ReadRiff | riff.py:36-48 | the loop of `Riff.from_bytes` computes `ParseRiff` |
| Riffs.ReadItem | riff.py:43-44 | one step of the loop parses the next child as `NextItem` does |
| Riffs.WriteNode | riff.py:29-34 | the loop of `Riff.__bytes__` computes `NodeBytes` |
| Bmp.ColorFromBytes | bmp.py:32-36 | `Color.from_bytes` succeeds exactly on four bytes or more, and reads blue, green, red, alpha in that order |
| Bmp.ColorRoundTrip | bmp.py:18-22 | decoding `bytes(color)` gives back the colour |
| Bmp.ColorBytesOfDecode | bmp.py:18-36 | re-encoding a decoded colour gives back its four bytes |
| Bmp.HeaderFromBytes | bmp.py:32-36 | `BitmapInfoHeader.from_bytes` succeeds exactly on 40 bytes or more. Width and height are negative exactly when their top byte has the sign bit set, as `struct`'s `i` reads them |
| Bmp.HeaderRoundTrip | bmp.py:47-59 | decoding the 40 bytes of a header gives back the header |
| Bmp.HeaderBytesOfDecode | bmp.py:18-36 | re-encoding a decoded header gives back the first 40 bytes of its input |
| Ico.InfoFromBytes | ico.py:22-25 | `IcoImageInfo.from_bytes` succeeds exactly on 16 bytes or more |
| Ico.InfoRoundTrip | ico.py:18-25 | decoding `bytes(info)` gives back the directory entry |
| Ico.InfoBytesOfDecode | ico.py:18-25 | re-encoding a decoded entry gives back its 16 bytes |
| Ico.IcoBytes | ico.py:109-110 | `bytes(ico)` is six bytes carrying `reserved`, `image_type` and `image_count` |
| Ico.Pop | ico.py:134-142 | a read of n bits fails exactly when the cursor is stuck or fewer than n bits are left. Otherwise it returns a value below 2^n and drops exactly n bits |
| Ico.PopCode | ico.py:138 | `Bitstream.pop_bits` agrees with the bit cursor: it fails exactly when `Pop` does, and otherwise returns `Pop`'s value and leaves the stream at `Pop`'s cursor |
| Ico.RemainingOfSuffix | ico.py:144 | `remaining_buffer()` returns the bytes after the partly read byte, as a suffix of the bytes the stream was built from |
| Ico.Pad | ico.py:139 | the pad after a row is below 32 bits |
| Ico.RowAligned | ico.py:139-142 | a row plus its pad fills whole 32-bit words |
| Ico.ReadCodes | ico.py:137-138 | the `pop_bits` loop of one row reads what `PopCodes` reads |
| Ico.ReadStoredRow | ico.py:136-143 | one stored row and its pad bits read what `ReadRow` reads |
| Ico.ReadStoredRows | ico.py:135-143 | the row loop reads what `ReadRows` reads |
| Ico.ReadRows | ico.py:135-143 | `height >> 1` rows of `width` codes, each code below 2^bpp |
| Ico.Plane | ico.py:134-144 | a plane has `n` rows of `w` codes, each below 2^bpp. The bytes after it are a suffix of its input |
| Ico.ReadPlane | ico.py:134-144 | the method over a fresh `Bitstream` computes `Plane` |
| Ico.Reversed | ico.py:145 | `rows.reverse()`: element i is element `len - 1 - i` of the input |
| Ico.Extend | ico.py:146-147 | the `extend` loop concatenates the rows |
| Ico.ColorTable | ico.py:125-130 | reading n colours succeeds exactly when 4n bytes are left. Each colour has alpha 255, and the bytes after the table remain |
| Ico.ReadColorTable | ico.py:125-130 | the colour loop computes `ColorTable` |
| Ico.ColorMap | ico.py:123-130 | at 8 bits per pixel or fewer there are exactly 2^bpp colours, all opaque. Above 8 there are none, and the input is untouched |
| Ico.ReadColorMap | ico.py:123-130 | the colour-map branch computes `ColorMap` |
| Ico.ImageShape | ico.py:131-147 | the image has `(height >> 1) * width` pixels, each below 2^bpp |
| Ico.MaskShape | ico.py:148-165 | the mask is all zeros at 32 bits per pixel. Otherwise it is `(height >> 1) * width` bits |
| Ico.MaskMatchesImage | ico.py:131-165 | image and mask have the same length, and every mask entry is 0 or 1 |
| Ico.PixelsOfPlane | ico.py:144-147 | the image is the stored rows reversed and concatenated |
| Ico.MaskOfRest | ico.py:144-153 | the mask is read from exactly the bytes the pixel plane leaves |
| Ico.PlaneCodeAt | ico.py:134-143 | code j of stored row k is the big-endian value of the bits at `k * rowBits + j * bpp` |
| Ico.PixelAt | ico.py:131-147 | pixel `i * w + j` of the image is the big-endian value of the bits of stored row `n - 1 - i`, column j |
| Ico.MaskAt | ico.py:148-165 | mask entry `i * w + j` is the bit of stored mask row `n - 1 - i`, column j, counted from where the pixel plane ends |
| Ico.ReadPixelsAndMask | ico.py:131-165 | the plane and mask loops compute `PixelsAndMask` |
| Ico.ReadMask | ico.py:148-165 | the mask branch computes `Mask` |
| Ico.PixelsAndMask | ico.py:131-165 | defines the pixel plane, its stored rows reversed and concatenated, then the mask read from the bytes that plane leaves. `Ico.ImageShape`, `Ico.MaskMatchesImage`, `Ico.PixelAt` and `Ico.MaskAt` state its shape and every entry |
| Ico.SecondReadSucceeds | ico.py:119-121 | the second header read, of `header_size` bytes, succeeds exactly when `header_size >= 40` |
| Ico.SecondReadSame | ico.py:119-121 | when it succeeds, it reads the same header as the first read |
| Ico.BitmapHeaderOk | ico.py:119-121 | the bitmap header is read exactly when 40 bytes lie at `data_offset` and their `header_size` is at least 40 |
| Ico.ImageHeadersRead | ico.py:116-121 | the directory entry is read right after the 6-byte header, and the bitmap header at its `data_offset` |
| Ico.DecodeImage | ico.py:116-169 | defines the first image: the directory entry and bitmap header, then the colour table, pixels and mask from the bytes between `data_offset + header_size` and `data_offset + data_size`. `Ico.ImageHeadersRead`, `Ico.BitmapHeaderOk` and `Ico.ReadImageBody` state what it reads and from where |
| Ico.ReadImage | ico.py:118-169 | the body of the image loop computes `DecodeImage` |
| Ico.ReadImageBody | ico.py:122-169 | colour table, pixels and mask are read in that order from the bytes between `data_offset + header_size` and `data_offset + data_size` |
| Ico.FromBytes | ico.py:112-176 | the method computes `IcoFromBytes` |
| Ico.IcoFromBytes | ico.py:112-176 | defines `Ico.from_bytes`: a failure on fewer than six bytes; otherwise the three header words, with no image when `image_count` is 0 and the first image otherwise. `Ico.IcoDecodes`, `Ico.IcoImageCount`, `Ico.IcoHeaderBytes` and `Ico.IcoBytesRoundTrip` state when it succeeds and what it keeps |
| Ico.IcoDecodes | ico.py:112-176 | `Ico.from_bytes` succeeds exactly when six header bytes are present and either `image_count` is 0 or the first image decodes |
| Ico.IcoImageCount | ico.py:117-173 | at most one image is kept, since the loop breaks after the first image |
| Ico.IcoHeaderBytes | ico.py:109-114 | `bytes(Ico.from_bytes(data))` is the first six bytes of `data` |
| Ico.IcoBytesRoundTrip | ico.py:109-176 | parsing `bytes(ico)` gives back the header with no images when `image_count` is 0, and fails otherwise |
| Palette.ColorLookup | ico.py:41-47 | the colour of a pixel value: a colour-map entry at 8 bits per pixel or fewer, and bytes of the value at 24 and 32 bits (opaque at 24). Each lookup exists exactly when the source's lookup does not raise |
| Palette.SourceColor | ico.py:41-49 | defines the colour `posterize` reads for a pixel value, at each depth, and None where Python raises. `Palette.ColorLookup` states exactly when it exists and what it holds |
| Palette.PaletteColor | ico.py:74-81 | defines the colour `palettize` reads for a pixel value. It fails at 24 bits, since that `Color` has no alpha. `Palette.ColorLookup` and `Palette.PalettizeDepths` state when it exists |
| Palette.Unpack32RoundTrip | ico.py:47 | splitting a 32-bit value into four bytes and joining them again is the identity, both ways |
| Palette.Pack24OfUnpack | ico.py:44-45 | a 24-bit value splits into three bytes that join back to it, with alpha 255 |
| Palette.FoldPixel | ico.py:41-60 | defines the tuple one pixel adds at level i: transparent black when alpha is below 128 or the mask bit is 1, and otherwise each field shifted right. `Palette.FoldAgrees` states what colour the tuple stands for |
| Palette.ScanLevel | ico.py:39-62 | defines the scan of one level over the first k pixels, which stops at the first pixel that raises or makes the set exceed `color_count`. `Palette.ScanStep`, `Palette.ScanSettles`, `Palette.ScanCovers` and `Palette.ScanOnlyPixels` state what it collects |
| Palette.ScanStep | ico.py:40-62 | one pixel of the level scan either raises, overflows once the set exceeds `color_count`, or adds its shade to the set |
| Palette.ScanSettles | ico.py:61-62 | once the scan of a level has raised or overflowed, later pixels change nothing (`break`) |
| Palette.ScanCovers | ico.py:40-60 | every pixel scanned contributes its shade to the collected set |
| Palette.ScanOnlyPixels | ico.py:40-60 | every shade in the collected set comes from some pixel |
| Palette.FoldAgrees | ico.py:51-59 | a pixel's shade, shifted back to a colour, is the pixel's colour reduced to level i. Transparent pixels become transparent black |
| Palette.PixelRepresented | ico.py:38-67 | at a level that collects, every pixel's reduced colour is in the returned palette |
| Palette.LowBitsCleared | ico.py:66 | every palette colour of level i has its low i colour bits and its low alpha-shift bits clear |
| Palette.UnfoldInjective | ico.py:65-66 | distinct shades give distinct colours, so the palette has no duplicates |
| Palette.FirstLevel | ico.py:38-67 | defines the search over levels `i .. 7` for the first level whose set fits `color_count`. `Palette.FirstLevelFound`, `Palette.FirstLevelNone` and `Palette.FirstLevelRaises` state its three outcomes |
| Palette.Posterized | ico.py:35-67 | defines what `posterize` may return: the colour map when it fits, Fail when the scan raises first, None when no level fits, and otherwise a duplicate-free listing of the colours of the first fitting level. `Palette.Posterize` is proved to return such a result |
| Palette.FirstLevelFound | ico.py:38-67 | the level returned is the first level i < 8 whose scan neither raises nor exceeds `color_count`. Every earlier level exceeded it |
| Palette.FirstLevelNone | ico.py:38-67 | `posterize` falls through and returns None exactly when all eight levels exceed `color_count` |
| Palette.FirstLevelRaises | ico.py:38-62 | when `posterize` raises, some level's scan raised after every earlier level exceeded `color_count` |
| Palette.UnsupportedDepthRaises | ico.py:48-49 | a non-empty image of a depth other than 8 or fewer, 24 or 32 bits raises |
| Palette.UnfoldAll | ico.py:64-66 | the colour list has one colour per shade of the set, each colour exactly once |
| Palette.CollectLevel | ico.py:39-62 | the loop of one level computes its scan, stopping early on overflow, and fails exactly when that scan raises |
| Palette.Posterize | ico.py:35-67 | `posterize` returns the colour map when it is non-empty and fits in `color_count`; otherwise it returns the colours of the first fitting level, each exactly once; its result is None when no level fits, and Fail when the scan raises first |
| Palette.ClearLow | ico.py:51-66 | shifting right and back left does not increase a byte and clears its low bits |
| Palette.Distance | ico.py:91-95 | the margin is below 256 and is 0 exactly when red, green and blue agree. Alpha is ignored |
| Palette.Nearest | ico.py:88-99 | the nearest palette entry has the smallest margin, and comes first among entries of that margin |
| Palette.NearestUnique | ico.py:88-99 | there is only one such entry |
| Palette.FindNearest | ico.py:88-99 | the search loop finds that entry |
| Palette.FirstIndex | ico.py:84-85 | `list.index`: the first position holding the colour |
| Palette.PixelIndex | ico.py:74-99 | defines the index `palettize` emits for one pixel. `Palette.PixelIndexMeaning` states which of its three cases applies, and `Palette.IndicesInRange` that it lies within the palette |
| Palette.ExactMatchIsClosest | ico.py:84-99 | the nearest search would also find a colour in the palette, at margin 0 and no later than `index` |
| Palette.Palettize | ico.py:69-100 | `palettize` succeeds exactly when every pixel's `PixelIndex` is defined: its colour can be looked up and, for an opaque pixel with a non-empty mask, the mask has an entry at its index (ico.py:82). It then returns one index per pixel, each that pixel's `PixelIndex` |
| Palette.PixelIndexMeaning | ico.py:70-99 | a hidden pixel (alpha below 128, or masked) gets the transparency index; a colour in the palette gets its first position; any other colour gets the nearest entry |
| Palette.IndicesInRange | ico.py:70-71 | with the default transparency index, every index is within the palette |
| Palette.PalettizeDepths | ico.py:76-81 | `palettize` raises on a non-empty image of 24 bits per pixel, since the colour built there has no alpha (line 79), and at other depths above 8 except 32 (line 81) |
| Lzw.CodeSize | lzw.py:11-14 | the code size is the least b >= 1 with `2^b >= palette_size` |
| Lzw.CodeSizeUnique | lzw.py:11-14 | there is only one such b |
| Lzw.PaletteSizeBits | lzw.py:11-14 | the `while` loop computes it |
| Lzw.SmallCodeSize | lzw.py:9-14 | a palette of at most 128 entries needs at most 7 bits |
| Lzw.SubBlocks | lzw.py:70-72 | defines the buffer cut into chunks of 255 bytes, each after its length. `Lzw.SubBlocksRoundTrip` is its inverse and `Lzw.SubBlocksLength` its length |
| Lzw.SubBlocksRoundTrip | lzw.py:70-73 | reading sub-blocks back up to the zero-length terminator gives back the buffer, and leaves whatever follows |
| Lzw.SubBlocksLength | lzw.py:70-72 | the sub-blocks add one length byte per started 255-byte chunk |
| Lzw.WriteSubBlocks | lzw.py:70-72 | the chunk loop computes `SubBlocks` |
| Lzw.UncompressedBody | lzw.py:17-29 | defines the body of `encode_uncompressed`: per chunk of up to 126 pixels, `len + 1`, 0x80, the pixels, then 0x01 and 0x81, and None on a pixel that is not a byte. `Lzw.UncompressedOk`, `Lzw.UncompressedStep`, `Lzw.UncompressedLength` and `Lzw.UncompressedIsSubBlocks` state its meaning |
| Lzw.Uncompressed | lzw.py:8-31 | defines `encode_uncompressed`: Fail when `palette_size > 128` or the body fails, else the header `max(2, b)`, the body and a zero byte. `Lzw.EncodeUncompressed` computes it |
| Lzw.UncompressedOk | lzw.py:17-29 | `encode_uncompressed` packs its pixels exactly when every pixel is a byte |
| Lzw.UncompressedStep | lzw.py:17-29 | each step writes `len(chunk) + 1`, 0x80, the chunk of at most 126 pixels, then 0x01 and 0x81 |
| Lzw.UncompressedLength | lzw.py:17-29 | the body is the pixels plus four bytes per started 126-pixel chunk |
| Lzw.UncompressedIsSubBlocks | lzw.py:17-30 | the body reads back as sub-blocks whose payload is each chunk preceded by CLEAR (0x80) and followed by END (0x81) |
| Lzw.EncodeUncompressed | lzw.py:8-31 | the method computes `Uncompressed`: Fail when `palette_size > 128` (the assert) or a pixel is not a byte. Otherwise it returns the header `max(2, b)`, the body and the terminator |
| Lzw.InitialDictionary | lzw.py:44-46 | one single-pixel entry per palette index, then CLEAR at `palette_size` and END after it |
| Lzw.IndexOfSpec | lzw.py:51 | `list.index` finds the first occurrence exactly when the entry is present |
| Lzw.SpecialCodes | lzw.py:51 | CLEAR is code `palette_size` and END is `palette_size + 1`, whatever the dictionary has grown by |
| Lzw.LongestInDictionary | lzw.py:55-60 | the entry chosen at an index is a single pixel or a dictionary entry matching the pixels there |
| Lzw.LongestIsMaximal | lzw.py:56-60 | no matching dictionary entry is longer than the one chosen |
| Lzw.LongestMatch | lzw.py:55-60 | the search loop over the dictionary, newest entry first, finds the longest match |
| Lzw.Longest | lzw.py:55-60 | the entry chosen at an index covers at least one pixel and no more than remain. `Lzw.LongestInDictionary` and `Lzw.LongestIsMaximal` state that it is the longest match |
| Lzw.WidenStep | lzw.py:53-54 | the code width grows when the dictionary outgrows it, and then every code fits |
| Lzw.InitialWidth | lzw.py:50 | the first width `b + 1` fits the initial dictionary |
| Lzw.Widen | lzw.py:53-54 | defines the width after one more bit once the dictionary outgrows it. `Lzw.WidenStep` states that every code then fits |
| Lzw.Grow | lzw.py:66-67 | defines the dictionary after one step: the entry plus the next pixel appended while pixels remain and fewer than 0x1000 entries exist. `LzwDictionary.GrowOk`, `LzwDictionary.GrowDistinct` and `LzwDictionary.GrowBounds` state what it keeps |
| Lzw.WidthStep | lzw.py:53-67 | after one step every code of the grown dictionary fits the new width, and so does the code pushed |
| Lzw.CodesFit | lzw.py:52-67 | every code pushed fits its width |
| Lzw.CodesFail | lzw.py:62 | when the chosen entry is not in the dictionary, `dictionary.index` raises and `encode` fails |
| Lzw.Codes | lzw.py:52-69 | defines the `(code, width)` pushes of the loop from a given state on, ending with END, and None where `dictionary.index` raises. `Lzw.CodesFit`, `LzwDictionary.CodesExist` and `LzwDecoder.RoundTripFrom` state that the codes fit, exist and decode back to the pixels |
| Lzw.CodesWith | lzw.py:53-67 | defines one step of `Codes` with the chosen entry: its code at the widened width, then the codes from the grown dictionary. `Lzw.EncodeStep` and `Lzw.WidthStep` state what the step keeps |
| Lzw.Packing | lzw.py:62-69 | the packed codes take `ceil(total / 8)` bytes |
| Lzw.PackingIsPushAll | lzw.py:62-69 | the packed bytes are what pushing the codes one by one into a `Bitstream` leaves |
| Lzw.CompressedOk | lzw.py:42-74 | when the codes exist, `encode` returns the header byte `max(2, b)`, then the sub-blocks of CLEAR, the codes and END packed LSB-first, then a zero byte |
| Lzw.CompressedFail | lzw.py:52-67 | when some chosen entry has no code, `encode` fails |
| Lzw.Compressed | lzw.py:41-74 | defines the compressing path: the header byte, the sub-blocks of CLEAR, the codes and END packed LSB-first, and a zero byte. `Lzw.CompressedOk`, `Lzw.CompressedFail` and `LzwDictionary.CompressedOkIff` state when it succeeds and what it holds |
| Lzw.Encode | lzw.py:34-74 | defines `encode`: the uncompressed encoder when `max_compression_bits == 1`, the compressing path otherwise. `Lzw.EncodeImage` computes it |
| Lzw.Push | lzw.py:51-69 | a push keeps the stream's bytes equal to the packing of every push so far |
| Lzw.EncodeStep | lzw.py:53-67 | one loop step pushes the next code and advances the index, and the codes still to come are unchanged by it |
| Lzw.WriteCodesFrom | lzw.py:52-69 | the loop pushes exactly the codes `Codes` lists, and fails exactly when there are none |
| Lzw.WriteCodes | lzw.py:49-69 | the stream ends holding CLEAR followed by the codes |
| Lzw.EncodeImage | lzw.py:34-74 | the method computes `Encode`: the uncompressed encoder when `max_compression_bits == 1`, and the compressing path otherwise |
| LzwDictionary.InitialOk | lzw.py:44-46 | the initial dictionary meets the loop's dictionary invariant: every index below `palette_size` has its own single-pixel entry, CLEAR and END follow, and there are no added entries yet |
| LzwDictionary.GrowOk | lzw.py:66-67 | adding `entry + (next pixel,)` keeps that invariant: every added entry has at least two symbols, each below `palette_size`, except that the last symbol of the newest entry may be the pixel the loop looks at next |
| LzwDictionary.CodesExist | lzw.py:52-67 | the longest match always has a code, so `encode` finds all its codes exactly when every remaining pixel is a palette index |
| LzwDictionary.CompressedOkIff | lzw.py:34-74 | the compressing path succeeds exactly when every pixel is below `palette_size` and the header byte fits |
| LzwDictionary.InitialDistinct | lzw.py:44-46 | the initial dictionary has no repeated entry |
| LzwDictionary.GrowDistinct | lzw.py:56-67 | the dictionary never receives an entry it already holds |
| LzwDictionary.NotLonger | lzw.py:56-67 | the entry added is longer than any match at that index, so it is new |
| LzwDictionary.GrowBounds | lzw.py:66-67 | the dictionary grows by at most one entry per step and stops at 0x1000 entries |
| LzwDecoder.Numbers | lzw.py:62-69 | one code number per push |
| LzwDecoder.DecodeFrom | lzw.py:44-67 | defines a reference LZW decoder on code numbers that rebuilds the dictionary `encode` builds (lzw.py:44-46, 66-67) one code behind it. `LzwDecoder.DecodeStep` and `LzwDecoder.RoundTripFrom` state that it inverts the encoder's loop |
| LzwDecoder.Decode | lzw.py:44-69 | defines that decoder started from the initial dictionary. `LzwDecoder.CodesRoundTrip` states that it reads CLEAR, the codes and END back as exactly the pixels |
| LzwDecoder.DecodeStep | lzw.py:56-67 | a reference decoder that rebuilds the encoder's dictionary reads one code back as its entry |
| LzwDecoder.RoundTripFrom | lzw.py:52-69 | decoding the codes pushed from an index on gives back the pixels from that index |
| LzwDecoder.CodesRoundTrip | lzw.py:49-69 | decoding CLEAR, the codes and END gives back exactly `pixels` |
| Anis.ParseAnih | ani.py:43-53 | `_parse_anih` succeeds exactly when the data is 36 bytes and its first word is 36 |
| Anis.U32s | ani.py:46 | one 32-bit word per whole four bytes of the data. `Anis.U32sRoundTrip` and `Anis.U32sBytesOf` state that it inverts the word encoder |
| Anis.FromFields | ani.py:47-53 | defines the header built from the nine words. `Anis.AnihFlags`, `Anis.FromToFields` and `Anis.ToFromFields` state what its flags mean and that it loses nothing |
| Anis.AnihFlags | ani.py:47-49 | format is RAW exactly when flag bit 0 is clear, `seq_present` is flag bit 1, and `remaining_flags` is the flags with bits 0 and 1 cleared |
| Anis.AnihRoundTrip | ani.py:43-53 | parsing the 36 bytes of a header gives back the header |
| Anis.AnihBytesOfParse | ani.py:43-53 | a parsed header re-encodes to its input |
| Anis.FromToFields | ani.py:46-53 | the nine words and the header determine each other |
| Anis.ToFromFields | ani.py:46-53 | nine words starting with 36 give a header whose words are them |
| Anis.U32sRoundTrip | ani.py:46 | decoding the bytes of a list of 32-bit words gives the words back |
| Anis.U32sBytesOf | ani.py:46 | re-encoding the decoded words gives the bytes back |
| Anis.ReadWords | ani.py:79-81 | the `rate`/`seq` loop reads `ceil(ckSize / 4)` little-endian words from clamped slices |
| Anis.Words | ani.py:79-86 | defines the list of `ceil(ckSize / 4)` words the `rate` and `seq ` loops build. `Anis.ReadWords` computes it and `Anis.WordsOfU32s` is its round trip |
| Anis.Word | ani.py:80-81 | defines one word, `int.from_bytes` of a clamped 4-byte slice. `Anis.WordAt` states which bytes it reads |
| Anis.WordsOfU32s | ani.py:79-86 | words written as bytes read back as the same words |
| Anis.WordAt | ani.py:80-81 | word k is the little-endian value of bytes `4k` to `4k + 4` |
| Anis.AniFrame.constructor | ani.py:12-20 | the frame holds the image and the delay |
| Anis.AniFromBytes | ani.py:23-26 | `Ani(contents)` succeeds exactly when the RIFF parses and its form type is `ACON` (the assert at line 26) |
| Anis.AniRoundTrip | ani.py:23-26 | the bytes of every well-formed `ACON` file parse back to it |
| Anis.FirstAnih | ani.py:55-60 | defines `ani_header`: the first `anih` chunk parsed, or no header. `Anis.FirstAnihAt` and `Anis.NoAnih` state which chunk it reads |
| Anis.FirstAnihAt | ani.py:55-59 | `ani_header` parses the first `anih` chunk and ignores every later one |
| Anis.NoAnih | ani.py:60 | with no `anih` chunk there is no header |
| Anis.NewFrames | ani.py:76-77 | one frame per child of the `fram` list |
| Anis.NewFramesAt | ani.py:76-77 | frame i decodes child i and carries the current default delay |
| Anis.AddFrames | ani.py:76-77 | defines the `fram` loop over a list's children, appending each decoded child with the current delay, and failing on the first child that fails. `Anis.AddFramesSpec` states its result |
| Anis.AddFramesSpec | ani.py:76-77 | the `fram` loop succeeds exactly when every child decodes, and appends their frames in order |
| Anis.Step | ani.py:70-86 | defines one turn of the chunk loop for each tag: `anih`, a `fram` list, `rate`, `seq ` and any other. `Anis.StepChunk` computes it on frame objects, and `Anis.FramStep` and `Anis.SeqUnexpected` state two of its cases |
| Anis.ScanAll | ani.py:64-86 | defines the whole chunk loop. `Anis.ScanAppend`, `Anis.ScanFields`, `Anis.ScanGrows` and `Anis.FramDelay` state what it leaves in each loop variable |
| Anis.ScanAppend | ani.py:69-86 | the chunk loop over two lists is the loop over the first, then over the second from where it stopped |
| Anis.ScanFields | ani.py:69-86 | after the loop, the default delay and `expecting_seq` come from the last `anih` chunk, and `rate` and `seq` from the last chunk of each tag |
| Anis.ScanGrows | ani.py:69-86 | frames are only ever appended |
| Anis.FramDelay | ani.py:74-77 | the frames of a `fram` list are the decoded children, each with the delay of the last `anih` before the list, in the order they occur, wherever the list sits in the file |
| Anis.FramStep | ani.py:74-77 | the frames of one `fram` list are appended with the current delay |
| Anis.SeqUnexpected | ani.py:82-83 | a `seq ` chunk that no earlier `anih` announced fails |
| Anis.Order | ani.py:88-93 | every index of the order names a raw frame |
| Anis.ApplyRate | ani.py:96-98 | the rate pass keeps one delay per raw frame |
| Anis.RateUntouched | ani.py:96-98 | a raw frame no rate entry reaches keeps its delay |
| Anis.RateLastWrite | ani.py:96-98 | a raw frame reached by rate entries takes the last of them. Output frames that share a raw frame share its delay |
| Anis.Arranged | ani.py:88-98 | the arranged plan has one delay per raw frame, and its order only names raw frames |
| Anis.SeqMissing | ani.py:94-95 | an announced `seq ` that never came fails |
| Anis.ArrangedOrder | ani.py:88-95 | the output order is the last `seq ` list when there is one, non-empty (line 89), and the raw order otherwise. The `rate` list is no longer than it |
| Anis.FramesPlan | ani.py:62-99 | defines what `Ani.frames` computes: the chunk loop with `Ico.from_bytes` as the decoder, then the arrangement. `Anis.Frames` is proved to present that plan |
| Anis.AddFrameObjects | ani.py:76-77 | the loop creates one fresh `AniFrame` per child, mirroring the frames of `AddFrames`, and keeps the earlier ones |
| Anis.StepChunk | ani.py:70-86 | one chunk of the loop on frame objects agrees with `Step` |
| Anis.ScanChunks | ani.py:64-86 | the whole loop on frame objects agrees with `ScanAll` |
| Anis.Arrange | ani.py:88-95 | the output list picks raw frame objects by the order |
| Anis.SetRates | ani.py:96-98 | succeeds exactly when `rate` is no longer than the output list. Every raw frame object then has the delay `ApplyRate` gives it |
| Anis.Frames | ani.py:62-99 | `Ani.frames` succeeds exactly when the plan exists. Output frame k shows raw frame `order[k]` with its final delay, and two output frames are the same object exactly when they name the same raw frame |
| Gif.ColorTable | ani2gif.py:21-27 | the colour table loop writes `Gct` |
| Gif.GctAt | ani2gif.py:22-23 | entry c of the table is red, green, blue of colour c |
| Gif.GctPad | ani2gif.py:24-25 | then 112 black entries follow, whatever the colour map's length |
| Gif.GctMatchesHeader | ani2gif.py:19-27 | the table length matches the size in the screen flags 0xE6 (128 entries) exactly when the colour map has 16 colours |
| Gif.Pixel | ani2gif.py:50-53 | defines the byte of one pixel: 0x7F where the mask bit is 1, and otherwise the image value, which must be a byte. `Gif.PixelsOk` and `Gif.PixelsAt` state when it exists and what it is |
| Gif.Row | ani2gif.py:47-56 | defines one row: `width + 1`, 0x80, the pixels, then 0x01 and 0x81. `Gif.RowOk` and `Gif.RowLength` state when it is written and its length |
| Gif.Rows | ani2gif.py:46-56 | defines the first n rows of a frame. `Gif.RowsOk`, `Gif.RowsLength` and `Gif.RowsAt` state when they are written, their length and where each row sits |
| Gif.FrameRows | ani2gif.py:44-56 | the row loop writes `Rows` |
| Gif.PixelsOk | ani2gif.py:48-53 | a row's pixels are read exactly when each mask entry exists and, where it is not 1, the image value exists and is a byte |
| Gif.RowOk | ani2gif.py:46-55 | a row is written exactly when `width + 1` fits a byte and its pixels are read |
| Gif.RowLength | ani2gif.py:46-55 | a row is `width + 4` bytes |
| Gif.RowsOk | ani2gif.py:45-56 | the rows of a frame are written exactly when there are none, or the width is below 255 (so that `width + 1` packs as a byte at ani2gif.py:47) and every pixel `0 .. height * width` reads |
| Gif.RowsLength | ani2gif.py:45-56 | the rows of a frame are `height * (width + 4)` bytes |
| Gif.BlocksOk | ani2gif.py:33-57 | the frame loop succeeds exactly when every frame's rows are written |
| Gif.BlocksLength | ani2gif.py:33-57 | each frame adds `20 + height * (width + 4)` bytes |
| Gif.BlocksNext | ani2gif.py:33-57 | one more frame appends its block |
| Gif.Blocks | ani2gif.py:33-57 | defines the blocks of all frames, in order. `Gif.BlocksOk`, `Gif.BlocksLength` and `Gif.BlocksAt` state when they exist, their length and where each block sits |
| Gif.WriteFrames | ani2gif.py:33-57 | the frame loop writes `Blocks` after what is already written |
| Gif.BlockLayout | ani2gif.py:35-57 | a block is the graphic control extension, the image descriptor, the code size 7, the rows and a zero byte |
| Gif.FileLayout | ani2gif.py:19-58 | a file is the 13-byte screen header, the colour table, the 19-byte NETSCAPE block, the blocks and the trailer 0x3B |
| Gif.GifOk | ani2gif.py:9-58 | `make_gif` succeeds exactly when there is a frame, the first frame has an image, and every frame's rows are written with the first image's width and height |
| Gif.GifLength | ani2gif.py:9-58 | the file length is `13 + 3 * (colours + 112) + 19 + frames * (20 + height * (width + 4)) + 1` |
| Gif.GifBytes | ani2gif.py:9-58 | defines `make_gif`: a failure without a frame or a first image, and otherwise the file around the blocks, sized by the first image. `Gif.GifOk`, `Gif.FileLayout`, `Gif.GifLength` and `Gif.GifPixel` state when it succeeds, its layout and where every pixel lands |
| Gif.MakeGif | ani2gif.py:9-59 | the method computes `GifBytes` |
| Gif.PixelsAt | ani2gif.py:48-54 | pixel j of a row read from `start` is the image value at `start + j`, or 0x7F where masked |
| Gif.RowsAt | ani2gif.py:45-56 | byte y of row i sits at `i * (width + 4) + y` in the rows |
| Gif.BlocksAt | ani2gif.py:33-57 | byte y of frame k's block sits at `k * (20 + height * (width + 4)) + y` |
| Gif.FramePixel | ani2gif.py:43-56 | pixel `(i, j)` of a frame is byte `19 + i * (width + 4) + 2 + j` of its block |
| Gif.GifPixel | ani2gif.py:9-58 | pixel `(i, j)` of frame k is the byte at `32 + 3 * (colours + 112) + k * (20 + height * (width + 4)) + 19 + i * (width + 4) + 2 + j` of the file |

## Left out

- `__main__` (ani2gif.py:62-77) reads and writes files. It is not modelled. As written, line 77 passes `ani.frames`, a
  list of `AniFrame`s, to `make_gif`, which reads `frame.images[0]`. An `AniFrame` has only `ico` and `post_delay`
  (ani.py:19-20), so the script as written raises AttributeError there (an observation from the text, not executed).
  `Gif.GifBytes` takes the `Ico`s themselves, as the type hint of `make_gif` says.
- Debug output: the `verbose` listing in `Ani.__init__` (ani.py:27-41) and the `verbose` argument of `Ico.from_bytes`
  print only. They are left out.
- The bitstream self-test (bitstream.py:39-52) is not modelled as a program. It is stated as a lemma about the pushes.
- The generic struct machinery of `StructuredNamedTuple` (bmp.py:6-36) is not modelled. It is replaced by explicit
  codecs for `Color` and `BitmapInfoHeader` with the same formats.
- Ico.IcoFromBytes: ico.py:170 updates `images_data` after the first image. Since the loop breaks right after, the model
  drops that update. `bytes(image_info[-1])` allocates `data_offset` zero bytes there, and the model does not capture
  that allocation failing.
- Python's set order is not modelled. `posterize` lists the colours of a set in hash order, and `Palette.Posterize`
  promises some duplicate-free listing of exactly those colours.
- Bitstreams.Bitstream.PopBits: when too few bits are left, Python raises after consuming part of the stream, but the
  model leaves the stream unchanged. Every caller abandons the stream once a read fails.
- Anis.SetRates: the model states the final delays only when the whole rate list fits. When `rate` is longer than the
  output list, Python raises after updating some delays, and the model just fails.
- The round trip between `push_bits` and `pop_bits` is not claimed. They pack bits in opposite orders (LSB-first and
  MSB-first), and the program never pops what it pushed.
- No claim is made that a GIF decoder reproduces the pixels of the file. The GIF bytes are proved to be the layout
  above, and `LzwDecoder.CodesRoundTrip` is a reference decoder on code numbers, not on packed bytes.
- Unsupported depths are failures. `raise NotImplemented` and `raise Exception` (ico.py:49, 81) become `Fail`, and so
  does the `Color` constructed with three fields (ico.py:79).
- The integer widths of Python's `int` are unbounded. Only the `struct` fields have fixed widths, and the model writes
  them out.
- Truncated input is clamped, as Python slices are. `Chunk.from_bytes` and `int.from_bytes` silently read from a short
  tail, and the model does the same.
