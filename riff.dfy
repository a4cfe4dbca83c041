/** The RIFF reader and writer of riff.py: a chunk is a 4-byte tag, a
    little-endian 32-bit size, the payload and one pad byte when the size
    is odd; `RIFF` and `LIST` chunks hold a 4-byte form type followed by
    child chunks, re-parsed recursively. Payload slices are Python slices,
    so a truncated input is read short rather than rejected; only
    `struct.unpack` on a header that is too short fails. */
module Riffs {
  import opened Wrappers
  import opened Bytes

  /** A parsed chunk (riff.py:5-9) or a parsed `RIFF`/`LIST` list (riff.py:22-27). */
  datatype Node =
    | Chunk(ckID: seq<byte>, ckSize: u32, ckData: seq<byte>, pad: seq<byte>)
    | Riff(ckID: seq<byte>, ckSize: u32, identifier: seq<byte>, subChunks: seq<Node>, pad: seq<byte>)

  const RiffTag: seq<byte> := [0x52, 0x49, 0x46, 0x46]  // "RIFF"
  const ListTag: seq<byte> := [0x4C, 0x49, 0x53, 0x54]  // "LIST"

  /** The tags whose chunks are re-parsed as lists (riff.py:44). */
  predicate IsListTag(id: seq<byte>)
  {
    id == RiffTag || id == ListTag
  }

  /** The byte string with its trailing zero bytes removed, as a length.
      Re-serialising a truncated chunk pads it with zeros, so the bytes a
      nested list is re-parsed from can be longer than the input they came
      from; this length is what shrinks on every nested parse. */
  function Extent(s: seq<byte>): (e: nat)
    ensures e <= |s|
    ensures e < |s| ==> s[|s| - 1] == 0
  {
    if s == [] then 0
    else if s[|s| - 1] != 0 then |s|
    else Extent(s[..|s| - 1])
  }

  /** A non-zero byte lies inside the extent. */
  lemma {:induction false} ExtentCovers(s: seq<byte>, i: nat)
    requires i < |s| && s[i] != 0
    ensures i < Extent(s)
  {
    if s[|s| - 1] == 0 {
      ExtentCovers(s[..|s| - 1], i);
    }
  }

  lemma {:induction false} ExtentPrefix(s: seq<byte>, m: nat)
    requires m <= |s|
    ensures Extent(s[..m]) <= Extent(s)
  {
    if m == |s| {
      assert s[..m] == s;
    } else if s[|s| - 1] == 0 {
      assert s[..|s| - 1][..m] == s[..m];
      ExtentPrefix(s[..|s| - 1], m);
    }
  }

  lemma {:induction false} ExtentSuffix(s: seq<byte>, k: nat)
    requires k <= |s|
    ensures Extent(s[k..]) <= if Extent(s) >= k then Extent(s) - k else 0
  {
    if s != [] && s[|s| - 1] == 0 {
      if k < |s| {
        assert s[k..][..|s| - k - 1] == s[..|s| - 1][k..];
        ExtentSuffix(s[..|s| - 1], k);
      }
    }
  }

  lemma {:induction false} ExtentZeros(s: seq<byte>, n: nat)
    ensures Extent(s + Zeros(n)) == Extent(s)
  {
    if n > 0 {
      assert (s + Zeros(n))[..|s| + n - 1] == s + Zeros(n - 1);
      ExtentZeros(s, n - 1);
    } else {
      assert s + Zeros(n) == s;
    }
  }

  // ---------------------------------------------------------------------
  // Plain chunks (riff.py:5-19)

  /** `bytes(Chunk)` (riff.py:11-12): the tag fitted to 4 bytes, the size,
      the payload null-padded or truncated to the size, then the pad. */
  function ChunkBytes(id: seq<byte>, size: u32, data: seq<byte>, pad: seq<byte>): (r: seq<byte>)
    ensures |r| == 8 + size + |pad|
  {
    FitTo(id, 4) + EncodeU32(size) + FitTo(data, size) + pad
  }

  /** `Chunk.from_bytes` (riff.py:14-19): None where `struct.unpack` fails. */
  function ParseChunk(data: seq<byte>): (r: Option<Node>)
    ensures r.None? <==> |data| < 8
    ensures r.Some? ==> r.value.Chunk?
  {
    if |data| < 8 then None
    else
      var size := U32(data[4..8]);
      var pad := if size % 2 == 1 then Slice(data, 8 + size, 9 + size) else [];
      Some(Chunk(data[..4], size, Slice(data, 8, 8 + size), pad))
  }

  /** The header of a parsed chunk serialises back to the input's first 8 bytes. */
  lemma ChunkHead(data: seq<byte>)
    requires |data| >= 8
    ensures var c := ParseChunk(data).value;
      ChunkBytes(c.ckID, c.ckSize, c.ckData, c.pad) == data[..8] + FitTo(c.ckData, c.ckSize) + c.pad
  {
    var c := ParseChunk(data).value;
    assert FitTo(c.ckID, 4) == data[..4];
    assert EncodeU32(c.ckSize) == data[4..8];
    PrefixJoin(data, 4, 8);
  }

  lemma ChunkBytesFull(data: seq<byte>)
    requires |data| >= 8 && |data| >= 8 + U32(data[4..8])
    ensures var c := ParseChunk(data).value;
      ChunkBytes(c.ckID, c.ckSize, c.ckData, c.pad) == data[..8 + c.ckSize + |c.pad|]
  {
    var c := ParseChunk(data).value;
    var size: nat := c.ckSize;
    ChunkHead(data);
    assert FitTo(c.ckData, size) == data[8..8 + size];
    PrefixJoin(data, 8, 8 + size);
    assert c.pad == data[8 + size..8 + size + |c.pad|];
    PrefixJoin(data, 8 + size, 8 + size + |c.pad|);
  }

  lemma ChunkBytesShort(data: seq<byte>)
    requires |data| >= 8 && |data| < 8 + U32(data[4..8])
    ensures var c := ParseChunk(data).value;
      ChunkBytes(c.ckID, c.ckSize, c.ckData, c.pad) == data + Zeros(8 + c.ckSize - |data|)
  {
    var c := ParseChunk(data).value;
    var size: nat := c.ckSize;
    var zs := Zeros(8 + size - |data|);
    ChunkHead(data);
    assert c.pad == [];
    assert FitTo(c.ckData, size) == data[8..] + zs;
    PrefixJoin(data, 8, |data|);
    AppendAssoc(data[..8], data[8..], zs);
  }

  /** Re-serialising a parsed chunk gives back the input up to the chunk's
      end, or the whole input null-padded to the declared size when the
      input was cut short. */
  lemma ChunkBytesOfParse(data: seq<byte>)
    requires |data| >= 8
    ensures var c := ParseChunk(data).value;
      ChunkBytes(c.ckID, c.ckSize, c.ckData, c.pad)
        == if |data| >= 8 + c.ckSize then data[..8 + c.ckSize + |c.pad|]
           else data + Zeros(8 + c.ckSize - |data|)
  {
    if |data| >= 8 + U32(data[4..8]) {
      ChunkBytesFull(data);
    } else {
      ChunkBytesShort(data);
    }
  }

  /** Chunk round trip from bytes (riff.py:11-19): on an input that holds
      the whole chunk and its pad byte, bytes(from_bytes(d)) is that prefix. */
  lemma ChunkRoundTrip(data: seq<byte>)
    requires |data| >= 8 && |data| >= 8 + U32(data[4..8]) + U32(data[4..8]) % 2
    ensures var c := ParseChunk(data).value;
      ChunkBytes(c.ckID, c.ckSize, c.ckData, c.pad)
        == data[..8 + c.ckSize + c.ckSize % 2]
  {
    ChunkBytesOfParse(data);
  }

  // ---------------------------------------------------------------------
  // Lists (riff.py:22-48)

  /** The children of a list lie 12 bytes into it, so their extent is
      smaller unless the list is all zeros. */
  lemma InnerExtent(data: seq<byte>, size: nat)
    requires |data| >= 12
    ensures Extent(Slice(data, 12, 12 + size)) <= Extent(data)
    ensures Extent(data) >= 1 ==> Extent(Slice(data, 12, 12 + size)) < Extent(data)
  {
    var inner := Slice(data, 12, 12 + size);
    ExtentSuffix(data, 12);
    var m := |inner|;
    assert inner == data[12..][..m];
    ExtentPrefix(data[12..], m);
  }

  /** The bytes a `RIFF`/`LIST` child is re-parsed from start with its tag
      and reach no further than the input, up to zero padding. */
  lemma NestedExtent(inner: seq<byte>)
    requires |inner| >= 8
    ensures var c := ParseChunk(inner).value;
      var b := ChunkBytes(c.ckID, c.ckSize, c.ckData, c.pad);
      IsListTag(c.ckID) ==> 1 <= Extent(b) <= Extent(inner)
  {
    if IsListTag(inner[..4]) {
      assert inner[0] != 0;
      if |inner| >= 8 + U32(inner[4..8]) {
        NestedExtentFull(inner);
      } else {
        NestedExtentShort(inner);
      }
    }
  }

  lemma NestedExtentFull(inner: seq<byte>)
    requires |inner| >= 8 && |inner| >= 8 + U32(inner[4..8]) && inner[0] != 0
    ensures var c := ParseChunk(inner).value;
      1 <= Extent(ChunkBytes(c.ckID, c.ckSize, c.ckData, c.pad)) <= Extent(inner)
  {
    var c := ParseChunk(inner).value;
    ChunkBytesFull(inner);
    PrefixExtent(ChunkBytes(c.ckID, c.ckSize, c.ckData, c.pad), inner, 8 + c.ckSize + |c.pad|);
  }

  lemma NestedExtentShort(inner: seq<byte>)
    requires 8 <= |inner| < 8 + U32(inner[4..8]) && inner[0] != 0
    ensures var c := ParseChunk(inner).value;
      1 <= Extent(ChunkBytes(c.ckID, c.ckSize, c.ckData, c.pad)) <= Extent(inner)
  {
    var c := ParseChunk(inner).value;
    ChunkBytesShort(inner);
    PaddedExtent(ChunkBytes(c.ckID, c.ckSize, c.ckData, c.pad), inner, 8 + c.ckSize - |inner|);
  }

  lemma PrefixExtent(b: seq<byte>, s: seq<byte>, m: nat)
    requires 1 <= m <= |s| && b == s[..m] && s[0] != 0
    ensures 1 <= Extent(b) <= Extent(s)
  {
    ExtentCovers(b, 0);
    ExtentPrefix(s, m);
  }

  lemma PaddedExtent(b: seq<byte>, s: seq<byte>, z: nat)
    requires b == s + Zeros(z) && s != [] && s[0] != 0
    ensures 1 <= Extent(b) <= Extent(s)
  {
    ExtentCovers(b, 0);
    ExtentZeros(s, z);
  }

  /** Dropping a non-empty prefix shrinks the input and never its extent. */
  lemma DropExtent(s: seq<byte>, k: nat)
    ensures Extent(Drop(s, k)) <= Extent(s)
    ensures k > 0 && s != [] ==> |Drop(s, k)| < |s|
  {
    if k < |s| {
      ExtentSuffix(s, k);
    }
  }

  /** `bytes(item)` for a node: `Chunk.__bytes__` or `Riff.__bytes__`,
      the latter writing the stored size as is (riff.py:29-34). */
  function NodeBytes(n: Node): (r: seq<byte>)
    ensures |r| >= 8
    decreases n, 1
  {
    match n
    case Chunk(id, size, data, pad) => ChunkBytes(id, size, data, pad)
    case Riff(id, size, form, items, pad) =>
      FitTo(id, 4) + EncodeU32(size) + FitTo(form, 4) + ItemsBytes(items) + pad
  }

  /** The children's bytes, one after the other. */
  function ItemsBytes(items: seq<Node>): seq<byte>
    decreases items, 0
  {
    if items == [] then [] else NodeBytes(items[0]) + ItemsBytes(items[1..])
  }

  lemma {:induction false} ItemsBytesAppend(a: seq<Node>, b: seq<Node>)
    ensures ItemsBytes(a + b) == ItemsBytes(a) + ItemsBytes(b)
  {
    if a == [] {
      assert a + b == b;
    } else {
      assert (a + b)[1..] == a[1..] + b;
      ItemsBytesAppend(a[1..], b);
    }
  }

  /** `Riff.from_bytes` (riff.py:36-48). The header is the first 12 bytes,
      the children are read from the next `ckSize` bytes (so the form type is
      not counted in the size, unlike the RIFF standard) and the pad byte
      follows them when the size is odd. None where `struct.unpack` fails,
      here or in any child. */
  function ParseRiff(data: seq<byte>): (r: Option<Node>)
    ensures r.Some? ==> |data| >= 12 && r.value.Riff? && r.value.ckID == data[..4]
    decreases Max(Extent(data), 1), Min(Extent(data), 1)
  {
    if |data| < 12 then None
    else
      var size := U32(data[4..8]);
      var inner := Slice(data, 12, 12 + size);
      var pad := if size % 2 == 1 then Slice(data, 12 + size, 13 + size) else [];
      InnerExtent(data, size);
      match ParseItems(inner)
      case None => None
      case Some(items) => Some(Riff(data[..4], size, data[8..12], items, pad))
  }

  /** The children parsed after `acc`: None stays None. */
  function Then(acc: seq<Node>, r: Option<seq<Node>>): Option<seq<Node>>
  {
    match r
    case None => None
    case Some(items) => Some(acc + items)
  }

  /** The item one turn of the child loop reads (riff.py:43-45). */
  function NextItem(inner: seq<byte>): Option<Node>
    requires |inner| >= 8
    decreases Extent(inner), 2, 0
  {
    var c := ParseChunk(inner).value;
    NestedExtent(inner);
    if IsListTag(c.ckID) then ParseRiff(ChunkBytes(c.ckID, c.ckSize, c.ckData, c.pad)) else Some(c)
  }

  /** The loop of riff.py:42-47: parse a chunk, re-parse it as a list when
      its tag is `RIFF` or `LIST`, drop `len(bytes(item))` bytes, repeat
      until nothing is left. */
  function ParseItems(inner: seq<byte>): (r: Option<seq<Node>>)
    decreases Extent(inner), 2, |inner|
  {
    if inner == [] then Some([])
    else if |inner| < 8 then None
    else
      var item := NextItem(inner);
      match item
      case None => None
      case Some(it) =>
        var rest := Drop(inner, |NodeBytes(it)|);
        DropExtent(inner, |NodeBytes(it)|);
        Then([it], ParseItems(rest))
  }

  /** `Riff.from_bytes` fails exactly when the header is short or a child
      fails; otherwise its children are those parsed from the next `ckSize`
      bytes (riff.py:38-48). */
  lemma ParseRiffChildren(data: seq<byte>)
    requires |data| >= 12
    ensures var inner := Slice(data, 12, 12 + U32(data[4..8]));
      (ParseRiff(data).None? <==> ParseItems(inner).None?) &&
      (ParseRiff(data).Some? ==> ParseItems(inner) == Some(ParseRiff(data).value.subChunks))
  {
  }

  /** Every child tagged `RIFF` or `LIST` is re-parsed as a list and every
      other child stays a plain chunk (riff.py:43-45). */
  lemma {:induction false} ParseItemsKinds(inner: seq<byte>)
    requires ParseItems(inner).Some?
    ensures var items := ParseItems(inner).value;
      forall i :: 0 <= i < |items| ==> (items[i].Riff? <==> IsListTag(items[i].ckID))
    decreases |inner|
  {
    if inner != [] {
      var c := ParseChunk(inner).value;
      var it := if IsListTag(c.ckID) then ParseRiff(ChunkBytes(c.ckID, c.ckSize, c.ckData, c.pad)) else Some(c);
      var k := |NodeBytes(it.value)|;
      DropExtent(inner, k);
      ParseItemsKinds(Drop(inner, k));
      if IsListTag(c.ckID) {
        var b := ChunkBytes(c.ckID, c.ckSize, c.ckData, c.pad);
        assert FitTo(c.ckID, 4) == c.ckID && b[..4] == c.ckID;
      }
    }
  }

  // ---------------------------------------------------------------------
  // Well-formed trees and the round trip

  /** A child as a conforming writer would emit it: a plain chunk whose
      payload and pad match its size, or a `RIFF`/`LIST` list whose size
      counts its form type and children (the RIFF standard's convention,
      which is also what the child parse of riff.py:43-46 reads back). */
  predicate WellFormedChild(n: Node)
    decreases n
  {
    match n
    case Chunk(id, size, data, pad) =>
      |id| == 4 && !IsListTag(id) && |data| == size && |pad| == size % 2
    case Riff(id, size, form, items, pad) =>
      IsListTag(id) && |form| == 4 && pad == [] && size == 4 + |ItemsBytes(items)| &&
      forall i :: 0 <= i < |items| ==> WellFormedChild(items[i])
  }

  /** A top-level list riff.py reads back: any stored size that covers the
      children, since `Riff.from_bytes` clamps the slice to the input. */
  predicate WellFormedFile(n: Node)
  {
    n.Riff? && |n.ckID| == 4 && |n.identifier| == 4 && n.pad == [] &&
    n.ckSize >= |ItemsBytes(n.subChunks)| &&
    forall i :: 0 <= i < |n.subChunks| ==> WellFormedChild(n.subChunks[i])
  }

  lemma EvenSum(a: nat, b: nat)
    requires a % 2 == 0 && b % 2 == 0
    ensures (a + b) % 2 == 0
  {
  }

  /** Well-formed children serialise to an even number of bytes. */
  lemma {:induction false} ChildEven(n: Node)
    requires WellFormedChild(n)
    ensures |NodeBytes(n)| % 2 == 0
    decreases n, 1
  {
    if n.Riff? {
      ItemsEven(n.subChunks);
      EvenSum(12, |ItemsBytes(n.subChunks)|);
    } else {
      assert |NodeBytes(n)| == 8 + n.ckSize + n.ckSize % 2;
    }
  }

  lemma {:induction false} ItemsEven(items: seq<Node>)
    requires forall i :: 0 <= i < |items| ==> WellFormedChild(items[i])
    ensures |ItemsBytes(items)| % 2 == 0
    decreases items, 0
  {
    if items != [] {
      ChildEven(items[0]);
      ItemsEven(items[1..]);
      EvenSum(|NodeBytes(items[0])|, |ItemsBytes(items[1..])|);
    }
  }

  /** The header fields of a serialised chunk or list. */
  lemma HeaderFields(id: seq<byte>, size: u32, tail: seq<byte>)
    requires |id| == 4
    ensures var d := FitTo(id, 4) + EncodeU32(size) + tail;
      |d| >= 8 && d[..4] == id && U32(d[4..8]) == size && d[8..] == tail
  {
    var d := FitTo(id, 4) + EncodeU32(size) + tail;
    assert FitTo(id, 4) == id;
    assert d[4..8] == EncodeU32(size);
  }

  /** A Python slice taken past offset k is a slice of the tail after k. */
  lemma SliceOfTail(d: seq<byte>, k: nat, a: nat, b: nat)
    requires k <= |d|
    ensures Slice(d, k + a, k + b) == Slice(d[k..], a, b)
  {
  }

  /** A chunk header, a body of the declared size and its pad byte, followed
      by anything, parse as that chunk and serialise back to themselves. */
  lemma ParseFramed(id: seq<byte>, size: u32, body: seq<byte>, pad: seq<byte>, rest: seq<byte>)
    requires |id| == 4 && |body| == size && |pad| == size % 2
    ensures ParseChunk(FitTo(id, 4) + EncodeU32(size) + ((body + pad) + rest)) == Some(Chunk(id, size, body, pad))
    ensures ChunkBytes(id, size, body, pad) == FitTo(id, 4) + EncodeU32(size) + (body + pad)
  {
    var tail := (body + pad) + rest;
    var inner := FitTo(id, 4) + EncodeU32(size) + tail;
    HeaderFields(id, size, tail);
    SliceOfTail(inner, 8, 0, size);
    assert Slice(tail, 0, size) == body;
    if size % 2 == 1 {
      SliceOfTail(inner, 8, size, size + 1);
      assert Slice(tail, size, size + 1) == pad;
    }
    assert FitTo(body, size) == body;
    AppendAssoc(FitTo(id, 4) + EncodeU32(size), body, pad);
  }

  /** The child loop reads a well-formed plain chunk back. */
  lemma ChunkStep(n: Node, rest: seq<byte>)
    requires n.Chunk? && |n.ckID| == 4 && |n.ckData| == n.ckSize && |n.pad| == n.ckSize % 2
    ensures ParseChunk(NodeBytes(n) + rest) == Some(n)
  {
    var head := FitTo(n.ckID, 4) + EncodeU32(n.ckSize);
    ParseFramed(n.ckID, n.ckSize, n.ckData, n.pad, rest);
    AppendAssoc(head, n.ckData + n.pad, rest);
  }

  /** The child loop reads a well-formed nested list as a plain chunk whose
      bytes are the list's own bytes (riff.py:43-45). */
  lemma ListChunk(n: Node, rest: seq<byte>)
    requires n.Riff? && IsListTag(n.ckID) && |n.identifier| == 4 && n.pad == []
    requires n.ckSize == 4 + |ItemsBytes(n.subChunks)| && |ItemsBytes(n.subChunks)| % 2 == 0
    ensures var c := ParseChunk(NodeBytes(n) + rest).value;
      c.ckID == n.ckID && ChunkBytes(c.ckID, c.ckSize, c.ckData, c.pad) == NodeBytes(n)
  {
    var head := FitTo(n.ckID, 4) + EncodeU32(n.ckSize);
    var body := n.identifier + ItemsBytes(n.subChunks);
    var nb := NodeBytes(n);
    EvenSum(4, |ItemsBytes(n.subChunks)|);
    assert FitTo(n.identifier, 4) == n.identifier;
    assert nb == head + body;
    assert body + [] == body;
    AppendAssoc(head, body + [], rest);
    ParseFramed(n.ckID, n.ckSize, body, [], rest);
  }

  /** The first step of the child loop on a well-formed child followed by
      anything: it reads back that child. */
  lemma {:induction false} ChildStep(n: Node, rest: seq<byte>)
    requires WellFormedChild(n)
    ensures NextItem(NodeBytes(n) + rest) == Some(n)
    decreases n, 1
  {
    if n.Chunk? {
      ChunkStep(n, rest);
    } else {
      ItemsEven(n.subChunks);
      ListChunk(n, rest);
      assert WellFormedFile(n);
      FileRoundTrip(n);
    }
  }

  /** One turn of the child loop (riff.py:42-47): the first item, then the
      children of what is left after dropping that item's bytes. */
  lemma ParseItemsStep(inner: seq<byte>)
    requires |inner| >= 8
    ensures ParseItems(inner) == match NextItem(inner)
      case None => None
      case Some(it) => Then([it], ParseItems(Drop(inner, |NodeBytes(it)|)))
  {
  }

  /** Serialising well-formed children and parsing them back gives them back. */
  lemma {:induction false} ItemsRoundTrip(items: seq<Node>)
    requires forall i :: 0 <= i < |items| ==> WellFormedChild(items[i])
    ensures ParseItems(ItemsBytes(items)) == Some(items)
    decreases items, 2
  {
    if items != [] {
      var b, rest := NodeBytes(items[0]), ItemsBytes(items[1..]);
      ChildStep(items[0], rest);
      assert Drop(b + rest, |b|) == rest;
      ItemsRoundTrip(items[1..]);
      ParseItemsStep(b + rest);
      assert items == [items[0]] + items[1..];
    }
  }

  /** Round trip for a list (riff.py:29-48): `Riff.from_bytes(bytes(r)) == r`. */
  lemma {:induction false} FileRoundTrip(n: Node)
    requires WellFormedFile(n)
    ensures ParseRiff(NodeBytes(n)) == Some(n)
    decreases n, 0
  {
    var size: nat := n.ckSize;
    var items := ItemsBytes(n.subChunks);
    var body := n.identifier + items;
    var data := NodeBytes(n);
    assert FitTo(n.identifier, 4) == n.identifier;
    assert data == FitTo(n.ckID, 4) + EncodeU32(size) + body;
    HeaderFields(n.ckID, size, body);
    SliceOfTail(data, 8, 4, 4 + size);
    assert Slice(body, 4, 4 + size) == items;
    assert data[8..12] == n.identifier;
    ItemsRoundTrip(n.subChunks);
    ParseRiffOf(data, n.subChunks);
  }

  /** `Riff.from_bytes` on an input whose children parse (riff.py:38-48). */
  lemma ParseRiffOf(data: seq<byte>, items: seq<Node>)
    requires |data| >= 12 && ParseItems(Slice(data, 12, 12 + U32(data[4..8]))) == Some(items)
    ensures var size := U32(data[4..8]);
      ParseRiff(data) == Some(Riff(data[..4], size, data[8..12], items,
        if size % 2 == 1 then Slice(data, 12 + size, 13 + size) else []))
  {
  }

  // ---------------------------------------------------------------------
  // The loops of riff.py as methods

  /** `Riff.from_bytes` (riff.py:36-48) with its child loop: each turn
      parses a chunk, re-parses a `RIFF`/`LIST` chunk from its own bytes,
      drops `len(bytes(item))` bytes and appends the item. */
  method ReadRiff(data: seq<byte>) returns (r: Option<Node>)
    ensures r == ParseRiff(data)
    decreases Max(Extent(data), 1), Min(Extent(data), 1)
  {
    if |data| < 12 {
      return None;
    }
    var size: nat := U32(data[4..8]);
    var inner := Slice(data, 12, 12 + size);
    var pad := if size % 2 == 1 then Slice(data, 12 + size, 13 + size) else [];
    InnerExtent(data, size);
    ghost var inner0 := inner;
    var items: seq<Node> := [];
    LoopStart(inner);
    while |inner| > 0
      invariant ChildLoop(inner0, items, inner)
      decreases |inner|
    {
      if |inner| < 8 {
        LoopFail(data, inner0, items, inner);
        return None;
      }
      var next := ReadItem(inner);
      if next.None? {
        LoopFail(data, inner0, items, inner);
        return None;
      }
      var item := next.value;
      var b := WriteNode(item);
      LoopStep(inner0, items, inner, item);
      inner := Drop(inner, |b|);
      items := items + [item];
    }
    LoopDone(data, inner0, items);
    return Some(Riff(data[..4], size, data[8..12], items, pad));
  }

  /** The invariant of the child loop: what is left never extends further
      than the start, and the children parsed so far followed by those of
      what is left are the children of the whole. */
  ghost predicate ChildLoop(inner0: seq<byte>, items: seq<Node>, inner: seq<byte>)
  {
    Extent(inner) <= Extent(inner0) && ParseItems(inner0) == Then(items, ParseItems(inner))
  }

  lemma LoopStart(inner: seq<byte>)
    ensures ChildLoop(inner, [], inner)
  {
    if ParseItems(inner).Some? {
      assert [] + ParseItems(inner).value == ParseItems(inner).value;
    }
  }

  lemma LoopStep(inner0: seq<byte>, items: seq<Node>, inner: seq<byte>, item: Node)
    requires ChildLoop(inner0, items, inner) && |inner| >= 8 && NextItem(inner) == Some(item)
    ensures ChildLoop(inner0, items + [item], Drop(inner, |NodeBytes(item)|))
    ensures |Drop(inner, |NodeBytes(item)|)| < |inner|
  {
    var rest := Drop(inner, |NodeBytes(item)|);
    ParseItemsStep(inner);
    DropExtent(inner, |NodeBytes(item)|);
    ThenAppend(items, item, ParseItems(rest));
  }

  lemma LoopFail(data: seq<byte>, inner0: seq<byte>, items: seq<Node>, inner: seq<byte>)
    requires |data| >= 12 && inner0 == Slice(data, 12, 12 + U32(data[4..8]))
    requires ChildLoop(inner0, items, inner) && inner != []
    requires |inner| < 8 || NextItem(inner).None?
    ensures ParseRiff(data).None?
  {
    if |inner| >= 8 {
      ParseItemsStep(inner);
    }
    ParseRiffChildren(data);
  }

  lemma LoopDone(data: seq<byte>, inner0: seq<byte>, items: seq<Node>)
    requires |data| >= 12 && inner0 == Slice(data, 12, 12 + U32(data[4..8]))
    requires ChildLoop(inner0, items, [])
    ensures var size := U32(data[4..8]);
      ParseRiff(data) == Some(Riff(data[..4], size, data[8..12], items,
        if size % 2 == 1 then Slice(data, 12 + size, 13 + size) else []))
  {
    assert items + [] == items;
    ParseRiffOf(data, items);
  }

  /** One child (riff.py:43-45): a chunk, re-parsed as a list when tagged
      `RIFF` or `LIST`. */
  method ReadItem(inner: seq<byte>) returns (item: Option<Node>)
    requires |inner| >= 8
    ensures item == NextItem(inner)
    decreases Extent(inner), 2, 0
  {
    var c := ParseChunk(inner).value;
    item := Some(c);
    if IsListTag(c.ckID) {
      NestedExtent(inner);
      item := ReadRiff(ChunkBytes(c.ckID, c.ckSize, c.ckData, c.pad));
    }
  }

  lemma ThenAppend(acc: seq<Node>, it: Node, r: Option<seq<Node>>)
    ensures Then(acc, Then([it], r)) == Then(acc + [it], r)
  {
    if r.Some? {
      AppendAssoc(acc, [it], r.value);
    }
  }

  /** `bytes(item)` (riff.py:11-12, riff.py:29-34): `Riff.__bytes__`
      accumulates the header, each child's bytes in order, then the pad. */
  method WriteNode(n: Node) returns (out: seq<byte>)
    ensures out == NodeBytes(n)
    decreases n
  {
    match n
    case Chunk(id, size, data, pad) =>
      out := ChunkBytes(id, size, data, pad);
    case Riff(id, size, form, items, pad) =>
      var head := FitTo(id, 4) + EncodeU32(size) + FitTo(form, 4);
      out := head;
      var i := 0;
      while i < |items|
        invariant 0 <= i <= |items|
        invariant out == head + ItemsBytes(items[..i])
      {
        var b := WriteNode(items[i]);
        assert items[..i + 1] == items[..i] + [items[i]];
        ItemsBytesAppend(items[..i], [items[i]]);
        assert ItemsBytes([items[i]]) == b;
        AppendAssoc(head, ItemsBytes(items[..i]), b);
        out := out + b;
        i := i + 1;
      }
      assert items[..|items|] == items;
      out := out + pad;
  }
}
