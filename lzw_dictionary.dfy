/** Facts about the dictionary of lzw.py's compressing loop: the input it
    can encode, its size bound, and the distinctness of its entries. */
module LzwDictionary {
  import opened Wrappers
  import opened Bytes
  import opened Lzw

  /** Every pixel from index on is a palette index. */
  predicate InPalette(ps: nat, pixels: seq<int>, index: nat)
  {
    forall i :: index <= i < |pixels| ==> 0 <= pixels[i] < ps
  }

  /** A symbol of an added entry is a palette index, except that the last
      symbol of the newest entry may still be the pixel at index, which the
      loop has not looked at yet. */
  predicate SymbolOk(ps: nat, pixels: seq<int>, index: nat, d: seq<Entry>, k: nat, j: nat)
    requires k < |d| && d[k].Run? && j < |d[k].symbols|
  {
    0 <= d[k].symbols[j] < ps ||
    (k == |d| - 1 && j == |d[k].symbols| - 1 && index < |pixels| && d[k].symbols[j] == pixels[index])
  }

  /** The dictionary the loop holds at index: the initial entries, then
      added strings of at least two symbols. */
  predicate DictionaryOk(ps: nat, pixels: seq<int>, index: nat, d: seq<Entry>)
  {
    |d| >= ps + 2 && (forall i :: 0 <= i < ps ==> d[i] == Run([i])) &&
    d[ps] == ClearCode && d[ps + 1] == EndCode &&
    forall k :: ps + 2 <= k < |d| ==>
      d[k].Run? && |d[k].symbols| >= 2 &&
      forall j :: 0 <= j < |d[k].symbols| ==> SymbolOk(ps, pixels, index, d, k, j)
  }

  lemma {:induction false} InitialOk(ps: nat, pixels: seq<int>)
    ensures DictionaryOk(ps, pixels, 0, InitialDictionary(ps))
  {
  }

  /** A pixel outside the palette has no dictionary string to start with,
      so `dictionary.index` raises there. */
  lemma {:induction false} StartOutside(ps: nat, pixels: seq<int>, index: nat, d: seq<Entry>, width: nat)
    requires index < |pixels| && DictionaryOk(ps, pixels, index, d)
    requires !(0 <= pixels[index] < ps)
    ensures Codes(ps, pixels, d, index, width).None?
  {
    var e := pixels[index..index + Longest(d, pixels, index)];
    forall k | 0 <= k < |d| ensures d[k] != Run(e) {
      if k >= ps + 2 {
        assert SymbolOk(ps, pixels, index, d, k, 0);
      }
    }
    IndexOfSpec(d, Run(e));
    CodesFail(ps, pixels, d, index, width, e);
  }

  /** A dictionary string found at a palette index holds only palette indices. */
  lemma {:induction false} FoundInPalette(ps: nat, pixels: seq<int>, index: nat, d: seq<Entry>, c: nat, e: seq<int>)
    requires index < |pixels| && DictionaryOk(ps, pixels, index, d) && 0 <= pixels[index] < ps
    requires c < |d| && d[c] == Run(e) && e != [] && e[0] == pixels[index]
    ensures forall j :: 0 <= j < |e| ==> 0 <= e[j] < ps
  {
    if c >= ps + 2 {
      forall j | 0 <= j < |e| ensures 0 <= e[j] < ps {
        assert SymbolOk(ps, pixels, index, d, c, j);
      }
    }
  }

  /** One pass of the loop keeps the dictionary well formed. */
  lemma {:induction false} GrowOk(ps: nat, pixels: seq<int>, index: nat, d: seq<Entry>, e: seq<int>, next: nat)
    requires index < next <= |pixels| && e == pixels[index..next]
    requires DictionaryOk(ps, pixels, index, d)
    requires forall j :: 0 <= j < |e| ==> 0 <= e[j] < ps
    ensures DictionaryOk(ps, pixels, next, Grow(d, pixels, e, next))
  {
    var d' := Grow(d, pixels, e, next);
    assert e[0] == pixels[index];
    forall k | ps + 2 <= k < |d'|
      ensures d'[k].Run? && |d'[k].symbols| >= 2
      ensures forall j :: 0 <= j < |d'[k].symbols| ==> SymbolOk(ps, pixels, next, d', k, j)
    {
      if k < |d| {
        assert d'[k] == d[k];
        forall j | 0 <= j < |d'[k].symbols| ensures SymbolOk(ps, pixels, next, d', k, j) {
          assert SymbolOk(ps, pixels, index, d, k, j);
        }
      } else {
        assert d'[k].symbols == e + [pixels[next]];
        forall j | 0 <= j < |d'[k].symbols| ensures SymbolOk(ps, pixels, next, d', k, j) {
          if j < |e| {
            assert d'[k].symbols[j] == e[j];
          }
        }
      }
    }
  }

  /** `encode` finds a code for every string exactly when every pixel from
      index on is a palette index. */
  lemma {:induction false} CodesExist(ps: nat, pixels: seq<int>, d: seq<Entry>, index: nat, width: nat)
    requires index <= |pixels| && DictionaryOk(ps, pixels, index, d)
    ensures Codes(ps, pixels, d, index, width).Some? <==> InPalette(ps, pixels, index)
    decreases |pixels| - index
  {
    if index < |pixels| {
      if !(0 <= pixels[index] < ps) {
        StartOutside(ps, pixels, index, d, width);
      } else {
        var e, c, next, w, d' := CodeAt(ps, pixels, d, index, width);
        FoundInPalette(ps, pixels, index, d, c, e);
        GrowOk(ps, pixels, index, d, e, next);
        CodesExist(ps, pixels, d', next, w);
        InPaletteSplit(ps, pixels, index, next);
      }
    }
  }

  /** At a palette index the loop always finds a string and its code. */
  lemma {:induction false} CodeAt(ps: nat, pixels: seq<int>, d: seq<Entry>, index: nat, width: nat)
    returns (e: seq<int>, c: nat, next: nat, w: nat, d': seq<Entry>)
    requires index < |pixels| && DictionaryOk(ps, pixels, index, d) && 0 <= pixels[index] < ps
    ensures index < next <= |pixels| && e == pixels[index..next] && e != [] && e[0] == pixels[index]
    ensures c < |d| && d[c] == Run(e)
    ensures d' == Grow(d, pixels, e, next) && w == Widen(d, width)
    ensures Codes(ps, pixels, d, index, width) == Prepend([(c, w)], Codes(ps, pixels, d', next, w))
  {
    e := pixels[index..index + Longest(d, pixels, index)];
    FoundAt(ps, pixels, d, index);
    IndexOfSpec(d, Run(e));
    c := IndexOf(d, Run(e)).value;
    next := index + |e|;
    w := Widen(d, width);
    d' := Grow(d, pixels, e, next);
    CodesStep(ps, pixels, d, index, width, e, c, d', next, w);
  }

  /** The string chosen at a palette index is in the dictionary. */
  lemma {:induction false} FoundAt(ps: nat, pixels: seq<int>, d: seq<Entry>, index: nat)
    requires index < |pixels| && DictionaryOk(ps, pixels, index, d) && 0 <= pixels[index] < ps
    ensures Run(pixels[index..index + Longest(d, pixels, index)]) in d
  {
    var n := Longest(d, pixels, index);
    LongestInDictionary(d, pixels, index);
    if n == 1 {
      assert d[pixels[index]] == Run(pixels[index..index + n]);
    }
  }

  lemma {:induction false} InPaletteSplit(ps: nat, pixels: seq<int>, index: nat, next: nat)
    requires index <= next <= |pixels|
    ensures InPalette(ps, pixels, index) <==>
      (forall j :: 0 <= j < next - index ==> 0 <= pixels[index..next][j] < ps) && InPalette(ps, pixels, next)
  {
    if InPalette(ps, pixels, next) && forall j :: 0 <= j < next - index ==> 0 <= pixels[index..next][j] < ps {
      forall i | index <= i < |pixels| ensures 0 <= pixels[i] < ps {
        if i < next {
          assert pixels[i] == pixels[index..next][i - index];
        }
      }
    }
  }

  /** The compressing path of `encode` succeeds exactly when every pixel is
      a palette index and the header byte `max(2, palette_size_bits)` fits
      in a byte. */
  lemma {:induction false} CompressedOkIff(pixels: seq<int>, ps: nat)
    ensures Compressed(pixels, ps).Ok? <==> InPalette(ps, pixels, 0) && Max(2, CodeSize(ps)) < 0x100
  {
    InitialOk(ps, pixels);
    CodesExist(ps, pixels, InitialDictionary(ps), 0, CodeSize(ps) + 1);
    CompressedUnfold(pixels, ps);
  }

  /** Entries are pairwise distinct. */
  predicate Distinct(d: seq<Entry>)
  {
    forall i, j :: 0 <= i < j < |d| ==> d[i] != d[j]
  }

  lemma {:induction false} InitialDistinct(ps: nat)
    ensures Distinct(InitialDictionary(ps))
  {
  }

  /** The string the loop adds is never in the dictionary already: it
      would match at index and be longer than the longest match. */
  lemma {:induction false} GrowDistinct(d: seq<Entry>, pixels: seq<int>, index: nat)
    requires index < |pixels| && Distinct(d)
    ensures var e := pixels[index..index + Longest(d, pixels, index)];
      Distinct(Grow(d, pixels, e, index + |e|))
  {
    var n := Longest(d, pixels, index);
    var e := pixels[index..index + n];
    var next := index + |e|;
    if next < |pixels| && |d| < 0x1000 {
      forall k | 0 <= k < |d| ensures d[k] != Run(e + [pixels[next]]) {
        NotLonger(d, pixels, index, n, k);
      }
    }
  }

  /** No entry is the chosen string followed by the next pixel. */
  lemma {:induction false} NotLonger(d: seq<Entry>, pixels: seq<int>, index: nat, n: nat, k: nat)
    requires index < |pixels| && k < |d| && n == Longest(d, pixels, index) && index + n < |pixels|
    ensures d[k] != Run(pixels[index..index + n] + [pixels[index + n]])
  {
    var x := pixels[index..index + n] + [pixels[index + n]];
    assert x == pixels[index..index + n + 1];
    if Matches(pixels, index, d[k]) {
      LongestIsMaximal(d, pixels, index, k);
    }
    assert Slice(pixels, index, index + |x|) == x;
  }

  /** The dictionary never grows past 0x1000 entries, gains at most one
      entry per pass and keeps its earlier entries. */
  lemma {:induction false} GrowBounds(d: seq<Entry>, pixels: seq<int>, e: seq<int>, next: nat)
    ensures var d' := Grow(d, pixels, e, next);
      |d| <= |d'| <= |d| + 1 && |d'| <= Max(|d|, 0x1000) && d'[..|d|] == d
  {
  }
}
