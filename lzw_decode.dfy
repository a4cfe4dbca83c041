/** A reference LZW decoder for the codes of lzw.py's compressing path, in
    the manner of GIF89a Appendix F: each code names a dictionary string,
    the decoder adds the previous string extended by the first symbol of the
    current one, and a code one past the end of the dictionary stands for
    the previous string extended by its own first symbol. Decoding the codes
    that `encode` pushes gives back its pixels. The decoder works on code
    numbers; unpacking the variable-width bit fields is not part of it. */
module LzwDecoder {
  import opened Wrappers
  import opened Bytes
  import opened Lzw

  /** The code numbers of a sequence of (number, width) pushes. */
  function Numbers(pushes: seq<(nat, nat)>): (r: seq<nat>)
    ensures |r| == |pushes|
  {
    if pushes == [] then [] else [pushes[0].0] + Numbers(pushes[1..])
  }

  /** The string code c stands for, or [] where it names none: a string of
      the dictionary, or for the next free code the previous string followed
      by its own first symbol. */
  function Current(dict: seq<Entry>, prev: Option<seq<int>>, c: nat): seq<int>
  {
    if c < |dict| then
      match dict[c]
      case Run(symbols) => symbols
      case _ => []
    else if c == |dict| && prev.Some? && prev.value != [] then prev.value + [prev.value[0]]
    else []
  }

  /** Decodes codes until END with the given dictionary and previous
      string; None on a code that names no string or on a missing END. */
  function DecodeFrom(ps: nat, dict: seq<Entry>, prev: Option<seq<int>>, codes: seq<nat>): Option<seq<int>>
    decreases |codes|
  {
    if codes == [] then None
    else
      var c := codes[0];
      if c < |dict| && dict[c] == EndCode then Some([])
      else if c < |dict| && dict[c] == ClearCode then DecodeFrom(ps, InitialDictionary(ps), None, codes[1..])
      else
        var cur := Current(dict, prev, c);
        if cur == [] then None
        else
          var dict' := if prev.Some? && |dict| < 0x1000 then dict + [Run(prev.value + [cur[0]])] else dict;
          Prepend(cur, DecodeFrom(ps, dict', Some(cur), codes[1..]))
  }

  /** Decoding from the initial dictionary of `palette_size` symbols. */
  function Decode(ps: nat, codes: seq<nat>): Option<seq<int>>
  {
    DecodeFrom(ps, InitialDictionary(ps), None, codes)
  }

  /** How the encoder's dictionary runs ahead of the decoder's: once a
      string has been decoded, the encoder has already added it followed by
      the next pixel, which the decoder adds only on the next code. */
  predicate InStep(pixels: seq<int>, index: nat, d: seq<Entry>, dict: seq<Entry>, prev: Option<seq<int>>)
  {
    match prev
    case None => d == dict
    case Some(p) =>
      p != [] && d == (if index < |pixels| && |dict| < 0x1000 then dict + [Run(p + [pixels[index]])] else dict)
  }

  /** The decoder's reading of the code the encoder pushes for the string e
      at index: it decodes e and ends up with the encoder's dictionary. */
  lemma {:induction false} DecodeStep(ps: nat, pixels: seq<int>, index: nat, d: seq<Entry>, dict: seq<Entry>,
                                      prev: Option<seq<int>>, e: seq<int>, c: nat, tail: seq<nat>)
    requires index < |pixels| && InStep(pixels, index, d, dict, prev)
    requires c < |d| && d[c] == Run(e) && e != [] && e[0] == pixels[index]
    ensures DecodeFrom(ps, dict, prev, [c] + tail) == Prepend(e, DecodeFrom(ps, d, Some(e), tail))
  {
    var codes := [c] + tail;
    assert codes[0] == c && codes[1..] == tail;
    if c < |dict| {
      assert dict[c] == d[c];
    } else {
      var p := prev.value;
      assert d == dict + [Run(p + [pixels[index]])];
      assert e == p + [pixels[index]];
      assert e[0] == p[0];
    }
    assert Current(dict, prev, c) == e;
  }

  /** END, read where the dictionary holds it, ends decoding. */
  lemma {:induction false} DecodeEnd(ps: nat, dict: seq<Entry>, prev: Option<seq<int>>, c: nat)
    requires c < |dict| && dict[c] == EndCode
    ensures DecodeFrom(ps, dict, prev, [c]) == Some([])
  {
  }

  lemma {:induction false} NumbersCons(c: nat, w: nat, rest: seq<(nat, nat)>)
    ensures Numbers([(c, w)] + rest) == [c] + Numbers(rest)
  {
    assert ([(c, w)] + rest)[1..] == rest;
  }

  /** The codes from index on decode to the pixels from index on. */
  lemma {:induction false} RoundTripFrom(ps: nat, pixels: seq<int>, d: seq<Entry>, index: nat, width: nat,
                                         dict: seq<Entry>, prev: Option<seq<int>>)
    requires index <= |pixels| && InStep(pixels, index, d, dict, prev)
    requires ps + 1 < |dict| && dict[ps + 1] == EndCode
    requires Codes(ps, pixels, d, index, width).Some?
    ensures DecodeFrom(ps, dict, prev, Numbers(Codes(ps, pixels, d, index, width).value)) == Some(pixels[index..])
    decreases |pixels| - index
  {
    var r := Codes(ps, pixels, d, index, width);
    if index == |pixels| {
      assert r == Some([(ps + 1, width)]);
      assert Numbers(r.value) == [ps + 1];
      DecodeEnd(ps, dict, prev, ps + 1);
      assert pixels[index..] == [];
    } else {
      var e, next, w, d' := RoundTripStep(ps, pixels, d, index, width, dict, prev);
      RoundTripFrom(ps, pixels, d', next, w, d, Some(e));
      SuffixSplit(pixels, index, next);
    }
  }

  /** One code of RoundTripFrom: the string e the encoder chooses at index
      is what the decoder reads, and both move on in step. */
  lemma {:induction false} RoundTripStep(ps: nat, pixels: seq<int>, d: seq<Entry>, index: nat, width: nat,
                                         dict: seq<Entry>, prev: Option<seq<int>>)
    returns (e: seq<int>, next: nat, w: nat, d': seq<Entry>)
    requires index < |pixels| && InStep(pixels, index, d, dict, prev)
    requires ps + 1 < |dict| && dict[ps + 1] == EndCode
    requires Codes(ps, pixels, d, index, width).Some?
    ensures index < next <= |pixels| && e == pixels[index..next]
    ensures InStep(pixels, next, d', d, Some(e)) && ps + 1 < |d| && d[ps + 1] == EndCode
    ensures Codes(ps, pixels, d', next, w).Some?
    ensures DecodeFrom(ps, dict, prev, Numbers(Codes(ps, pixels, d, index, width).value))
      == Prepend(e, DecodeFrom(ps, d, Some(e), Numbers(Codes(ps, pixels, d', next, w).value)))
  {
    var c;
    e, c, next, w, d' := ChooseCode(ps, pixels, d, index, width);
    var rest := Codes(ps, pixels, d', next, w);
    NumbersCons(c, w, rest.value);
    DecodeStep(ps, pixels, index, d, dict, prev, e, c, Numbers(rest.value));
  }

  /** The string, code, next index, width and dictionary of one pass of the
      encoder's loop, when it does not fail. */
  lemma {:induction false} ChooseCode(ps: nat, pixels: seq<int>, d: seq<Entry>, index: nat, width: nat)
    returns (e: seq<int>, c: nat, next: nat, w: nat, d': seq<Entry>)
    requires index < |pixels| && Codes(ps, pixels, d, index, width).Some?
    ensures index < next <= |pixels| && e == pixels[index..next] && e != [] && e[0] == pixels[index]
    ensures c < |d| && d[c] == Run(e)
    ensures d' == Grow(d, pixels, e, next) && w == Widen(d, width)
    ensures Codes(ps, pixels, d, index, width) == Prepend([(c, w)], Codes(ps, pixels, d', next, w))
  {
    e := pixels[index..index + Longest(d, pixels, index)];
    assert Codes(ps, pixels, d, index, width) == CodesWith(ps, pixels, d, index, width, e);
    var code := IndexOf(d, Run(e));
    assert code.Some?;
    c := code.value;
    next := index + |e|;
    w := Widen(d, width);
    d' := Grow(d, pixels, e, next);
    CodesWithStep(ps, pixels, d, index, width, e, c, d', next, w);
    IndexOfSpec(d, Run(e));
  }

  /** The codes the compressing path of `encode` pushes, CLEAR first and
      END last, decode to its pixels. */
  lemma {:induction false} CodesRoundTrip(pixels: seq<int>, ps: nat, codes: seq<(nat, nat)>)
    requires Codes(ps, pixels, InitialDictionary(ps), 0, CodeSize(ps) + 1) == Some(codes)
    ensures Decode(ps, Numbers([(ps, CodeSize(ps) + 1)] + codes)) == Some(pixels)
  {
    var init := InitialDictionary(ps);
    NumbersCons(ps, CodeSize(ps) + 1, codes);
    var ns := [ps] + Numbers(codes);
    assert ns[0] == ps && ns[1..] == Numbers(codes);
    assert DecodeFrom(ps, init, None, ns) == DecodeFrom(ps, init, None, Numbers(codes));
    RoundTripFrom(ps, pixels, init, 0, CodeSize(ps) + 1, init, None);
    assert pixels[0..] == pixels;
  }
}
