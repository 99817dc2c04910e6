/** Exact palettes: the colour identity of region pixels, the order in which new colours
    enter a palette, and the two exact strategies of `run` (grow the caller's global
    palette, or build a fresh local one). */
module Palettes {
  import opened Pixels

  /** Packed colour of pixel `p` of an RGBA buffer, alpha ignored:
      `0 << 24 | r << 16 | g << 8 | b`. */
  function ColorAt(rgba: seq<byte>, p: nat): int
    requires 4 * p + 3 < |rgba|
  {
    Pack(rgba[4 * p], rgba[4 * p + 1], rgba[4 * p + 2])
  }

  /** The packed colour of every pixel, in pixel order. */
  function Colors(rgba: seq<byte>): (cs: seq<int>)
    ensures |cs| == |rgba| / 4
  {
    seq(|rgba| / 4, p requires 0 <= p < |rgba| / 4 => ColorAt(rgba, p))
  }

  /** The bytes at `4 * pixel` are the red, green and blue of that pixel's colour. */
  lemma ColorOf(rgba: seq<byte>, n: nat, pixel: nat)
    requires |rgba| == 4 * n && pixel < n
    ensures |Colors(rgba)| == n && 4 * pixel + 3 < |rgba|
    ensures Colors(rgba)[pixel] == Pack(rgba[4 * pixel], rgba[4 * pixel + 1], rgba[4 * pixel + 2])
  {
  }

  /** The colours among the first `n` of `cs` that are not in `known`, each once, in
      order of first appearance: what a palette that starts as `known` has appended to
      it after those pixels are looked up one by one. */
  function NewColors(known: seq<int>, cs: seq<int>, n: nat): seq<int>
    requires n <= |cs|
  {
    if n == 0 then []
    else
      var prior := NewColors(known, cs, n - 1);
      var c := cs[n - 1];
      if c in known || c in prior then prior else prior + [c]
  }

  predicate Distinct(s: seq<int>) {
    forall i, j :: 0 <= i < j < |s| ==> s[i] != s[j]
  }

  /** The first `n` pixels' indices name their own colours in the palette. */
  predicate Decodes(pixels: seq<byte>, palette: seq<int>, cs: seq<int>, n: nat)
    requires n <= |pixels| && n <= |cs|
  {
    forall p :: 0 <= p < n ==> pixels[p] < |palette| && palette[pixels[p]] == cs[p]
  }

  /** Every pixel's index names its own colour in the palette. */
  predicate Lossless(pixels: seq<byte>, palette: seq<int>, cs: seq<int>) {
    |pixels| == |cs| && Decodes(pixels, palette, cs, |cs|)
  }

  /** An exact palette is lossless on the RGB lanes: shifting and masking the entry a
      pixel's index names gives back that pixel's red, green and blue bytes. */
  lemma LosslessLanes(rgba: seq<byte>, pixels: seq<byte>, palette: seq<int>, p: nat)
    requires |rgba| % 4 == 0 && Lossless(pixels, palette, Colors(rgba)) && p < |pixels|
    ensures 4 * p + 2 < |rgba| && pixels[p] < |palette|
    ensures Red(palette[pixels[p]]) == rgba[4 * p]
    ensures Green(palette[pixels[p]]) == rgba[4 * p + 1]
    ensures Blue(palette[pixels[p]]) == rgba[4 * p + 2]
  {
    ColorOf(rgba, |rgba| / 4, p);
    UnpackPack(rgba[4 * p], rgba[4 * p + 1], rgba[4 * p + 2]);
  }

  /** A run of one colour adds that colour once. */
  lemma {:induction false} UniformColors(cs: seq<int>, n: nat)
    requires 0 < n <= |cs| && forall p :: 0 <= p < |cs| ==> cs[p] == cs[0]
    ensures NewColors([], cs, n) == [cs[0]]
  {
    if n > 1 {
      UniformColors(cs, n - 1);
    }
  }

  /** A colour is new exactly when it occurs among the pixels and is not already known. */
  lemma {:induction false} NewColorsMember(known: seq<int>, cs: seq<int>, n: nat, c: int)
    requires n <= |cs|
    ensures c in NewColors(known, cs, n) <==> c in cs[..n] && c !in known
  {
    if n > 0 {
      NewColorsMember(known, cs, n - 1, c);
      assert cs[..n] == cs[..n - 1] + [cs[n - 1]];
    }
  }

  /** New colours are pairwise distinct and none of them was known. */
  lemma {:induction false} NewColorsDistinct(known: seq<int>, cs: seq<int>, n: nat)
    requires n <= |cs|
    ensures Distinct(NewColors(known, cs, n))
    ensures forall c :: c in NewColors(known, cs, n) ==> c !in known
  {
    if n > 0 {
      NewColorsDistinct(known, cs, n - 1);
    }
  }

  /** The new colours of fewer pixels are a prefix of the new colours of more of them. */
  lemma {:induction false} NewColorsPrefix(known: seq<int>, cs: seq<int>, m: nat, n: nat)
    requires m <= n <= |cs|
    ensures NewColors(known, cs, m) <= NewColors(known, cs, n)
  {
    if m < n {
      NewColorsPrefix(known, cs, m, n - 1);
    }
  }

  lemma {:induction false} DistinctCount(s: seq<int>)
    requires Distinct(s)
    ensures |(set c | c in s)| == |s|
  {
    if s != [] {
      var front := s[..|s| - 1];
      DistinctCount(front);
      assert (set c | c in s) == (set c | c in front) + {s[|s| - 1]};
    }
  }

  /** A fresh local palette ends up with one entry per distinct colour of the region. */
  lemma DistinctColors(cs: seq<int>)
    ensures |NewColors([], cs, |cs|)| == |(set c | c in cs)|
  {
    var all := NewColors([], cs, |cs|);
    NewColorsDistinct([], cs, |cs|);
    DistinctCount(all);
    forall c ensures c in all <==> c in cs {
      NewColorsMember([], cs, |cs|, c);
      assert cs[..|cs|] == cs;
    }
    assert (set c | c in all) == (set c | c in cs);
  }

  // ---- the lookup table shared by strategies A and B ----

  /** The lookup table of the first `n` palette entries: `colorsHash[palette[i]] = i` for
      every `i < n` in turn, so a colour listed twice maps to its last position. */
  function Hash(palette: seq<int>, n: nat): map<int, int>
    requires n <= |palette|
  {
    if n == 0 then map[] else Hash(palette, n - 1)[palette[n - 1] := n - 1]
  }

  /** The lookup table holds exactly the colours of the entries it was built from, each
      mapped to the last position where it occurs. */
  lemma {:induction false} HashAt(palette: seq<int>, n: nat, c: int)
    requires n <= |palette|
    ensures c in Hash(palette, n) <==> c in palette[..n]
    ensures c in Hash(palette, n) ==>
      && 0 <= Hash(palette, n)[c] < n && palette[Hash(palette, n)[c]] == c
      && forall i :: Hash(palette, n)[c] < i < n ==> palette[i] != c
  {
    if n > 0 {
      HashAt(palette, n - 1, c);
      assert palette[..n] == palette[..n - 1] + [palette[n - 1]];
    }
  }

  /** Appending to the palette leaves the table of its first `n` entries alone. */
  lemma {:induction false} HashAppend(palette: seq<int>, c: int, n: nat)
    requires n <= |palette|
    ensures Hash(palette + [c], n) == Hash(palette, n)
  {
    if n > 0 {
      HashAppend(palette, c, n - 1);
    }
  }

  /** The lookup table of the global palette, built by one pass over it. */
  method IndexPalette(palette: seq<int>) returns (colorsHash: map<int, int>)
    ensures colorsHash == Hash(palette, |palette|)
  {
    colorsHash := map[];
    var i := 0;
    while i < |palette|
      invariant 0 <= i <= |palette|
      invariant colorsHash == Hash(palette, i)
    {
      colorsHash := colorsHash[palette[i] := i];
      i := i + 1;
    }
  }

  /** One pixel looked up in a palette that has so far received the new colours of the
      first `n` pixels: a known colour reuses the index the table records, a new one is
      appended and recorded. Afterwards the palette, the table and the index buffer
      describe the first `n + 1` pixels. */
  lemma LookupStep(known: seq<int>, cs: seq<int>, n: nat, before: seq<int>, hash: map<int, int>,
                   pixels: seq<byte>, after: seq<int>, hash': map<int, int>, index: int)
    requires n < |cs| && n < |pixels| && |before| <= 256
    requires before == known + NewColors(known, cs, n) && hash == Hash(before, |before|)
    requires Decodes(pixels, before, cs, n)
    requires cs[n] in hash ==> after == before && hash' == hash && index == hash[cs[n]]
    requires cs[n] !in hash ==>
      after == before + [cs[n]] && index == |before| < 256 && hash' == hash[cs[n] := index]
    ensures 0 <= index < |after| && index < 256
    ensures after == known + NewColors(known, cs, n + 1) && hash' == Hash(after, |after|)
    ensures Decodes(pixels[n := index as byte], after, cs, n + 1)
  {
    HashAt(before, |before|, cs[n]);
    assert before[..|before|] == before;
    if cs[n] !in hash {
      HashAppend(before, cs[n], |before|);
    }
  }

  /** A pixel whose colour the table lacks: the new colours of all the pixels extend the
      current ones by that colour at least. */
  lemma MissingColor(known: seq<int>, cs: seq<int>, n: nat, before: seq<int>, hash: map<int, int>)
    requires n < |cs| && before == known + NewColors(known, cs, n) && hash == Hash(before, |before|)
    requires cs[n] !in hash
    ensures NewColors(known, cs, n) + [cs[n]] <= NewColors(known, cs, |cs|)
  {
    HashAt(before, |before|, cs[n]);
    assert before[..|before|] == before;
    NewColorsPrefix(known, cs, n + 1, |cs|);
  }

  // ---- strategy A: grow the caller's global palette ----

  /** The caller's global palette after strategy A has run over the colours `cs`: every
      new colour is appended until the palette holds 255 entries. */
  function GrownPalette(known: seq<int>, cs: seq<int>): (p: seq<int>)
    requires |known| <= 255
    ensures known <= p && |p| <= 255
  {
    var added := NewColors(known, cs, |cs|);
    if |known| + |added| <= 255 then known + added else known + added[..255 - |known|]
  }

  /** Strategy A only ever appends: the caller's entries keep their places, and every
      added entry is a colour of the region that the palette did not hold, added once. */
  lemma {:induction false} GrownPaletteAppends(known: seq<int>, cs: seq<int>)
    requires |known| <= 255
    ensures var p := GrownPalette(known, cs);
      && (forall i :: |known| <= i < |p| ==> p[i] in cs && p[i] !in known)
      && (Distinct(known) ==> Distinct(p))
  {
    var added := NewColors(known, cs, |cs|);
    var p := GrownPalette(known, cs);
    NewColorsDistinct(known, cs, |cs|);
    forall i | |known| <= i < |p|
      ensures p[i] in cs && p[i] !in known
    {
      assert p[i] == added[i - |known|];
      NewColorsMember(known, cs, |cs|, p[i]);
      assert cs[..|cs|] == cs;
    }
  }

  /** Strategy A. Every pixel colour is looked up in the global palette and, when missing,
      appended to it; the strategy gives up as soon as a missing colour meets a palette of
      255 entries. `grown` is the caller's palette afterwards: the colours appended before
      giving up stay in it. */
  method GlobalPalette(deltaImageData: array<byte>, palette: seq<int>, indexedPixels: array<byte>)
    returns (matches: bool, grown: seq<int>)
    requires deltaImageData.Length == 4 * indexedPixels.Length
    requires |palette| <= 255
    modifies indexedPixels
    ensures var cs := Colors(deltaImageData[..]);
      var added := NewColors(palette, cs, |cs|);
      && (matches <==> |palette| + |added| <= 255)
      && grown == GrownPalette(palette, cs)
      && (matches ==> Lossless(indexedPixels[..], grown, cs))
  {
    ghost var cs := Colors(deltaImageData[..]);
    var colorsHash := IndexPalette(palette);
    grown := palette;
    matches := true;
    var pixel := 0;
    var i, l := 0, deltaImageData.Length;
    while i < l
      invariant 0 <= pixel <= indexedPixels.Length && i == 4 * pixel
      invariant grown == palette + NewColors(palette, cs, pixel) && |grown| <= 255
      invariant colorsHash == Hash(grown, |grown|)
      invariant Decodes(indexedPixels[..], grown, cs, pixel)
    {
      ColorOf(deltaImageData[..], indexedPixels.Length, pixel);
      var r, g, b := deltaImageData[i], deltaImageData[i + 1], deltaImageData[i + 2];
      // the alpha channel is ignored
      var color := Pack(r, g, b);
      assert color == cs[pixel];
      // not in the global palette, and no room to add it
      if color !in colorsHash && |grown| == 255 {
        MissingColor(palette, cs, pixel, grown, colorsHash);
        matches := false;
        break;
      }
      ghost var before, hash, pixelsSoFar := grown, colorsHash, indexedPixels[..];
      var foundIndex;
      if color !in colorsHash {
        grown := grown + [color];
        foundIndex := |grown| - 1;
        colorsHash := colorsHash[color := foundIndex];
      } else {
        foundIndex := colorsHash[color];
      }
      LookupStep(palette, cs, pixel, before, hash, pixelsSoFar, grown, colorsHash, foundIndex);
      indexedPixels[pixel] := ToUint8(foundIndex);
      pixel := pixel + 1;
      i := i + 4;
    }
    if matches {
      assert pixel == |cs|;
    }
  }

  // ---- strategy B: a fresh local palette ----

  /** Strategy B. A palette is built from scratch in order of first appearance; the scan
      stops as soon as a 257th colour has been pushed. The caller accepts the result only
      when it has fewer than 256 entries. */
  method LocalPalette(deltaImageData: array<byte>, indexedPixels: array<byte>)
    returns (colorsArray: seq<int>)
    requires deltaImageData.Length == 4 * indexedPixels.Length
    modifies indexedPixels
    ensures var cs := Colors(deltaImageData[..]);
      var all := NewColors([], cs, |cs|);
      && colorsArray == (if |all| <= 256 then all else all[..257])
      && (|colorsArray| < 256 ==> Lossless(indexedPixels[..], colorsArray, cs))
  {
    ghost var cs := Colors(deltaImageData[..]);
    colorsArray := [];
    var colorsHash: map<int, int> := map[];
    var pixel := 0;
    var i, l := 0, deltaImageData.Length;
    ghost var bailed := false;
    while i < l
      invariant 0 <= pixel <= indexedPixels.Length && i == 4 * pixel
      invariant colorsArray == NewColors([], cs, pixel) && |colorsArray| <= 256
      invariant colorsHash == Hash(colorsArray, |colorsArray|)
      invariant Decodes(indexedPixels[..], colorsArray, cs, pixel)
    {
      ColorOf(deltaImageData[..], indexedPixels.Length, pixel);
      var r, g, b := deltaImageData[i], deltaImageData[i + 1], deltaImageData[i + 2];
      // the alpha channel is ignored
      var color := Pack(r, g, b);
      assert color == cs[pixel];
      ghost var before, hash, pixelsSoFar := colorsArray, colorsHash, indexedPixels[..];
      var foundIndex;
      if color !in colorsHash {
        colorsArray := colorsArray + [color];
        foundIndex := |colorsArray| - 1;
        // too many colours already: give up on this approach
        if foundIndex >= 256 {
          MissingColor([], cs, pixel, before, hash);
          bailed := true;
          break;
        }
        colorsHash := colorsHash[color := foundIndex];
      } else {
        foundIndex := colorsHash[color];
      }
      LookupStep([], cs, pixel, before, hash, pixelsSoFar, colorsArray, colorsHash, foundIndex);
      indexedPixels[pixel] := ToUint8(foundIndex);
      pixel := pixel + 1;
      i := i + 4;
    }
    if !bailed {
      assert pixel == |cs|;
    }
  }
}
