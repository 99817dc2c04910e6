/** The worker's `run`: find the delta, copy it out, and resolve its palette by the first
    strategy that applies (global palette, local palette, quantizer). */
module Worker {
  import opened Pixels
  import opened Delta
  import opened Region
  import opened Formats
  import opened Palettes

  /** The NeuQuant quantizer, which is not part of this model, as two uninterpreted
      operations of the network trained on a triplet sequence with a sample interval:
      `Process` gives its componentised palette, `Map` the palette index it assigns to
      an RGB triplet. */
  datatype NeuQuant = NeuQuant(
    Process: (seq<byte>, int) -> seq<byte>,
    Map: (seq<byte>, int, byte, byte, byte) -> int)

  /** `sampleInterval || 10`: an unset or zero interval becomes 10. */
  function SampleInterval(sampleInterval: Option<int>): (s: int)
    ensures s != 0
    ensures sampleInterval.None? || sampleInterval.value == 0 ==> s == 10
    ensures sampleInterval.Some? && sampleInterval.value != 0 ==> s == sampleInterval.value
  {
    if sampleInterval.None? || sampleInterval.value == 0 then 10 else sampleInterval.value
  }

  /** The message the worker posts back. `pixels` holds one palette index per pixel of
      the delta, row-major. */
  datatype Response =
    | Skip
    | Encoded(delta: Rect, pixels: seq<byte>, palette: seq<int>, global: bool, quantizer: bool)

  /** What the exact-or-quantized fallback (strategies B, then C) promises for a region:
      a local palette of every distinct colour when there are fewer than 256 of them,
      the quantizer's palette and mapping otherwise. */
  ghost predicate ResolvedLocally(region: seq<byte>, sampleInterval: Option<int>, nq: NeuQuant, r: Response) {
    var cs := Colors(region);
    var local := NewColors([], cs, |cs|);
    && r.Encoded? && !r.global && |r.pixels| == |cs|
    && if |local| < 256 then
         !r.quantizer && r.palette == local && Lossless(r.pixels, r.palette, cs)
       else
         var rgb, si := DropAlpha(region, |region| / 4), SampleInterval(sampleInterval);
         && r.quantizer
         && r.palette == PackTriples(nq.Process(rgb, si))
         && forall p :: 0 <= p < |r.pixels| ==>
              r.pixels[p] == ToUint8(nq.Map(rgb, si, region[4 * p], region[4 * p + 1], region[4 * p + 2]))
  }

  /** What palette resolution promises for a region: strategy A's grown palette when a
      global palette is given, it is not marked as quantized (`quantizer` unset) and it
      holds at most 255 entries with every new colour appended; otherwise the fallback. */
  ghost predicate Resolved(region: seq<byte>, palette: Option<seq<int>>, quantizer: bool,
                           sampleInterval: Option<int>, nq: NeuQuant, r: Response) {
    var cs := Colors(region);
    if palette.Some? && !quantizer && |palette.value| + |NewColors(palette.value, cs, |cs|)| <= 255 then
      && r.Encoded? && r.global && !r.quantizer
      && r.palette == palette.value + NewColors(palette.value, cs, |cs|)
      && Lossless(r.pixels, r.palette, cs)
    else
      ResolvedLocally(region, sampleInterval, nq, r)
  }

  /** A response never mixes strategies, and an exact palette fits a GIF colour table:
      a grown global palette keeps at most 255 entries, a local one fewer than 256, and
      every index of an exact palette points into it. */
  lemma ResolvedShape(region: seq<byte>, palette: Option<seq<int>>, quantizer: bool,
                      sampleInterval: Option<int>, nq: NeuQuant, r: Response)
    requires Resolved(region, palette, quantizer, sampleInterval, nq, r)
    ensures r.Encoded? && !(r.global && r.quantizer) && |r.pixels| == |region| / 4
    ensures r.global ==> palette.Some? && !quantizer && palette.value <= r.palette && |r.palette| <= 255
    ensures !r.global && !r.quantizer ==> |r.palette| < 256
    ensures r.quantizer ==> !r.global && (palette.None? || quantizer || |palette.value| + |NewColors(palette.value, Colors(region), |Colors(region)|)| > 255)
    ensures r.quantizer ==> |(set c | c in Colors(region))| >= 256
    ensures !r.quantizer ==> forall p :: 0 <= p < |r.pixels| ==> r.pixels[p] < |r.palette|
  {
    if r.quantizer {
      LocalIffFewColors(region, sampleInterval, nq, r);
    }
  }

  /** Strategy B succeeds exactly when the region has fewer than 256 distinct colours,
      and then its palette holds each of them once and nothing else. */
  lemma LocalIffFewColors(region: seq<byte>, sampleInterval: Option<int>, nq: NeuQuant, r: Response)
    requires ResolvedLocally(region, sampleInterval, nq, r)
    ensures !r.quantizer <==> |(set c | c in Colors(region))| < 256
    ensures !r.quantizer ==> Distinct(r.palette) && forall c :: c in r.palette <==> c in Colors(region)
  {
    var cs := Colors(region);
    DistinctColors(cs);
    if !r.quantizer {
      NewColorsDistinct([], cs, |cs|);
      forall c ensures c in r.palette <==> c in cs {
        NewColorsMember([], cs, |cs|, c);
        assert cs[..|cs|] == cs;
      }
    }
  }

  /** A caller palette marked as quantized only skips strategy A: a region of fewer than
      256 distinct colours still gets an exact local palette. */
  lemma QuantizedPaletteSkipsOnlyGlobal(region: seq<byte>, palette: Option<seq<int>>,
                                        sampleInterval: Option<int>, nq: NeuQuant, r: Response)
    requires Resolved(region, palette, true, sampleInterval, nq, r)
    requires |(set c | c in Colors(region))| < 256
    ensures !r.global && !r.quantizer && Lossless(r.pixels, r.palette, Colors(region))
  {
    LocalIffFewColors(region, sampleInterval, nq, r);
  }

  /** A region of a single colour gets a one-entry local palette and every pixel index 0. */
  lemma SingleColorRegion(region: seq<byte>, sampleInterval: Option<int>, nq: NeuQuant, r: Response)
    requires ResolvedLocally(region, sampleInterval, nq, r)
    requires 4 <= |region| && forall p :: 0 <= p < |Colors(region)| ==> Colors(region)[p] == Colors(region)[0]
    ensures !r.quantizer && r.palette == [Colors(region)[0]]
    ensures forall p :: 0 <= p < |r.pixels| ==> r.pixels[p] == 0
  {
    UniformColors(Colors(region), |Colors(region)|);
  }

  /** Strategy C: the region's triplets train the quantizer, its palette is packed, and
      every pixel, in pixel order, gets the index the quantizer maps its triplet to. */
  method Quantize(deltaImageData: array<byte>, width: nat, height: nat, sampleInterval: Option<int>,
                  nq: NeuQuant, indexedPixels: array<byte>)
    returns (paletteArray: seq<int>)
    requires deltaImageData.Length == width * height * 4 && indexedPixels.Length == width * height
    modifies indexedPixels
    ensures var rgb, si := DropAlpha(deltaImageData[..], width * height), SampleInterval(sampleInterval);
      && paletteArray == PackTriples(nq.Process(rgb, si))
      && forall p :: 0 <= p < indexedPixels.Length ==>
           indexedPixels[p] == ToUint8(nq.Map(rgb, si, deltaImageData[4 * p], deltaImageData[4 * p + 1], deltaImageData[4 * p + 2]))
  {
    var rgbComponents := DataToRGB(deltaImageData, width, height);
    var si := SampleInterval(sampleInterval);
    var paletteRGB := nq.Process(rgbComponents, si);
    paletteArray := ComponentizedPaletteToArray(paletteRGB);
    var numberPixels := width * height;
    var k := 0;
    var i := 0;
    while i < numberPixels
      invariant 0 <= i <= numberPixels && k == 3 * i
      invariant forall p :: 0 <= p < i ==>
        indexedPixels[p] == ToUint8(nq.Map(rgbComponents, si, deltaImageData[4 * p], deltaImageData[4 * p + 1], deltaImageData[4 * p + 2]))
    {
      DropAlphaAt(deltaImageData[..], numberPixels, i, 0);
      DropAlphaAt(deltaImageData[..], numberPixels, i, 1);
      DropAlphaAt(deltaImageData[..], numberPixels, i, 2);
      var r := rgbComponents[k];
      var g := rgbComponents[k + 1];
      var b := rgbComponents[k + 2];
      k := k + 3;
      indexedPixels[i] := ToUint8(nq.Map(rgbComponents, si, r, g, b));
      i := i + 1;
    }
  }

  lemma RectFits(d: Rect, width: nat, height: nat)
    requires d.x + d.width <= width && d.y + d.height <= height
    ensures Fits(d, width, width * height * 4)
  {
    MulLe(d.y + d.height, height, width * 4);
    Area(width, height);
  }

  /** Strategies B and C, in that order, over the extracted region of the delta `d`. */
  method LocalOrQuantize(deltaImageData: array<byte>, d: Rect, sampleInterval: Option<int>, nq: NeuQuant,
                         indexedPixels: array<byte>)
    returns (response: Response)
    requires deltaImageData.Length == d.width * d.height * 4 && indexedPixels.Length == d.width * d.height
    requires deltaImageData != indexedPixels
    modifies indexedPixels
    ensures response.Encoded? && response.delta == d
    ensures ResolvedLocally(deltaImageData[..], sampleInterval, nq, response)
  {
    ghost var cs := Colors(deltaImageData[..]);
    var colorsArray := LocalPalette(deltaImageData, indexedPixels);
    if |colorsArray| < 256 {
      response := Encoded(d, indexedPixels[..], colorsArray, false, false);
      return;
    }

    // 256 colours or more: quantize
    var paletteArray := Quantize(deltaImageData, d.width, d.height, sampleInterval, nq, indexedPixels);
    assert |deltaImageData[..]| / 4 == d.width * d.height;
    response := Encoded(d, indexedPixels[..], paletteArray, false, true);
  }

  /** The palette-resolution part of `run`, over the extracted region of the delta `d`:
      strategy A when a global palette is given that is not marked as quantized
      (`quantizer` unset), then B, then C. */
  method Resolve(deltaImageData: array<byte>, d: Rect, sampleInterval: Option<int>,
                 palette: Option<seq<int>>, quantizer: bool, nq: NeuQuant)
    returns (response: Response, callerPalette: Option<seq<int>>)
    requires deltaImageData.Length == d.width * d.height * 4
    requires palette.Some? && !quantizer ==> |palette.value| <= 255
    ensures response.Encoded? && response.delta == d
    ensures Resolved(deltaImageData[..], palette, quantizer, sampleInterval, nq, response)
    ensures callerPalette ==
      if palette.Some? && !quantizer then Some(GrownPalette(palette.value, Colors(deltaImageData[..])))
      else palette
  {
    // an index array into the palette
    var numberPixels := d.width * d.height;
    var indexedPixels := new byte[numberPixels];

    callerPalette := palette;
    if palette.Some? && !quantizer {
      var matches, grown := GlobalPalette(deltaImageData, palette.value, indexedPixels);
      callerPalette := Some(grown);
      if matches {
        response := Encoded(d, indexedPixels[..], grown, true, false);
        return;
      }
    }

    // the global palette could not be used: try a local palette instead
    response := LocalOrQuantize(deltaImageData, d, sampleInterval, nq, indexedPixels);
  }

  /** `run`: `Skip` when nothing changed; otherwise the delta, its index buffer and the
      palette of the strategy that was used. `callerPalette` is the caller's global
      palette array as the call leaves it. */
  method Run(frame: array<byte>, width: nat, height: nat, sampleInterval: Option<int>,
             previous: array?<byte>, palette: Option<seq<int>>, quantizer: bool, nq: NeuQuant)
    returns (response: Response, callerPalette: Option<seq<int>>)
    requires IsFrame(frame[..], width, height)
    requires previous != null ==> previous.Length == frame.Length
    requires palette.Some? && !quantizer ==> |palette.value| <= 255
    ensures response.Skip? <==> previous != null && previous[..] == frame[..]
    ensures previous == null ==> response.Encoded? && response.delta == Rect(0, 0, width, height)
    ensures response.Encoded? && previous != null ==>
      IsDirtyRect(previous[..], frame[..], width, height, response.delta)
    ensures response.Encoded? ==>
      && Fits(response.delta, width, frame.Length)
      && Resolved(Extracted(frame[..], width, response.delta), palette, quantizer, sampleInterval, nq, response)
    ensures palette.None? || quantizer || response.Skip? ==> callerPalette == palette
    ensures palette.Some? && !quantizer && response.Encoded? ==>
      callerPalette == Some(GrownPalette(palette.value, Colors(Extracted(frame[..], width, response.delta))))
  {
    var previousData := previous;
    var imageData := frame;

    // find the delta
    var delta := DirtyRect(previousData, imageData, width, height);
    if delta.None? {
      return Skip, palette;
    }
    var d := delta.value;
    RectFits(d, width, height);

    // grab only the changed portion and work with that
    var deltaImageData := ExtractRegion(imageData, width, d);
    response, callerPalette := Resolve(deltaImageData, d, sampleInterval, palette, quantizer, nq);
  }
}
