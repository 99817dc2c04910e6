/** The two format adapters between RGBA buffers, RGB triplets and packed palettes. */
module Formats {
  import opened Pixels

  /** The RGB triplets of the first `n` pixels of an RGBA buffer: every fourth (alpha)
      byte dropped. */
  function DropAlpha(rgba: seq<byte>, n: nat): (rgb: seq<byte>)
    requires 4 * n <= |rgba|
    ensures |rgb| == 3 * n
  {
    if n == 0 then []
    else DropAlpha(rgba, n - 1) + rgba[4 * (n - 1)..4 * (n - 1) + 3]
  }

  /** Lane `c` of pixel `p` of the RGBA buffer is entry `3p+c` of the triplets. */
  lemma {:induction false} DropAlphaAt(rgba: seq<byte>, n: nat, p: nat, c: nat)
    requires 4 * n <= |rgba| && p < n && c < 3
    ensures 3 * p + c < |DropAlpha(rgba, n)| && DropAlpha(rgba, n)[3 * p + c] == rgba[4 * p + c]
  {
    if p < n - 1 {
      DropAlphaAt(rgba, n - 1, p, c);
    }
  }

  /** `dataToRGB`: walks the first `width*height` pixels and pushes their R, G and B bytes. */
  method DataToRGB(data: array<byte>, width: nat, height: nat) returns (rgb: seq<byte>)
    requires width * height * 4 <= data.Length
    ensures rgb == DropAlpha(data[..], width * height)
  {
    var i := 0;
    var length := width * height * 4;
    rgb := [];
    ghost var pixel := 0;
    while i < length
      invariant i == 4 * pixel && pixel <= width * height
      invariant rgb == DropAlpha(data[..], pixel)
    {
      rgb := rgb + [data[i]];
      rgb := rgb + [data[i + 1]];
      rgb := rgb + [data[i + 2]];
      // the alpha byte is skipped
      assert data[..][i..i + 3] == [data[i], data[i + 1], data[i + 2]];
      i := i + 4;
      pixel := pixel + 1;
    }
  }

  /** Entry `i` of a JavaScript array, or 0 where the source reads `undefined`
      (`undefined << 8` and `x | undefined` both treat it as 0). */
  function Lane(s: seq<byte>, i: nat): byte {
    if i < |s| then s[i] else 0
  }

  /** The packed palette of a componentised one: one colour per (possibly partial) triplet. */
  function PackTriples(rgb: seq<byte>): (palette: seq<int>)
    ensures |palette| == (|rgb| + 2) / 3
  {
    seq((|rgb| + 2) / 3, j requires 0 <= j => Pack(Lane(rgb, 3 * j), Lane(rgb, 3 * j + 1), Lane(rgb, 3 * j + 2)))
  }

  /** `componentizedPaletteToArray`: one `r<<16 | g<<8 | b` per triplet. */
  method ComponentizedPaletteToArray(paletteRGB: seq<byte>) returns (paletteArray: seq<int>)
    ensures paletteArray == PackTriples(paletteRGB)
  {
    paletteArray := [];
    var i := 0;
    while i < |paletteRGB|
      invariant i % 3 == 0 && 0 <= i <= |paletteRGB| + 2
      invariant |paletteArray| == i / 3
      invariant forall j :: 0 <= j < |paletteArray| ==>
        paletteArray[j] == Pack(Lane(paletteRGB, 3 * j), Lane(paletteRGB, 3 * j + 1), Lane(paletteRGB, 3 * j + 2))
    {
      var r := Lane(paletteRGB, i);
      var g := Lane(paletteRGB, i + 1);
      var b := Lane(paletteRGB, i + 2);
      paletteArray := paletteArray + [Pack(r, g, b)];
      i := i + 3;
    }
  }

  /** Round trip: shifting and masking entry `j` of the packed palette gives back the
      three components of triplet `j`, a missing trailing component reading as 0. */
  lemma PackTriplesRoundTrip(rgb: seq<byte>, j: nat)
    requires j < |PackTriples(rgb)|
    ensures Red(PackTriples(rgb)[j]) == Lane(rgb, 3 * j)
    ensures Green(PackTriples(rgb)[j]) == Lane(rgb, 3 * j + 1)
    ensures Blue(PackTriples(rgb)[j]) == Lane(rgb, 3 * j + 2)
  {
    UnpackPack(Lane(rgb, 3 * j), Lane(rgb, 3 * j + 1), Lane(rgb, 3 * j + 2));
  }
}
