# tinygif frame worker, modelled in Dafny

tinygif turns a sequence of RGBA animation frames into GIF frames. For each frame, its
worker (`src/tinygif.worker.js`) does three things:

1. **Find the dirty rectangle** (`dirtyRect`): the smallest rectangle that holds every
   pixel whose RGBA bytes differ from the previous frame. With no previous frame it is
   the whole frame. With no difference there is no rectangle, and the frame is skipped.
2. **Copy out the region**: the rectangle's rows are copied out of the frame, back to
   back, into a compact RGBA buffer.
3. **Choose a palette for the region**, trying three strategies in order:
   - **A, global palette.** Reuse the caller's global palette and append new colours
     to it. This is tried only when a global palette is given and it is not marked as
     quantized (`quantizer` unset). It gives up when a missing colour meets a palette that already holds 255
     entries.
   - **B, local palette.** Build an exact palette of the region's own colours. It is
     used when there are fewer than 256 of them.
   - **C, quantizer.** Let the NeuQuant quantizer train a palette on the region's RGB
     triplets and map every pixel to an index of that palette. The quantizer itself is
     not part of this model.

The model is imperative, like the source: frames are `array<byte>`, and the scans and
copies are `while` loops with invariants. Each method is proved against a specification
function or predicate:

| file | what it defines |
|---|---|
| `pixels.dfy` | bytes, `Option`, the packed colour `r<<16 \| g<<8 \| b` and its unpacking, the `Uint8Array` store |
| `formats.dfy` | `dataToRGB` (`DropAlpha`), `componentizedPaletteToArray` (`PackTriples`) |
| `delta.dfy` | `dirtyRect`: `IsDirtyRect` is the tight bounding box of the changed pixels |
| `region.dfy` | the region copy (`Extracted`) |
| `palettes.dfy` | strategies A and B. `NewColors` is the colours in order of first appearance; `Hash` is the colour-to-index lookup table; `Lossless` says every index names its pixel's colour |
| `worker.dfy` | strategy C, the choice between strategies (`Resolved`) and `run` |

Two modelling choices apply throughout:

- **The quantizer.** NeuQuant is an oracle: a value carrying two uninterpreted
  functions, one for its trained palette and one for its index mapping.
- **The caller's palette.** Strategy A pushes new colours onto the caller's global
  palette in place. Here that palette is a value the worker returns (`callerPalette`).
  Colours pushed before A gave up stay in it.

## Model

| member | source | states |
|---|---|---|
| `Pixels.ToUint8` | src/tinygif.worker.js:164 | storing an index into the `Uint8Array` keeps a value in 0..255 and is otherwise congruent to it modulo 256 |
| `Pixels.Pack` | src/tinygif.worker.js:152 | a packed colour is a 24-bit value |
| `Pixels.PackIsBitwiseOr` | src/tinygif.worker.js:152 | the source's `0 << 24 \| r << 16 \| g << 8 \| b`, with `x << k` as `x * 2^k` (no byte lane shifted by 16 reaches the sign bit) and `\|` as bitwise OR on non-negative integers, equals `Pack(r, g, b)` |
| `Pixels.OrDisjoint` | src/tinygif.worker.js:152 | OR-ing a value shifted left by `k` with one below `2^k` adds them, because their bits do not overlap |
| `Pixels.UnpackPack` | src/tinygif.worker.js:18-29 | shifting and masking a packed colour gives back its red, green and blue bytes |
| `Pixels.PackUnpack` | src/tinygif.worker.js:25 | every 24-bit value is the packing of its own three lanes |
| `Pixels.PackInjective` | src/tinygif.worker.js:152-153 | two pixels share a packed colour, and so a lookup key, exactly when their RGB lanes agree (alpha is ignored) |
| `Formats.DropAlpha` | src/tinygif.worker.js:3-16 | the triplets of `n` pixels hold `3n` bytes |
| `Formats.DropAlphaAt` | src/tinygif.worker.js:8-13 | byte `3p+c` of the triplets is lane `c` of pixel `p`, i.e. byte `4p+c` of the RGBA data |
| `Formats.DataToRGB` | src/tinygif.worker.js:3-16 | the loop builds exactly the alpha-free triplets of the first `width*height` pixels |
| `Formats.PackTriples` | src/tinygif.worker.js:18-29 | a componentised palette of `k` bytes packs into `ceil(k/3)` colours |
| `Formats.ComponentizedPaletteToArray` | src/tinygif.worker.js:18-29 | the loop builds exactly one packed colour per triplet; a missing trailing component reads as 0 |
| `Formats.PackTriplesRoundTrip` | src/tinygif.worker.js:21-26 | unpacking entry `j` of the packed palette gives back triplet `j` |
| `Delta.ByteInPixel` | src/tinygif.worker.js:47 | byte `i` of a frame lies in row `floor(i / (width*4))` and in the pixel whose four bytes contain it |
| `Delta.DifferingByte` | src/tinygif.worker.js:45-62 | a differing byte makes its pixel a changed pixel, in the row `floor(i / (width*4))` |
| `Delta.RowsAboveUnchanged` | src/tinygif.worker.js:45-50 | when all bytes before row `top` agree, no row above `top` has a changed pixel |
| `Delta.RowsBelowUnchanged` | src/tinygif.worker.js:57-62 | when all bytes after row `bottom` agree, no row below `bottom` has a changed pixel |
| `Delta.FirstDiffRow` | src/tinygif.worker.js:45-50 | the row of the first differing byte is the first changed row |
| `Delta.LastDiffRow` | src/tinygif.worker.js:57-62 | the row of the last differing byte is the last changed row |
| `Delta.ChangedColumnExists` | src/tinygif.worker.js:64-76 | differing frames have a changed pixel, so the column scans find a column |
| `Delta.ScanTop` | src/tinygif.worker.js:43-55 | the forward byte scan finds no difference exactly when the frames are equal; otherwise it finds the first changed row |
| `Delta.ScanBottom` | src/tinygif.worker.js:57-62 | the backward byte scan finds the last changed row |
| `Delta.ScanLeft` | src/tinygif.worker.js:64-76 | the column-major scan from the left finds the first column with a changed pixel |
| `Delta.ScanRight` | src/tinygif.worker.js:78-90 | the column-major scan from the right finds the last column with a changed pixel |
| `Delta.DirtyRect` | src/tinygif.worker.js:31-98 | no previous frame gives the full frame; equal frames give no rectangle; otherwise the result is the tight bounding box of the changed pixels |
| `Delta.DirtyRectCovers` | src/tinygif.worker.js:92-97 | every changed pixel lies inside the dirty rectangle |
| `Delta.DirtyRectUnique` | src/tinygif.worker.js:92-97 | two frames have exactly one dirty rectangle |
| `Delta.SinglePixelDelta` | src/tinygif.worker.js:92-97 | when one pixel changed, the dirty rectangle is that pixel, 1 by 1 |
| `Region.Rows` | src/tinygif.worker.js:123-129 | `n` copied rows hold `n * width * 4` bytes |
| `Region.Extracted` | src/tinygif.worker.js:121 | the region buffer holds `width*height*4` bytes, whole pixels |
| `Region.RowsAt` | src/tinygif.worker.js:123-128 | byte `k` of copied row `j` is byte `k` of frame row `y+j`, counted from column `x` |
| `Region.RowStartIsOffset` | src/tinygif.worker.js:124 | a row of the rectangle starts at the frame byte offset of its first pixel, the offset the dirty-rectangle scans use (src/tinygif.worker.js:66) |
| `Region.ExtractedAt` | src/tinygif.worker.js:121-129 | the region is the rectangle's rows laid out row-major: byte `j*w*4+k` is frame byte `(y+j)*width*4 + x*4 + k` |
| `Region.RowsStep` | src/tinygif.worker.js:123-128 | copying row `j` after the first `j` rows gives the first `j+1` |
| `Region.CopyRow` | src/tinygif.worker.js:126-128 | the inner loop appends exactly `imageData[start..end]` after the bytes already copied, leaves the bytes after it as they were, and advances the write index by its length |
| `Region.ExtractRegion` | src/tinygif.worker.js:120-129 | the copied buffer has the region's size and equals the rectangle's rows back to back |
| `Palettes.Colors` | src/tinygif.worker.js:147-152 | one packed colour per pixel of the region |
| `Palettes.ColorOf` | src/tinygif.worker.js:148-152 | colour `p` is the packing of pixel `p`'s R, G and B bytes |
| `Palettes.LosslessLanes` | src/tinygif.worker.js:147-164 | an exact palette gives back every pixel's red, green and blue bytes through its index |
| `Palettes.UniformColors` | src/tinygif.worker.js:189-196 | a run of one colour adds that colour once |
| `Palettes.NewColorsMember` | src/tinygif.worker.js:153-163 | a colour is appended exactly when it occurs in the pixels scanned and was not already in the palette |
| `Palettes.NewColorsDistinct` | src/tinygif.worker.js:189-196 | the appended colours are pairwise distinct and none was already in the palette |
| `Palettes.NewColorsPrefix` | src/tinygif.worker.js:183-198 | scanning more pixels only appends: earlier additions keep their places |
| `Palettes.DistinctCount` | src/tinygif.worker.js:200 | a list of distinct colours has as many entries as it has colours |
| `Palettes.DistinctColors` | src/tinygif.worker.js:183-200 | the local palette built over the whole region has one entry per distinct region colour |
| `Palettes.HashAt` | src/tinygif.worker.js:144-146 | the lookup table holds exactly the palette's colours, each mapped to an in-range index holding that colour; with duplicates the last position wins |
| `Palettes.HashAppend` | src/tinygif.worker.js:159-162 | appending to the palette leaves the table of its earlier entries unchanged |
| `Palettes.IndexPalette` | src/tinygif.worker.js:143-146 | the lookup-table loop builds the table of the whole palette |
| `Palettes.LookupStep` | src/tinygif.worker.js:153-164 | one pixel's lookup, or its append when missing, keeps the invariant: palette = start + new colours so far, table in sync, every scanned pixel's index names its colour |
| `Palettes.MissingColor` | src/tinygif.worker.js:155-158 | a colour missing from the table is the next new colour of the region |
| `Palettes.GlobalPalette` | src/tinygif.worker.js:141-174 | strategy A matches exactly when the palette with all new colours appended holds at most 255 entries, and then every index names its pixel's colour; the caller's palette afterwards is `GrownPalette`: the old one plus the new colours, cut at 255 entries when it gives up |
| `Palettes.LocalPalette` | src/tinygif.worker.js:180-198 | strategy B builds the region's distinct colours in first-appearance order, stopping after the 257th; with fewer than 256 every index names its pixel's colour |
| `Worker.SampleInterval` | src/tinygif.worker.js:212 | `sampleInterval \|\| 10`: an unset or zero interval becomes 10, any other is kept |
| `Palettes.GrownPalette` | src/tinygif.worker.js:159-162 | the caller's palette only grows, and never beyond 255 entries |
| `Palettes.GrownPaletteAppends` | src/tinygif.worker.js:153-163 | every entry strategy A adds is a region colour the palette lacked; a palette of distinct colours stays distinct |
| `Worker.ResolvedShape` | src/tinygif.worker.js:141-229 | a result never is both global and quantized; it holds one index per pixel; a global palette extends the caller's and has at most 255 entries; a local one has fewer than 256; exact indices are in range; the quantizer is used only when A did not apply and B failed |
| `Worker.LocalIffFewColors` | src/tinygif.worker.js:200-206 | strategy B succeeds exactly when the region has fewer than 256 distinct colours, and its palette then holds each of them once |
| `Worker.QuantizedPaletteSkipsOnlyGlobal` | src/tinygif.worker.js:138-206 | a caller palette marked as quantized only skips strategy A: a region of fewer than 256 distinct colours still gets an exact, lossless local palette |
| `Worker.SingleColorRegion` | src/tinygif.worker.js:183-205 | a region of one colour gets a one-entry palette and all indices 0 |
| `Worker.Quantize` | src/tinygif.worker.js:211-222 | the palette is the packed trained palette; pixel `i` gets the quantizer's index for its own triplet, stored as a byte |
| `Worker.LocalOrQuantize` | src/tinygif.worker.js:177-229 | strategy B's result when it has fewer than 256 colours, otherwise strategy C's |
| `Worker.Resolve` | src/tinygif.worker.js:131-229 | the response follows the first strategy that applies; the caller's palette is grown by strategy A exactly when A was tried |
| `Worker.Run` | src/tinygif.worker.js:100-230 | skip exactly when the previous frame equals the frame; otherwise the delta is the full frame or the dirty rectangle, and the palette and indices resolve the copied region |

## Left out

- The NeuQuant quantizer is not part of this model. Its palette and index mapping are
  uninterpreted functions, so nothing is proved about its palette size (the GIF limit
  of 256 entries) or the quality of its mapping.
- Messaging is left out: `self.onmessage` and `postMessage` (src/tinygif.worker.js:232-236).
  So are the structured cloning of messages between threads and concurrency.
- Stores into the region buffer are not modelled as `Uint8ClampedArray` clamping. Every
  byte copied is already in 0..255, so clamping never applies.
- GIF and LZW encoding happen outside the worker and are not modelled.
- Palettes.GlobalPalette requires the caller's global palette to hold at most 255
  entries, and so do Worker.Resolve and Worker.Run, but only when strategy A runs (a
  global palette is given that is not marked as quantized, `quantizer` unset).
  - The source's capacity test is `palette.length == 255`. A longer palette would
    never stop growing, and its indices would wrap in the `Uint8Array`.
  - A palette that strategy A grows never passes 255 entries, but a caller may pass a
    longer one, such as a 256-entry quantized palette, together with `quantizer` set.
    Strategy A is then skipped, and the model accepts that input too.
- `Delta.ScanLeft` and `Delta.ScanRight` walk columns by pixel index. The source walks
  them by byte offset in steps of 4 and divides by 4 at the end; the two are the same
  walk.
- The index buffer is returned as a value (`seq<byte>`) rather than as the typed array
  itself.
- On a strategy B bail-out, the source leaves the rest of the index buffer as it was.
  Strategy C then overwrites every index, so the leftover values never reach a caller.
  The model does not describe them.
- `Region.CopyRow` and `Worker.LocalOrQuantize` are parts of `run`'s body given names
  of their own. Both require the array they read and the array they write to be
  different arrays, as they are in `run`.
- Three behaviours of the code worth knowing:
  - **Strategy B's bail-out.** It happens on the 257th distinct colour
    (`foundIndex >= 256`). A region of exactly 256 colours is scanned to the end and
    then rejected by the `colorsArray.length < 256` test.
  - **Strategy A giving up.** The colours A pushed onto the caller's global palette
    before giving up stay there.
  - **Palette length.** When the previous frame is null and the frame is empty, the
    local palette is empty.
