/** Region extraction: the changed rectangle copied row by row out of the full frame
    into a compact RGBA buffer. */
module Region {
  import opened Pixels
  import opened Delta

  /** The rectangle lies inside a buffer whose rows are `width` pixels wide. */
  predicate Fits(d: Rect, width: nat, size: nat) {
    d.x + d.width <= width && (d.y + d.height) * (width * 4) <= size
  }

  /** Byte offset, in the full frame, of the first byte of row `j` of the rectangle. */
  function RowStart(width: nat, d: Rect, j: nat): nat {
    (d.y + j) * width * 4 + d.x * 4
  }

  /** A row of the rectangle starts at the frame offset of its first pixel. */
  lemma RowStartIsOffset(width: nat, d: Rect, j: nat)
    ensures RowStart(width, d, j) == Offset(width, d.x, d.y + j)
  {
    assert (d.y + j) * width * 4 == (d.y + j) * (width * 4);
  }

  lemma RowInBuffer(width: nat, d: Rect, size: nat, j: nat)
    requires Fits(d, width, size) && j < d.height
    ensures RowStart(width, d, j) + d.width * 4 <= size
  {
    MulLe(d.y + j + 1, d.y + d.height, width * 4);
    assert (d.y + j + 1) * (width * 4) == (d.y + j) * width * 4 + width * 4;
  }

  /** The first `n` rows of the rectangle, back to back. */
  function Rows(img: seq<byte>, width: nat, d: Rect, n: nat): (r: seq<byte>)
    requires Fits(d, width, |img|) && n <= d.height
    ensures |r| == n * (d.width * 4)
  {
    if n == 0 then []
    else
      RowInBuffer(width, d, |img|, n - 1);
      var start := RowStart(width, d, n - 1);
      Rows(img, width, d, n - 1) + img[start..start + d.width * 4]
  }

  /** The compact RGBA buffer of the rectangle. */
  function Extracted(img: seq<byte>, width: nat, d: Rect): (r: seq<byte>)
    requires Fits(d, width, |img|)
    ensures |r| == d.width * d.height * 4 && |r| % 4 == 0
  {
    Area(d.width, d.height);
    Rows(img, width, d, d.height)
  }

  lemma RowMajor(j: nat, k: nat, n: nat, w: nat)
    requires j < n && k < w
    ensures j * w + k < n * w
  {
    MulLe(j + 1, n, w);
  }

  /** Byte `k` of extracted row `j` is byte `k` of row `y + j` of the frame, counted
      from column `x`. */
  lemma {:induction false} RowsAt(img: seq<byte>, width: nat, d: Rect, n: nat, j: nat, k: nat)
    requires Fits(d, width, |img|) && n <= d.height && j < n && k < d.width * 4
    ensures j * (d.width * 4) + k < |Rows(img, width, d, n)|
    ensures RowStart(width, d, j) + k < |img|
    ensures Rows(img, width, d, n)[j * (d.width * 4) + k] == img[RowStart(width, d, j) + k]
  {
    RowMajor(j, k, n, d.width * 4);
    RowInBuffer(width, d, |img|, j);
    if j < n - 1 {
      RowsAt(img, width, d, n - 1, j, k);
      RowMajor(j, k, n - 1, d.width * 4);
    }
  }

  /** The extracted buffer holds `width*height*4` bytes, laid out row-major. */
  lemma ExtractedAt(img: seq<byte>, width: nat, d: Rect, j: nat, k: nat)
    requires Fits(d, width, |img|) && j < d.height && k < d.width * 4
    ensures |Extracted(img, width, d)| == d.width * d.height * 4
    ensures j * (d.width * 4) + k < d.width * d.height * 4
    ensures (d.y + j) * width * 4 + d.x * 4 + k < |img|
    ensures Extracted(img, width, d)[j * (d.width * 4) + k] == img[(d.y + j) * width * 4 + d.x * 4 + k]
  {
    var r := Extracted(img, width, d);
    assert |r| == d.width * d.height * 4 by {
      Area(d.width, d.height);
    }
    RowsAt(img, width, d, d.height, j, k);
  }

  lemma Area(w: nat, h: nat)
    ensures h * (w * 4) == w * h * 4
  {
  }

  /** Appending row `j` to the first `j` rows gives the first `j + 1`. */
  lemma RowsStep(img: seq<byte>, width: nat, d: Rect, j: nat)
    requires Fits(d, width, |img|) && j < d.height
    ensures RowStart(width, d, j) + d.width * 4 <= |img|
    ensures Rows(img, width, d, j + 1) == Rows(img, width, d, j) + img[RowStart(width, d, j)..RowStart(width, d, j) + d.width * 4]
  {
    RowInBuffer(width, d, |img|, j);
  }

  /** The inner loop of the row copy: `deltaImageData[deltaIndex++] = imageData[i]` for
      `i` from `start` to `end`. The bytes already copied stay as they are. */
  method CopyRow(imageData: array<byte>, start: nat, end: nat, deltaImageData: array<byte>, deltaIndex: nat)
    returns (next: nat)
    requires imageData != deltaImageData
    requires start <= end <= imageData.Length && deltaIndex + (end - start) <= deltaImageData.Length
    modifies deltaImageData
    ensures next == deltaIndex + (end - start)
    ensures deltaImageData[..next] == old(deltaImageData[..deltaIndex]) + imageData[start..end]
    ensures deltaImageData[next..] == old(deltaImageData[next..])
  {
    next := deltaIndex;
    var i := start;
    while i < end
      invariant start <= i <= end && next == deltaIndex + (i - start)
      invariant deltaImageData[..next] == old(deltaImageData[..deltaIndex]) + imageData[start..i]
      invariant forall k :: next <= k < deltaImageData.Length ==> deltaImageData[k] == old(deltaImageData[k])
    {
      deltaImageData[next] := imageData[i];
      next := next + 1;
      i := i + 1;
    }
  }

  /** The row-copying loop of `run`: `deltaImageData[deltaIndex++] = imageData[i]`. */
  method ExtractRegion(imageData: array<byte>, width: nat, delta: Rect) returns (deltaImageData: array<byte>)
    requires Fits(delta, width, imageData.Length)
    ensures deltaImageData.Length == delta.width * delta.height * 4
    ensures deltaImageData[..] == Extracted(imageData[..], width, delta)
  {
    ghost var img := imageData[..];
    var size := delta.width * delta.height * 4;
    ghost var rowBytes := delta.width * 4;
    assert delta.height * rowBytes == size by {
      Area(delta.width, delta.height);
    }
    deltaImageData := new byte[size];
    var deltaIndex := 0;
    var y := delta.y;
    ghost var j := 0;
    while y < delta.y + delta.height
      invariant j <= delta.height && y == delta.y + j
      invariant deltaIndex == j * rowBytes
      invariant deltaImageData[..deltaIndex] == Rows(img, width, delta, j)
      decreases delta.height - j
    {
      var start := (y * width * 4) + (delta.x * 4);
      var end := (y * width * 4) + (delta.x * 4) + (delta.width * 4);
      RowsStep(img, width, delta, j);
      assert start == RowStart(width, delta, j) && end == start + rowBytes;
      assert deltaIndex + rowBytes == (j + 1) * rowBytes <= size by {
        MulLe(j + 1, delta.height, rowBytes);
      }
      deltaIndex := CopyRow(imageData, start, end, deltaImageData, deltaIndex);
      y, j := y + 1, j + 1;
    }
    assert deltaImageData[..] == deltaImageData[..deltaIndex];
  }
}
