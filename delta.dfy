/** The dirty-rectangle differ: the smallest rectangle of a frame that holds every
    pixel whose RGBA bytes differ from the previous frame. */
module Delta {
  import opened Pixels

  /** A rectangle of a frame, in pixels: `{x, y, width, height}`. */
  datatype Rect = Rect(x: nat, y: nat, width: nat, height: nat)

  /** A row-major RGBA buffer of a `width` by `height` frame. */
  predicate IsFrame(data: seq<byte>, width: nat, height: nat) {
    |data| == width * height * 4
  }

  /** Byte offset of pixel (x, y): `y * (width * 4) + x * 4`. */
  function Offset(width: nat, x: nat, y: nat): nat {
    y * (width * 4) + x * 4
  }

  /** Some RGBA lane of pixel (x, y) differs between the two buffers. */
  predicate PixelChanged(prev: seq<byte>, cur: seq<byte>, width: nat, x: nat, y: nat) {
    var o := Offset(width, x, y);
    o + 3 < |prev| && o + 3 < |cur| &&
    (prev[o] != cur[o] || prev[o + 1] != cur[o + 1] || prev[o + 2] != cur[o + 2] || prev[o + 3] != cur[o + 3])
  }

  ghost predicate RowChanged(prev: seq<byte>, cur: seq<byte>, width: nat, y: nat) {
    exists x: nat :: x < width && PixelChanged(prev, cur, width, x, y)
  }

  /** Column `x` changed in some row of the whole frame height. */
  ghost predicate ColumnChanged(prev: seq<byte>, cur: seq<byte>, width: nat, height: nat, x: nat) {
    exists y: nat :: y < height && PixelChanged(prev, cur, width, x, y)
  }

  /** `d` is the tight bounding box of the changed pixels: its first and last columns and
      rows are changed ones, and no column or row outside it is. */
  ghost predicate IsDirtyRect(prev: seq<byte>, cur: seq<byte>, width: nat, height: nat, d: Rect) {
    1 <= d.width && d.x + d.width <= width &&
    1 <= d.height && d.y + d.height <= height &&
    ColumnChanged(prev, cur, width, height, d.x) &&
    ColumnChanged(prev, cur, width, height, d.x + d.width - 1) &&
    (forall x: nat :: x < d.x ==> !ColumnChanged(prev, cur, width, height, x)) &&
    (forall x: nat :: d.x + d.width <= x < width ==> !ColumnChanged(prev, cur, width, height, x)) &&
    RowChanged(prev, cur, width, d.y) &&
    RowChanged(prev, cur, width, d.y + d.height - 1) &&
    (forall y: nat :: y < d.y ==> !RowChanged(prev, cur, width, y)) &&
    (forall y: nat :: d.y + d.height <= y < height ==> !RowChanged(prev, cur, width, y))
  }

  // ---- frame geometry ----

  lemma MulLe(a: nat, b: nat, c: nat)
    requires a <= b
    ensures a * c <= b * c
  {
    assert b * c == a * c + (b - a) * c;
  }

  /** Every byte of pixel (x, y) lies inside the frame buffer. */
  lemma PixelInFrame(width: nat, height: nat, x: nat, y: nat)
    requires x < width && y < height
    ensures Offset(width, x, y) + 3 < width * height * 4
  {
    MulLe(y + 1, height, width * 4);
    assert (y + 1) * (width * 4) == y * (width * 4) + width * 4;
    assert height * (width * 4) == width * height * 4;
  }

  /** The bytes of pixel (x, y) come after every byte of the rows above `y` and
      before every byte of the rows below it. */
  lemma PixelBetweenRows(width: nat, x: nat, y: nat, y': nat)
    requires x < width
    ensures y < y' ==> Offset(width, x, y) + 3 < y' * (width * 4)
    ensures y' < y ==> (y' + 1) * (width * 4) <= Offset(width, x, y)
  {
    assert (y + 1) * (width * 4) == y * (width * 4) + width * 4;
    if y < y' {
      MulLe(y + 1, y', width * 4);
    }
    if y' < y {
      MulLe(y' + 1, y, width * 4);
    }
  }

  /** Euclidean division: `i` lies in block `i / w` of size `w`. */
  lemma DivBlock(i: nat, w: nat)
    requires 0 < w
    ensures 0 <= i / w && (i / w) * w <= i < (i / w + 1) * w
  {
    assert i == (i / w) * w + i % w;
  }

  /** Byte `i` of the buffer is lane `i % 4` of pixel (x, y), where y is `i / (width*4)`. */
  lemma ByteInPixel(width: nat, height: nat, i: nat) returns (x: nat, y: nat)
    requires i < width * height * 4
    ensures 0 < width && x < width && y < height
    ensures y == i / (width * 4) && x == (i % (width * 4)) / 4
    ensures i == Offset(width, x, y) + i % 4
    ensures y * (width * 4) <= i < (y + 1) * (width * 4)
  {
    var W := width * 4;
    assert 0 < W;
    DivBlock(i, W);
    y := i / W;
    var rem := i % W;
    x := rem / 4;
    assert i == y * W + rem && rem < W;
    assert rem == x * 4 + rem % 4 && x < width;
    assert y < height by {
      if y >= height {
        MulLe(height, y, W);
      }
    }
    assert y * W == 4 * (y * width);
    LaneOf(y * width + x, rem % 4);
  }

  /** The lane of byte `4 * p + lane` is `lane`. */
  lemma LaneOf(p: nat, lane: nat)
    requires lane < 4
    ensures (4 * p + lane) % 4 == lane
  {
  }

  /** A differing byte marks its pixel as changed. */
  lemma DifferingByte(prev: seq<byte>, cur: seq<byte>, width: nat, height: nat, i: nat)
    returns (x: nat, y: nat)
    requires IsFrame(prev, width, height) && IsFrame(cur, width, height)
    requires i < |prev| && prev[i] != cur[i]
    ensures 0 < width && x < width && y < height
    ensures y == i / (width * 4) && x == (i % (width * 4)) / 4
    ensures y * (width * 4) <= i < (y + 1) * (width * 4)
    ensures PixelChanged(prev, cur, width, x, y)
  {
    x, y := ByteInPixel(width, height, i);
  }

  /** No pixel of the rows above `top` changed when their bytes all agree. */
  lemma RowsAboveUnchanged(prev: seq<byte>, cur: seq<byte>, width: nat, top: nat)
    requires |prev| == |cur|
    requires forall j :: 0 <= j < top * (width * 4) && j < |prev| ==> prev[j] == cur[j]
    ensures forall y: nat :: y < top ==> !RowChanged(prev, cur, width, y)
  {
    forall y: nat | y < top
      ensures !RowChanged(prev, cur, width, y)
    {
      forall x: nat | x < width
        ensures !PixelChanged(prev, cur, width, x, y)
      {
        PixelBetweenRows(width, x, y, top);
      }
    }
  }

  /** No pixel of the rows below `bottom` changed when their bytes all agree. */
  lemma RowsBelowUnchanged(prev: seq<byte>, cur: seq<byte>, width: nat, bottom: nat)
    requires |prev| == |cur|
    requires forall j :: (bottom + 1) * (width * 4) <= j < |prev| ==> prev[j] == cur[j]
    ensures forall y: nat :: bottom < y ==> !RowChanged(prev, cur, width, y)
  {
    forall y: nat | bottom < y
      ensures !RowChanged(prev, cur, width, y)
    {
      forall x: nat | x < width
        ensures !PixelChanged(prev, cur, width, x, y)
      {
        PixelBetweenRows(width, x, y, bottom);
      }
    }
  }

  /** The row of the first differing byte is the first row holding a changed pixel. */
  lemma FirstDiffRow(prev: seq<byte>, cur: seq<byte>, width: nat, height: nat, i: nat)
    returns (top: nat)
    requires IsFrame(prev, width, height) && IsFrame(cur, width, height)
    requires i < |prev| && prev[i] != cur[i]
    requires forall j :: 0 <= j < i ==> prev[j] == cur[j]
    ensures 0 < width && top == i / (width * 4) && top < height
    ensures RowChanged(prev, cur, width, top)
    ensures forall y: nat :: y < top ==> !RowChanged(prev, cur, width, y)
  {
    var x;
    x, top := DifferingByte(prev, cur, width, height, i);
    RowsAboveUnchanged(prev, cur, width, top);
  }

  /** The row of the last differing byte is the last row holding a changed pixel. */
  lemma LastDiffRow(prev: seq<byte>, cur: seq<byte>, width: nat, height: nat, i: nat)
    returns (bottom: nat)
    requires IsFrame(prev, width, height) && IsFrame(cur, width, height)
    requires i < |prev| && prev[i] != cur[i]
    requires forall j :: i < j < |prev| ==> prev[j] == cur[j]
    ensures 0 < width && bottom == i / (width * 4) && bottom < height
    ensures RowChanged(prev, cur, width, bottom)
    ensures forall y: nat :: bottom < y ==> !RowChanged(prev, cur, width, y)
  {
    var x;
    x, bottom := DifferingByte(prev, cur, width, height, i);
    RowsBelowUnchanged(prev, cur, width, bottom);
  }

  /** Two buffers that differ somewhere have a changed pixel, hence a changed column. */
  lemma ChangedColumnExists(prev: seq<byte>, cur: seq<byte>, width: nat, height: nat)
    returns (x: nat, y: nat)
    requires IsFrame(prev, width, height) && IsFrame(cur, width, height) && prev != cur
    ensures x < width && y < height && PixelChanged(prev, cur, width, x, y)
    ensures ColumnChanged(prev, cur, width, height, x)
  {
    var i :| 0 <= i < |prev| && prev[i] != cur[i];
    x, y := DifferingByte(prev, cur, width, height, i);
  }

  // ---- the differ ----

  /** The first scan of `dirtyRect`: the row of the first differing byte, or -1. */
  method ScanTop(previousData: array<byte>, imageData: array<byte>, width: nat, height: nat)
    returns (top: int)
    requires IsFrame(previousData[..], width, height) && IsFrame(imageData[..], width, height)
    ensures top == -1 <==> previousData[..] == imageData[..]
    ensures top != -1 ==> 0 <= top < height && RowChanged(previousData[..], imageData[..], width, top)
    ensures forall y: nat :: y < top ==> !RowChanged(previousData[..], imageData[..], width, y)
  {
    top := -1;
    var i, l := 0, previousData.Length;
    while i < l
      invariant 0 <= i <= l
      invariant forall j :: 0 <= j < i ==> previousData[j] == imageData[j]
    {
      if previousData[i] != imageData[i] {
        ghost var row := FirstDiffRow(previousData[..], imageData[..], width, height, i);
        top := i / (width * 4);
        return;
      }
      i := i + 1;
    }
    assert previousData[..] == imageData[..];
  }

  /** The second scan of `dirtyRect`: the row of the last differing byte. */
  method ScanBottom(previousData: array<byte>, imageData: array<byte>, width: nat, height: nat)
    returns (bottom: int)
    requires IsFrame(previousData[..], width, height) && IsFrame(imageData[..], width, height)
    requires previousData[..] != imageData[..]
    ensures 0 <= bottom < height && RowChanged(previousData[..], imageData[..], width, bottom)
    ensures forall y: nat :: bottom < y ==> !RowChanged(previousData[..], imageData[..], width, y)
  {
    ghost var first :| 0 <= first < previousData.Length && previousData[first] != imageData[first];
    bottom := -1;
    var i := previousData.Length - 1;
    while i > -1
      invariant first <= i < previousData.Length
      invariant forall j :: i < j < previousData.Length ==> previousData[j] == imageData[j]
    {
      if previousData[i] != imageData[i] {
        ghost var row := LastDiffRow(previousData[..], imageData[..], width, height, i);
        bottom := i / (width * 4);
        return;
      }
      i := i - 1;
    }
  }

  /** The third scan of `dirtyRect`: the first column, from the left, with a changed
      pixel in any row of the whole frame height. The source steps a byte offset by 4;
      this walks the same columns by pixel. */
  method ScanLeft(previousData: array<byte>, imageData: array<byte>, width: nat, height: nat)
    returns (left: int)
    requires IsFrame(previousData[..], width, height) && IsFrame(imageData[..], width, height)
    requires previousData[..] != imageData[..]
    ensures 0 <= left < width && ColumnChanged(previousData[..], imageData[..], width, height, left)
    ensures forall x: nat :: x < left ==> !ColumnChanged(previousData[..], imageData[..], width, height, x)
  {
    ghost var prev, cur := previousData[..], imageData[..];
    ghost var cx, cy := ChangedColumnExists(prev, cur, width, height);
    left := -1;
    var x := 0;
    while x < width
      invariant 0 <= x <= cx && left == -1
      invariant forall x': nat :: x' < x ==> !ColumnChanged(prev, cur, width, height, x')
    {
      var y := 0;
      while y < height
        invariant 0 <= y <= height && left == -1
        invariant x == cx ==> y <= cy
        invariant forall y': nat :: y' < y ==> !PixelChanged(prev, cur, width, x, y')
      {
        PixelInFrame(width, height, x, y);
        var pos := y * (width * 4) + x * 4;
        if previousData[pos] != imageData[pos] ||
           previousData[pos + 1] != imageData[pos + 1] ||
           previousData[pos + 2] != imageData[pos + 2] ||
           previousData[pos + 3] != imageData[pos + 3] {
          assert PixelChanged(prev, cur, width, x, y);
          left := x;
          break;
        }
        y := y + 1;
      }
      if left > -1 {
        break;
      }
      x := x + 1;
    }
  }

  /** The fourth scan of `dirtyRect`: the first column, from the right, with a changed
      pixel in any row of the whole frame height. */
  method ScanRight(previousData: array<byte>, imageData: array<byte>, width: nat, height: nat)
    returns (right: int)
    requires IsFrame(previousData[..], width, height) && IsFrame(imageData[..], width, height)
    requires previousData[..] != imageData[..]
    ensures 0 <= right < width && ColumnChanged(previousData[..], imageData[..], width, height, right)
    ensures forall x: nat :: right < x < width ==> !ColumnChanged(previousData[..], imageData[..], width, height, x)
  {
    ghost var prev, cur := previousData[..], imageData[..];
    ghost var cx, cy := ChangedColumnExists(prev, cur, width, height);
    right := -1;
    var x := width - 1;
    while x > -1
      invariant cx <= x < width && right == -1
      invariant forall x': nat :: x < x' < width ==> !ColumnChanged(prev, cur, width, height, x')
    {
      var y := 0;
      while y < height
        invariant 0 <= y <= height && right == -1
        invariant x == cx ==> y <= cy
        invariant forall y': nat :: y' < y ==> !PixelChanged(prev, cur, width, x, y')
      {
        PixelInFrame(width, height, x, y);
        var pos := y * (width * 4) + x * 4;
        if previousData[pos] != imageData[pos] ||
           previousData[pos + 1] != imageData[pos + 1] ||
           previousData[pos + 2] != imageData[pos + 2] ||
           previousData[pos + 3] != imageData[pos + 3] {
          assert PixelChanged(prev, cur, width, x, y);
          right := x;
          break;
        }
        y := y + 1;
      }
      if right > -1 {
        break;
      }
      x := x - 1;
    }
  }

  /** `dirtyRect`: the full frame when there is no previous frame; otherwise `None`
      when no byte differs, and else the tight bounding box of the changed pixels. */
  method DirtyRect(previousData: array?<byte>, imageData: array<byte>, width: nat, height: nat)
    returns (delta: Option<Rect>)
    requires IsFrame(imageData[..], width, height)
    requires previousData != null ==> previousData.Length == imageData.Length
    ensures previousData == null ==> delta == Some(Rect(0, 0, width, height))
    ensures previousData != null ==> (delta.None? <==> previousData[..] == imageData[..])
    ensures previousData != null && delta.Some? ==>
      IsDirtyRect(previousData[..], imageData[..], width, height, delta.value)
  {
    if previousData == null {
      return Some(Rect(0, 0, width, height));
    }
    var top := ScanTop(previousData, imageData, width, height);
    // there is no delta, all pixels match
    if top == -1 {
      return None;
    }
    var bottom := ScanBottom(previousData, imageData, width, height);
    var left := ScanLeft(previousData, imageData, width, height);
    var right := ScanRight(previousData, imageData, width, height);
    assert left <= right by {
      assert ColumnChanged(previousData[..], imageData[..], width, height, right);
    }
    assert top <= bottom by {
      assert RowChanged(previousData[..], imageData[..], width, bottom);
    }
    delta := Some(Rect(left, top, (right - left) + 1, (bottom - top) + 1));
  }

  // ---- properties of the dirty rectangle ----

  /** Every changed pixel of the frame lies inside the dirty rectangle. */
  lemma DirtyRectCovers(prev: seq<byte>, cur: seq<byte>, width: nat, height: nat, d: Rect, x: nat, y: nat)
    requires IsDirtyRect(prev, cur, width, height, d)
    requires x < width && y < height && PixelChanged(prev, cur, width, x, y)
    ensures d.x <= x < d.x + d.width && d.y <= y < d.y + d.height
  {
    assert ColumnChanged(prev, cur, width, height, x);
    assert RowChanged(prev, cur, width, y);
  }

  /** The two frames determine their dirty rectangle: there is only one. */
  lemma DirtyRectUnique(prev: seq<byte>, cur: seq<byte>, width: nat, height: nat, d: Rect, e: Rect)
    requires IsDirtyRect(prev, cur, width, height, d) && IsDirtyRect(prev, cur, width, height, e)
    ensures d == e
  {
  }

  /** When a single pixel changed, the dirty rectangle is that pixel alone. */
  lemma SinglePixelDelta(prev: seq<byte>, cur: seq<byte>, width: nat, height: nat, d: Rect, x: nat, y: nat)
    requires x < width && y < height && PixelChanged(prev, cur, width, x, y)
    requires forall x': nat, y': nat :: x' < width && y' < height && PixelChanged(prev, cur, width, x', y') ==> x' == x && y' == y
    requires IsDirtyRect(prev, cur, width, height, d)
    ensures d == Rect(x, y, 1, 1)
  {
  }
}
