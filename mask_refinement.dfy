/** `improveMask` (script.js): turns the RGBA mask that the segmenter
    produced into a binary, mirrored mask, runs a 3x3 min/max scan over its
    interior pixels and expands the result back to grey RGBA.

    The scan computes both the minimum (`eroded`) and the maximum
    (`dilated`) of each 3x3 window of the *binarised* mask; only `dilated`
    reaches the result, so the refinement is a plain 3x3 dilation. Border
    pixels are never written and keep the zero a fresh `Uint8ClampedArray`
    starts with. */
module MaskRefinement {
  import opened Grid

  /** The neighbourhood offsets the scan iterates over, in order. */
  const Offsets: seq<int> := [-1, 0, 1]

  /** Binarisation of one red value: strictly above 128 is foreground. */
  function Threshold(v: Byte): Byte
  {
    if v > 128 then 255 else 0
  }

  /** The red channel of pixel (x, y) of an RGBA buffer. */
  function Red(src: seq<Byte>, width: nat, height: nat, x: int, y: int): Byte
    requires |src| == width * height * 4
    requires 0 <= x < width && 0 <= y < height
  {
    Coords(width, height, x, y);
    src[(y * width + x) * 4]
  }

  /** The single-channel mask after the fused binarise-and-mirror pass:
      mask pixel (x, y) holds the threshold of source pixel
      (width - 1 - x, y). */
  function Binarized(src: seq<Byte>, width: nat, height: nat): (m: seq<Byte>)
    requires |src| == width * height * 4
    ensures |m| == width * height
  {
    seq(width * height, p requires 0 <= p < width * height =>
      RowInRange(p, width, height);
      Threshold(Red(src, width, height, width - 1 - Col(p, width), Row(p, width))))
  }

  predicate IsBinary(m: seq<Byte>)
  {
    forall p :: 0 <= p < |m| ==> m[p] == 0 || m[p] == 255
  }

  /** Running maximum over the first `k` pixels of row `y + dy` of the
      window centred on (x, y), starting from 0 as the scan does. */
  function RowMax(m: seq<Byte>, width: nat, height: nat, x: int, y: int, dy: int, k: nat): Byte
    requires |m| == width * height && Interior(width, height, x, y)
    requires -1 <= dy <= 1 && k <= 3
  {
    if k == 0 then 0
    else Max(RowMax(m, width, height, x, y, dy, k - 1), Px(m, width, height, x + Offsets[k - 1], y + dy))
  }

  /** Running maximum over the first `j` rows of the window centred on
      (x, y). */
  function WindowMax(m: seq<Byte>, width: nat, height: nat, x: int, y: int, j: nat): Byte
    requires |m| == width * height && Interior(width, height, x, y) && j <= 3
  {
    if j == 0 then 0
    else Max(WindowMax(m, width, height, x, y, j - 1), RowMax(m, width, height, x, y, Offsets[j - 1], 3))
  }

  /** Running minimum over the first `k` pixels of row `y + dy` of the
      window, starting from 255 as the scan does. */
  function RowMin(m: seq<Byte>, width: nat, height: nat, x: int, y: int, dy: int, k: nat): Byte
    requires |m| == width * height && Interior(width, height, x, y)
    requires -1 <= dy <= 1 && k <= 3
  {
    if k == 0 then 255
    else Min(RowMin(m, width, height, x, y, dy, k - 1), Px(m, width, height, x + Offsets[k - 1], y + dy))
  }

  function WindowMin(m: seq<Byte>, width: nat, height: nat, x: int, y: int, j: nat): Byte
    requires |m| == width * height && Interior(width, height, x, y) && j <= 3
  {
    if j == 0 then 255
    else Min(WindowMin(m, width, height, x, y, j - 1), RowMin(m, width, height, x, y, Offsets[j - 1], 3))
  }

  /** The `dilated` buffer after the scan: the 3x3 maximum on interior
      pixels, 0 on the border. */
  function Dilated(m: seq<Byte>, width: nat, height: nat): (d: seq<Byte>)
    requires |m| == width * height
    ensures |d| == width * height
  {
    seq(width * height, p requires 0 <= p < width * height =>
      RowInRange(p, width, height);
      if Interior(width, height, Col(p, width), Row(p, width))
      then WindowMax(m, width, height, Col(p, width), Row(p, width), 3)
      else 0)
  }

  /** The `eroded` buffer after the scan: the 3x3 minimum on interior
      pixels, 0 on the border. It is computed and never read. */
  function Eroded(m: seq<Byte>, width: nat, height: nat): (e: seq<Byte>)
    requires |m| == width * height
    ensures |e| == width * height
  {
    seq(width * height, p requires 0 <= p < width * height =>
      RowInRange(p, width, height);
      if Interior(width, height, Col(p, width), Row(p, width))
      then WindowMin(m, width, height, Col(p, width), Row(p, width), 3)
      else 0)
  }

  /** The RGBA result of `improveMask`: every pixel is the dilated value in
      R, G and B, with alpha 255. */
  function Improved(src: seq<Byte>, width: nat, height: nat): (r: seq<Byte>)
    requires |src| == width * height * 4
    ensures |r| == width * height * 4
  {
    var d := Dilated(Binarized(src, width, height), width, height);
    seq(width * height * 4, i requires 0 <= i < width * height * 4 =>
      if i % 4 == 3 then 255 else d[i / 4])
  }

  /** The R channel of pixel (x, y) of an RGBA buffer (used for results). */
  function Out(r: seq<Byte>, width: nat, height: nat, x: int, y: int): Byte
    requires |r| == width * height * 4
    requires 0 <= x < width && 0 <= y < height
  {
    Red(r, width, height, x, y)
  }

  // ---------------------------------------------------------------------
  // The imperative model, phase by phase.

  /** The fused pass writes the threshold of source pixel (x, y) to mask
      pixel (width - 1 - x, y). */
  lemma BinarizedAt(src: seq<Byte>, width: nat, height: nat, x: int, y: int)
    requires |src| == width * height * 4
    requires 0 <= x < width && 0 <= y < height
    ensures 0 <= y * width + (width - 1 - x) < width * height
    ensures Binarized(src, width, height)[y * width + (width - 1 - x)] == Threshold(Red(src, width, height, x, y))
    ensures Px(Binarized(src, width, height), width, height, width - 1 - x, y) == Threshold(Red(src, width, height, x, y))
  {
    Coords(width, height, width - 1 - x, y);
  }

  /** Phase 1: binarise the red channel and mirror each row, in one pass. */
  method BinarizeMirror(src: seq<Byte>, width: nat, height: nat) returns (mask: array<Byte>)
    requires |src| == width * height * 4
    ensures fresh(mask) && mask[..] == Binarized(src, width, height)
  {
    mask := new Byte[width * height](_ => 0);
    ghost var b := Binarized(src, width, height);
    var y, row := 0, 0;
    while y < height
      invariant 0 <= y <= height && mask.Length == width * height
      invariant row == y * width && row <= width * height
      invariant forall p {:trigger mask[p]} :: 0 <= p < row ==> mask[p] == b[p]
    {
      MulLeft(y + 1, height, width);
      assert (y + 1) * width == row + width;
      var x := 0;
      while x < width
        invariant 0 <= x <= width
        invariant forall p {:trigger mask[p]} :: 0 <= p < row || row + width - x <= p < row + width ==> mask[p] == b[p]
      {
        BinarizedAt(src, width, height, x, y);
        Coords(width, height, x, y);
        var gray := src[(row + x) * 4];
        mask[row + (width - 1 - x)] := if gray > 128 then 255 else 0;
        x := x + 1;
      }
      y, row := y + 1, row + width;
    }
  }

  /** Reading window pixel (x + dx, y + dy) by its flat index. */
  lemma WindowRead(m: seq<Byte>, width: nat, height: nat, x: int, y: int, dx: int, dy: int)
    requires |m| == width * height && Interior(width, height, x, y)
    requires -1 <= dx <= 1 && -1 <= dy <= 1
    ensures 0 <= (y + dy) * width + (x + dx) < |m|
    ensures m[(y + dy) * width + (x + dx)] == Px(m, width, height, x + dx, y + dy)
  {
    Coords(width, height, x + dx, y + dy);
  }

  /** The innermost loop for window row `y + dy`: folds its three pixels,
      left to right, into the running minimum and maximum. */
  method ScanWindowRow(mask: seq<Byte>, width: nat, height: nat, x: int, y: int, dy: int, min0: Byte, max0: Byte)
    returns (min: Byte, max: Byte)
    requires |mask| == width * height && Interior(width, height, x, y) && -1 <= dy <= 1
    ensures min == Min(min0, RowMin(mask, width, height, x, y, dy, 3))
    ensures max == Max(max0, RowMax(mask, width, height, x, y, dy, 3))
  {
    min, max := min0, max0;
    var b := 0;
    while b < 3
      invariant 0 <= b <= 3
      invariant min == Min(min0, RowMin(mask, width, height, x, y, dy, b))
      invariant max == Max(max0, RowMax(mask, width, height, x, y, dy, b))
    {
      var dx := Offsets[b];
      assert -1 <= dx <= 1;
      WindowRead(mask, width, height, x, y, dx, dy);
      var val := mask[(y + dy) * width + (x + dx)];
      min := Min(min, val);
      max := Max(max, val);
      b := b + 1;
    }
  }

  /** The inner double loop of phase 2 for one interior pixel: the minimum
      and maximum of its 3x3 window, accumulated in the scan's order. */
  method Neighbourhood(mask: seq<Byte>, width: nat, height: nat, x: int, y: int) returns (min: Byte, max: Byte)
    requires |mask| == width * height && Interior(width, height, x, y)
    ensures min == WindowMin(mask, width, height, x, y, 3)
    ensures max == WindowMax(mask, width, height, x, y, 3)
  {
    min, max := 255, 0;
    var a := 0;
    while a < 3
      invariant 0 <= a <= 3
      invariant min == WindowMin(mask, width, height, x, y, a)
      invariant max == WindowMax(mask, width, height, x, y, a)
    {
      var dy := Offsets[a];
      assert -1 <= dy <= 1;
      min, max := ScanWindowRow(mask, width, height, x, y, dy, min, max);
      a := a + 1;
    }
  }

  /** Pixels off the interior are 0 in both scan buffers. */
  lemma ScanBorder(m: seq<Byte>, width: nat, height: nat, p: nat)
    requires |m| == width * height && p < width * height
    requires !Interior(width, height, Col(p, width), Row(p, width))
    ensures Eroded(m, width, height)[p] == 0 && Dilated(m, width, height)[p] == 0
  {
  }

  /** Between the last interior pixel of row `y` and the first of row
      `y + 1` (and before the first interior pixel of all, for `y = 0`)
      the scan writes nothing, and the specification holds 0 there. */
  lemma ScanGap(m: seq<Byte>, width: nat, height: nat, y: nat, x: nat, p: nat)
    requires |m| == width * height && p < width * height
    requires x >= 1 && (y == 0 || x >= width - 1)
    requires y == 0 || y * width + x <= p
    requires p < y * width + width + 1
    ensures Eroded(m, width, height)[p] == 0 && Dilated(m, width, height)[p] == 0
  {
    assert (y + 1) * width == y * width + width;
    if p < y * width + width {
      InRow(p, width, y);
    } else {
      InRow(p, width, y + 1);
    }
    ScanBorder(m, width, height, p);
  }

  /** A scan buffer that is final below index `n` and still holds its
      initial 0 from `n` on. */
  predicate Written(buf: seq<Byte>, spec: seq<Byte>, n: int)
    requires |buf| == |spec|
  {
    forall p {:trigger buf[p]} :: 0 <= p < |buf| ==> buf[p] == if p < n then spec[p] else 0
  }

  /** Writing the specified value at index `n` moves the frontier by one. */
  lemma WrittenStep(buf: seq<Byte>, spec: seq<Byte>, n: nat, v: Byte)
    requires |buf| == |spec| && n < |buf| && Written(buf, spec, n) && v == spec[n]
    ensures Written(buf[n := v], spec, n + 1)
  {
  }

  /** Over a stretch where the specification is 0, nothing needs writing. */
  lemma WrittenSkip(buf: seq<Byte>, spec: seq<Byte>, n: int, n': int)
    requires |buf| == |spec| && n <= n' && Written(buf, spec, n)
    requires forall p :: 0 <= p < |spec| && n <= p < n' ==> spec[p] == 0
    ensures Written(buf, spec, n')
  {
  }

  /** Row `y` of phase 2: the scan over its interior pixels. Before it,
      both buffers are final up to the first interior pixel of row `y`;
      after it, up to the first interior pixel of row `y + 1`. */
  method ScanRow(mask: seq<Byte>, eroded: array<Byte>, dilated: array<Byte>, width: nat, height: nat, y: nat, row: nat)
    requires |mask| == eroded.Length == dilated.Length == width * height
    requires eroded != dilated
    requires 1 <= y < height - 1 && row == y * width
    requires Written(eroded[..], Eroded(mask, width, height), row + 1)
    requires Written(dilated[..], Dilated(mask, width, height), row + 1)
    modifies eroded, dilated
    ensures Written(eroded[..], Eroded(mask, width, height), row + width + 1)
    ensures Written(dilated[..], Dilated(mask, width, height), row + width + 1)
  {
    ghost var e := Eroded(mask, width, height);
    ghost var d := Dilated(mask, width, height);
    var x := 1;
    while x < width - 1
      invariant 1 <= x && (width >= 2 ==> x <= width - 1) && (width < 2 ==> x == 1)
      invariant Written(eroded[..], e, row + x) && Written(dilated[..], d, row + x)
    {
      var min, max := Neighbourhood(mask, width, height, x, y);
      Coords(width, height, x, y);
      WrittenStep(eroded[..], e, row + x, min);
      WrittenStep(dilated[..], d, row + x, max);
      eroded[row + x] := min;
      dilated[row + x] := max;
      x := x + 1;
    }
    forall p | 0 <= p < width * height && row + x <= p < row + width + 1 ensures e[p] == 0 && d[p] == 0 {
      ScanGap(mask, width, height, y, x, p);
    }
    WrittenSkip(eroded[..], e, row + x, row + width + 1);
    WrittenSkip(dilated[..], d, row + x, row + width + 1);
  }

  /** Phase 2: the min/max scan over interior pixels, into two
      zero-initialised buffers. */
  method MinMaxScan(mask: seq<Byte>, width: nat, height: nat) returns (eroded: array<Byte>, dilated: array<Byte>)
    requires |mask| == width * height
    ensures fresh(eroded) && fresh(dilated)
    ensures eroded[..] == Eroded(mask, width, height)
    ensures dilated[..] == Dilated(mask, width, height)
  {
    eroded := new Byte[|mask|](_ => 0);
    dilated := new Byte[|mask|](_ => 0);
    ghost var e := Eroded(mask, width, height);
    ghost var d := Dilated(mask, width, height);
    forall p | 0 <= p < width * height && p < width + 1 ensures e[p] == 0 && d[p] == 0 {
      ScanGap(mask, width, height, 0, 1, p);
    }
    var y, row := 1, width;
    while y < height - 1
      invariant 1 <= y && (height >= 2 ==> y <= height - 1) && row == y * width
      invariant Written(eroded[..], e, row + 1) && Written(dilated[..], d, row + 1)
    {
      ScanRow(mask, eroded, dilated, width, height, y, row);
      y, row := y + 1, row + width;
    }
    forall p | 0 <= p < width * height && p >= row ensures e[p] == 0 && d[p] == 0 {
      RowAtLeast(p, width, y);
      ScanBorder(mask, width, height, p);
    }
  }

  /** Phase 3: expand the single-channel result to grey RGBA, opaque. */
  method ExpandToRgba(dilated: array<Byte>, width: nat, height: nat) returns (resData: array<Byte>)
    requires dilated.Length == width * height
    ensures fresh(resData) && |resData[..]| == width * height * 4
    ensures forall i :: 0 <= i < resData.Length ==>
      resData[i] == if i % 4 == 3 then 255 else dilated[i / 4]
  {
    resData := new Byte[width * height * 4](_ => 0);
    var i := 0;
    while i < width * height
      invariant 0 <= i <= width * height
      invariant forall k {:trigger resData[k]} :: 0 <= k < resData.Length ==>
        resData[k] == if k >= 4 * i then 0 else if k % 4 == 3 then 255 else dilated[k / 4]
    {
      ByteOffset(i, 0);
      ByteOffset(i, 1);
      ByteOffset(i, 2);
      ByteOffset(i, 3);
      var v := dilated[i];
      resData[i * 4] := v;
      resData[i * 4 + 1] := v;
      resData[i * 4 + 2] := v;
      resData[i * 4 + 3] := 255;
      i := i + 1;
    }
  }

  /** `improveMask(maskData, width, height)`: the refined mask as the
      `ImageData` contents it returns. `new ImageData` throws for a zero
      width or height, so the caller must pass a non-empty frame. */
  method ImproveMask(src: seq<Byte>, width: nat, height: nat) returns (res: seq<Byte>)
    requires |src| == width * height * 4
    requires width > 0 && height > 0
    ensures res == Improved(src, width, height)
  {
    var mask := BinarizeMirror(src, width, height);
    var eroded, dilated := MinMaxScan(mask[..], width, height);
    var resData := ExpandToRgba(dilated, width, height);
    res := resData[..];
  }
}

/** What `improveMask` promises, proved about its specification. */
module MaskRefinementProperties {
  import opened Grid
  import opened MaskRefinement

  /** The running maximum over a partial row is an upper bound of the
      pixels scanned so far and equals one of them. */
  lemma {:induction false} RowMaxBounds(m: seq<Byte>, width: nat, height: nat, x: int, y: int, dy: int, ny: int, k: nat)
    requires |m| == width * height && Interior(width, height, x, y)
    requires -1 <= dy <= 1 && ny == y + dy && k <= 3
    ensures forall nx :: x - 1 <= nx < x - 1 + k ==> Px(m, width, height, nx, ny) <= RowMax(m, width, height, x, y, dy, k)
    ensures k > 0 ==> exists nx :: x - 1 <= nx < x - 1 + k && Px(m, width, height, nx, ny) == RowMax(m, width, height, x, y, dy, k)
  {
    if k > 0 {
      RowMaxBounds(m, width, height, x, y, dy, ny, k - 1);
      assert Offsets[k - 1] == k - 2;
      var v := Px(m, width, height, x + k - 2, ny);
      if k == 1 || v >= RowMax(m, width, height, x, y, dy, k - 1) {
        assert Px(m, width, height, x + k - 2, ny) == RowMax(m, width, height, x, y, dy, k);
      }
    }
  }

  /** The running maximum over the first `j` rows of the window is an upper
      bound of their pixels and equals one of them. */
  lemma {:induction false} WindowMaxBounds(m: seq<Byte>, width: nat, height: nat, x: int, y: int, j: nat)
    requires |m| == width * height && Interior(width, height, x, y) && j <= 3
    ensures forall nx, ny :: x - 1 <= nx <= x + 1 && y - 1 <= ny < y - 1 + j ==> Px(m, width, height, nx, ny) <= WindowMax(m, width, height, x, y, j)
    ensures j > 0 ==> exists nx, ny :: x - 1 <= nx <= x + 1 && y - 1 <= ny < y - 1 + j && Px(m, width, height, nx, ny) == WindowMax(m, width, height, x, y, j)
  {
    if j > 0 {
      WindowMaxBounds(m, width, height, x, y, j - 1);
      assert Offsets[j - 1] == j - 2;
      RowMaxBounds(m, width, height, x, y, j - 2, y + j - 2, 3);
      var r := RowMax(m, width, height, x, y, j - 2, 3);
      if j == 1 || r >= WindowMax(m, width, height, x, y, j - 1) {
        var ny := y + j - 2;
        var nx :| x - 1 <= nx < x + 2 && Px(m, width, height, nx, ny) == r;
        assert Px(m, width, height, nx, ny) == WindowMax(m, width, height, x, y, j);
      }
    }
  }

  /** The running minimum over a partial row is a lower bound of the pixels
      scanned so far. */
  lemma {:induction false} RowMinBounds(m: seq<Byte>, width: nat, height: nat, x: int, y: int, dy: int, ny: int, k: nat)
    requires |m| == width * height && Interior(width, height, x, y)
    requires -1 <= dy <= 1 && ny == y + dy && k <= 3
    ensures forall nx :: x - 1 <= nx < x - 1 + k ==> RowMin(m, width, height, x, y, dy, k) <= Px(m, width, height, nx, ny)
  {
    if k > 0 {
      RowMinBounds(m, width, height, x, y, dy, ny, k - 1);
      assert Offsets[k - 1] == k - 2;
    }
  }

  /** The 3x3 minimum is a lower bound of every pixel of the window. */
  lemma {:induction false} WindowMinBounds(m: seq<Byte>, width: nat, height: nat, x: int, y: int, j: nat)
    requires |m| == width * height && Interior(width, height, x, y) && j <= 3
    ensures forall nx, ny :: x - 1 <= nx <= x + 1 && y - 1 <= ny < y - 1 + j ==> WindowMin(m, width, height, x, y, j) <= Px(m, width, height, nx, ny)
  {
    if j > 0 {
      WindowMinBounds(m, width, height, x, y, j - 1);
      assert Offsets[j - 1] == j - 2;
      RowMinBounds(m, width, height, x, y, j - 2, y + j - 2, 3);
    }
  }

  /** The result's R channel at (x, y) is the 3x3 maximum of the binarised
      mask for an interior pixel and 0 on the border. */
  lemma ImprovedAt(src: seq<Byte>, width: nat, height: nat, x: int, y: int)
    requires |src| == width * height * 4
    requires 0 <= x < width && 0 <= y < height
    ensures Out(Improved(src, width, height), width, height, x, y) ==
      if Interior(width, height, x, y) then WindowMax(Binarized(src, width, height), width, height, x, y, 3) else 0
  {
    Coords(width, height, x, y);
    var p := y * width + x;
    assert (p * 4) / 4 == p && (p * 4) % 4 == 0;
  }

  /** The binarised mask is binary. */
  lemma BinarizedIsBinary(src: seq<Byte>, width: nat, height: nat)
    requires |src| == width * height * 4
    ensures IsBinary(Binarized(src, width, height))
  {
  }

  /** The 3x3 maximum of a binary mask is 0 or 255. */
  lemma WindowMaxBinary(m: seq<Byte>, width: nat, height: nat, x: int, y: int)
    requires |m| == width * height && Interior(width, height, x, y) && IsBinary(m)
    ensures WindowMax(m, width, height, x, y, 3) == 0 || WindowMax(m, width, height, x, y, 3) == 255
  {
    WindowMaxBounds(m, width, height, x, y, 3);
    var nx, ny :| x - 1 <= nx <= x + 1 && y - 1 <= ny <= y + 1 && Px(m, width, height, nx, ny) == WindowMax(m, width, height, x, y, 3);
    Coords(width, height, nx, ny);
  }

  /** Every pixel of the result is grey (R = G = B), black or white, and
      fully opaque. */
  lemma {:induction false} ImprovedShape(src: seq<Byte>, width: nat, height: nat)
    requires |src| == width * height * 4
    ensures forall i :: 0 <= i < |Improved(src, width, height)| ==>
      var r := Improved(src, width, height);
      (i % 4 == 3 ==> r[i] == 255) &&
      (i % 4 != 3 ==> (r[i] == 0 || r[i] == 255) && r[i] == r[i - i % 4])
  {
    var b := Binarized(src, width, height);
    var d := Dilated(b, width, height);
    BinarizedIsBinary(src, width, height);
    forall p | 0 <= p < width * height ensures d[p] == 0 || d[p] == 255 {
      RowInRange(p, width, height);
      if Interior(width, height, Col(p, width), Row(p, width)) {
        WindowMaxBinary(b, width, height, Col(p, width), Row(p, width));
      }
    }
    var r := Improved(src, width, height);
    forall i | 0 <= i < |r| && i % 4 != 3 ensures (r[i] == 0 || r[i] == 255) && r[i] == r[i - i % 4] {
      assert (i - i % 4) / 4 == i / 4 && (i - i % 4) % 4 == 0;
    }
  }

  /** Border pixels of the result (first and last row and column) are 0. */
  lemma ImprovedBorderZero(src: seq<Byte>, width: nat, height: nat, x: int, y: int)
    requires |src| == width * height * 4
    requires 0 <= x < width && 0 <= y < height
    requires x == 0 || x == width - 1 || y == 0 || y == height - 1
    ensures Out(Improved(src, width, height), width, height, x, y) == 0
  {
    ImprovedAt(src, width, height, x, y);
  }

  /** A frame narrower or lower than three pixels has no interior, so the
      whole result is black (alpha aside). */
  lemma ImprovedSmallFrameBlack(src: seq<Byte>, width: nat, height: nat)
    requires |src| == width * height * 4
    requires width < 3 || height < 3
    ensures forall i :: 0 <= i < |Improved(src, width, height)| && i % 4 != 3 ==> Improved(src, width, height)[i] == 0
  {
    var d := Dilated(Binarized(src, width, height), width, height);
    forall p | 0 <= p < width * height ensures d[p] == 0 {
      RowInRange(p, width, height);
    }
  }

  /** An interior pixel of the result is 255 exactly when some pixel of its
      3x3 window in the binarised mirrored mask is 255. */
  lemma ImprovedInterior(src: seq<Byte>, width: nat, height: nat, x: int, y: int)
    requires |src| == width * height * 4
    requires Interior(width, height, x, y)
    ensures Out(Improved(src, width, height), width, height, x, y) == 255 <==>
      exists nx, ny :: x - 1 <= nx <= x + 1 && y - 1 <= ny <= y + 1 && Px(Binarized(src, width, height), width, height, nx, ny) == 255
  {
    var b := Binarized(src, width, height);
    ImprovedAt(src, width, height, x, y);
    WindowMaxBounds(b, width, height, x, y, 3);
  }

  /** The refinement only grows the foreground on the interior: an interior
      pixel that is 255 in the binarised mask is 255 in the result. */
  lemma ImprovedExtensive(src: seq<Byte>, width: nat, height: nat, x: int, y: int)
    requires |src| == width * height * 4
    requires Interior(width, height, x, y)
    requires Px(Binarized(src, width, height), width, height, x, y) == 255
    ensures Out(Improved(src, width, height), width, height, x, y) == 255
  {
    ImprovedAt(src, width, height, x, y);
    WindowMaxBounds(Binarized(src, width, height), width, height, x, y, 3);
  }

  /** The opening the scan's comment names (erosion, then dilation of the
      eroded mask) never adds foreground on the interior. */
  lemma OpeningWithinMask(m: seq<Byte>, width: nat, height: nat, x: int, y: int)
    requires |m| == width * height && IsBinary(m)
    requires Interior(width, height, x, y)
    requires Px(Dilated(Eroded(m, width, height), width, height), width, height, x, y) == 255
    ensures Px(m, width, height, x, y) == 255
  {
    var e := Eroded(m, width, height);
    Coords(width, height, x, y);
    WindowMaxBounds(e, width, height, x, y, 3);
    var nx, ny :| x - 1 <= nx <= x + 1 && y - 1 <= ny <= y + 1 && Px(e, width, height, nx, ny) == 255;
    Coords(width, height, nx, ny);
    assert Interior(width, height, nx, ny);
    WindowMinBounds(m, width, height, nx, ny, 3);
    Coords(width, height, x, y);
  }

  /** The binarised mask of a 4x3 frame whose only bright source pixel is
      (2, 1): just mask pixel (1, 1), its mirror image, is on. */
  lemma SpotBinarized(src: seq<Byte>)
    requires src == seq(48, i => if i == 24 then 255 else 0)
    ensures forall p :: 0 <= p < 12 ==> Binarized(src, 4, 3)[p] == if p == 5 then 255 else 0
  {
    forall p | 0 <= p < 12 ensures Binarized(src, 4, 3)[p] == if p == 5 then 255 else 0 {
      RowInRange(p, 4, 3);
      Coords(4, 3, 3 - Col(p, 4), Row(p, 4));
    }
  }

  /** Opening that mask clears it: each of the two interior erosion
      windows reaches into the all-zero first row, and the dilation of an
      all-zero buffer is 0. */
  lemma SpotOpening(b: seq<Byte>)
    requires |b| == 12 && forall p :: 0 <= p < 12 ==> b[p] == if p == 5 then 255 else 0
    ensures Px(Dilated(Eroded(b, 4, 3), 4, 3), 4, 3, 2, 1) == 0
  {
    var e := Eroded(b, 4, 3);
    forall p | 0 <= p < 12 ensures e[p] == 0 {
      RowInRange(p, 4, 3);
      var x, y := Col(p, 4), Row(p, 4);
      if Interior(4, 3, x, y) {
        WindowMinBounds(b, 4, 3, x, y, 3);
        Coords(4, 3, x, 0);
        assert Px(b, 4, 3, x, 0) == 0;
      }
    }
    WindowMaxBounds(e, 4, 3, 2, 1, 3);
    var nx, ny :| 1 <= nx <= 3 && 0 <= ny <= 2 && Px(e, 4, 3, nx, ny) == WindowMax(e, 4, 3, 2, 1, 3);
    Coords(4, 3, nx, ny);
    Coords(4, 3, 2, 1);
  }

  /** `improveMask` is not that opening: one bright pixel in a 4x3 frame
      spreads to its interior neighbour, where the binarised mask and the
      opening are both 0. */
  lemma DilationIsNotOpening(src: seq<Byte>)
    requires src == seq(48, i => if i == 24 then 255 else 0)
    ensures Px(Binarized(src, 4, 3), 4, 3, 2, 1) == 0
    ensures Px(Dilated(Eroded(Binarized(src, 4, 3), 4, 3), 4, 3), 4, 3, 2, 1) == 0
    ensures Out(Improved(src, 4, 3), 4, 3, 2, 1) == 255
  {
    var b := Binarized(src, 4, 3);
    SpotBinarized(src);
    Coords(4, 3, 2, 1);
    Coords(4, 3, 1, 1);
    assert Px(b, 4, 3, 1, 1) == 255;
    ImprovedInterior(src, 4, 3, 2, 1);
    SpotOpening(b);
  }
}
