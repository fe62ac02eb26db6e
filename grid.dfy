/** Pixel buffers as the browser hands them out: flat, row-major arrays of
    8-bit values (a `Uint8ClampedArray`), one value per pixel for a mask and
    four (R, G, B, A) per pixel for `ImageData`. This module fixes the byte
    type and the index arithmetic `y * width + x` that every loop uses. */
module Grid {

  /** A value or JavaScript's `null`. */
  datatype Option<T> = None | Some(value: T)

  /** One element of a `Uint8ClampedArray`. */
  type Byte = b: int | 0 <= b <= 255

  function Max(a: Byte, b: Byte): (r: Byte)
    ensures r >= a && r >= b && (r == a || r == b)
  {
    if a >= b then a else b
  }

  function Min(a: Byte, b: Byte): (r: Byte)
    ensures r <= a && r <= b && (r == a || r == b)
  {
    if a <= b then a else b
  }

  /** Row of the flat index `p` in a grid `width` pixels wide. */
  function Row(p: nat, width: nat): nat
    requires width > 0
  {
    p / width
  }

  /** Column of the flat index `p` in a grid `width` pixels wide. */
  function Col(p: nat, width: nat): nat
    requires width > 0
  {
    p % width
  }

  lemma MulLeft(a: int, b: int, w: nat)
    requires a <= b
    ensures a * w <= b * w
  {
    assert b * w - a * w == (b - a) * w;
  }

  /** Division by `width` recovers quotient and remainder of
      `q * width + r` when `r` is a valid remainder. */
  lemma DivUnique(p: int, width: nat, q: int, r: int)
    requires 0 <= r < width && p == q * width + r
    ensures p / width == q && p % width == r
  {
    var q', r' := p / width, p % width;
    assert p == q' * width + r' && 0 <= r' < width;
    assert (q' + 1) * width == q' * width + width;
    assert (q + 1) * width == q * width + width;
    if q' < q {
      MulLeft(q' + 1, q, width);
    } else if q' > q {
      MulLeft(q + 1, q', width);
    }
  }

  /** The flat index of an in-range (x, y) lies in the buffer and maps back
      to (x, y): row-major indexing is a bijection. */
  lemma Coords(width: nat, height: nat, x: int, y: int)
    requires 0 <= x < width && 0 <= y < height
    ensures 0 <= y * width + x < width * height
    ensures Row(y * width + x, width) == y && Col(y * width + x, width) == x
  {
    MulLeft(y + 1, height, width);
    assert (y + 1) * width == y * width + width;
    MulLeft(0, y, width);
    DivUnique(y * width + x, width, y, x);
  }

  /** Every flat index of a `width * height` buffer has a row below
      `height`. */
  lemma RowInRange(p: nat, width: nat, height: nat)
    requires width > 0 && p < width * height
    ensures Row(p, width) < height && p == Row(p, width) * width + Col(p, width)
  {
    if p / width >= height {
      MulLeft(height, p / width, width);
    }
  }

  /** A flat index inside row `y` decomposes into row `y` and its offset
      in that row. */
  lemma InRow(p: int, width: nat, y: int)
    requires 0 <= y && y * width <= p < y * width + width
    ensures p >= 0 && width > 0 && Row(p, width) == y && Col(p, width) == p - y * width
  {
    MulLeft(0, y, width);
    Coords(width, y + 1, p - y * width, y);
  }

  /** Row-major order: every index from `y * width` on lies in row `y` or
      a later one. */
  lemma RowAtLeast(p: nat, width: nat, y: nat)
    requires width > 0 && y * width <= p
    ensures Row(p, width) >= y
  {
    if p / width < y {
      MulLeft(p / width + 1, y, width);
    }
  }

  /** Channel `c` of pixel `j` in an RGBA buffer sits at byte `4 * j + c`,
      and that byte maps back to the pixel and the channel. */
  lemma ByteOffset(j: nat, c: nat)
    requires c < 4
    ensures (4 * j + c) / 4 == j && (4 * j + c) % 4 == c && (4 * j + c) - (4 * j + c) % 4 == 4 * j
  {
  }

  /** The value of pixel (x, y) in a single-channel buffer. */
  function Px(m: seq<Byte>, width: nat, height: nat, x: int, y: int): Byte
    requires |m| == width * height
    requires 0 <= x < width && 0 <= y < height
  {
    Coords(width, height, x, y);
    m[y * width + x]
  }

  /** Pixel (x, y) is interior: it has all eight neighbours. */
  predicate Interior(width: nat, height: nat, x: int, y: int)
  {
    1 <= x < width - 1 && 1 <= y < height - 1
  }
}
