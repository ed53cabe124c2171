/**
 * Where the decoder finds each pixel: the padded row stride, the bottom-up
 * order in which rows are stored after bfOffBits, and the most-significant-
 * bit-first order of the pixels inside a row byte.
 */
module BmpRows {
  import opened BmpHeaders
  import opened ByteBits

  const TwoTo32: nat := 0x1_0000_0000

  /**
   * ceil(n / 8.0) in the source: the fewest bytes holding n bits, and equally
   * the fewest bands of eight rows covering n rows.
   */
  function CeilDiv8(n: nat): (r: nat)
    ensures 8 * r >= n && (r > 0 ==> 8 * (r - 1) < n)
  {
    (n + 7) / 8
  }

  /**
   * ceil(width / 32.0) * 4: the stride of a stored row, the fewest bytes that
   * hold width bits and are a multiple of four.
   */
  function RowLength(width: nat): (stride: nat)
    ensures stride % 4 == 0 && width <= 8 * stride
    ensures 4 <= stride ==> 8 * (stride - 4) < width
  {
    ((width + 31) / 32) * 4
  }

  /**
   * The stride is a multiple of four, holds every pixel of the row, and
   * adds fewer than four bytes of padding to them.
   */
  lemma StridePadding(width: nat)
    ensures RowLength(width) % 4 == 0
    ensures 8 * RowLength(width) >= width
    ensures RowLength(width) >= 4 ==> 8 * (RowLength(width) - 4) < width
    ensures CeilDiv8(width) <= RowLength(width) < CeilDiv8(width) + 4
  {
  }

  /**
   * The three header values that place the pixel array: bfOffBits, biWidth
   * (read as the unsigned field the source declares) and biHeight (signed).
   */
  datatype Geometry = Geometry(offBits: nat, width: nat, height: int)

  function GeometryOf(fh: FileHeader, ih: ImageHeader): (g: Geometry)
    ensures g.offBits == fh.offBits as int && g.width == ih.width as int
    ensures g.offBits < TwoTo32 && g.width < TwoTo32
    ensures -0x8000_0000 <= g.height < 0x8000_0000
    ensures g.height == ih.height as int || g.height == ih.height as int - TwoTo32
  {
    Geometry(fh.offBits as nat, ih.width as nat, Int32Of(ih.height))
  }

  /** One past the last byte of the stored pixel array. */
  function PixelDataEnd(g: Geometry): nat
    requires 0 <= g.height
  {
    ArrayEnd(g.offBits, RowLength(g.width), g.height)
  }

  /**
   * Every byte the decoder uses lies inside the file: the first
   * ceil(width / 8) bytes of each row. Logical row 0 is stored last, so its
   * bytes are the furthest into the file; an empty image uses no byte.
   */
  predicate RowsPresent(file: seq<bv8>, g: Geometry) {
    0 <= g.height &&
    (g.height == 0 || g.width == 0 || RowOffset(g, 0) + CeilDiv8(g.width) <= |file|)
  }

  /**
   * The geometry for which the uint32 rowPointer does not wrap: a non-negative
   * height, and the largest row pointer, that of logical row 0, below 2^32.
   */
  predicate RowPointersFit(g: Geometry) {
    g.offBits < TwoTo32 && g.width < TwoTo32 && 0 <= g.height &&
    (0 < g.height ==> RowOffset(g, 0) < TwoTo32)
  }

  /**
   * fread of count bytes at pos: the bytes from pos on, as many as the file
   * holds up to count; fewer only when the file ends first.
   */
  function Fread(file: seq<bv8>, pos: nat, count: nat): (r: seq<bv8>)
    ensures |r| <= count && (|r| == 0 || pos + |r| <= |file|)
    ensures |r| < count ==> |file| <= pos + |r|
    ensures forall j :: 0 <= j < |r| ==> r[j] == file[pos + j]
  {
    if |file| <= pos then []
    else if pos + count <= |file| then file[pos..pos + count]
    else file[pos..]
  }

  /**
   * rowPointer: logical row i (0 is the top row) is stored as physical row
   * height - 1 - i, one stride per row after bfOffBits.
   */
  function RowOffset(g: Geometry, i: nat): (o: nat)
    requires i < g.height
    ensures g.offBits <= o
    ensures i == g.height - 1 ==> o == g.offBits
  {
    StoredInside(g.offBits, RowLength(g.width), g.height as nat, i);
    StoredAt(g.offBits, RowLength(g.width), g.height as nat, i)
  }

  /** The same two layouts for any base and stride. */
  function ArrayEnd(base: nat, stride: nat, h: nat): nat {
    base + stride * h
  }

  function StoredAt(base: nat, stride: nat, h: nat, i: nat): nat
    requires i < h
  {
    base + stride * (h - 1 - i)
  }

  lemma StoredInside(base: nat, stride: nat, h: nat, i: nat)
    requires i < h
    ensures base <= StoredAt(base, stride, h, i)
    ensures StoredAt(base, stride, h, i) + stride <= ArrayEnd(base, stride, h)
  {
    var q := h - 1 - i;
    assert stride * q + stride == stride * (q + 1);
    MulMonotone(stride, q + 1, h);
  }

  lemma StoredNext(base: nat, stride: nat, h: nat, i: nat)
    requires i + 1 < h
    ensures StoredAt(base, stride, h, h - 1) == base
    ensures StoredAt(base, stride, h, i + 1) + stride == StoredAt(base, stride, h, i)
  {
    var q := h - 1 - (i + 1);
    assert stride * q + stride == stride * (q + 1);
  }

  lemma StoredApart(base: nat, stride: nat, h: nat, i1: nat, i2: nat)
    requires i1 < i2 < h
    ensures StoredAt(base, stride, h, i2) + stride <= StoredAt(base, stride, h, i1)
  {
    var q := h - 1 - i2;
    assert stride * q + stride == stride * (q + 1);
    MulMonotone(stride, q + 1, h - 1 - i1);
  }

  /** An offset inside the array lies in the stride stored at height - 1 - (offset - base) / stride. */
  lemma StoredCovers(base: nat, stride: nat, h: nat, o: nat) returns (i: nat)
    requires base <= o < ArrayEnd(base, stride, h)
    ensures i < h && StoredAt(base, stride, h, i) <= o < StoredAt(base, stride, h, i) + stride
  {
    var d := o - base;
    PositiveFactor(stride, h);
    var p := d / stride;
    assert p * stride <= d < p * stride + stride;
    assert p < h by {
      if p >= h { MulMonotone(stride, h, p); }
    }
    i := h - 1 - p;
  }

  lemma PositiveFactor(a: nat, b: nat)
    requires a * b > 0 || b * a > 0
    ensures a > 0 && b > 0
  {
  }

  lemma MulMonotone(a: nat, x: nat, y: nat)
    requires x <= y
    ensures a * x <= a * y
  {
    assert a * y == a * x + a * (y - x);
  }

  /**
   * Both output layouts are grids stored row after row: cell (row, col) of a
   * grid that is width cells wide is byte row * width + col.
   */
  function GridIndex(width: nat, row: nat, col: nat): nat {
    row * width + col
  }

  lemma GridIndexBound(width: nat, rows: nat, row: nat, col: nat)
    requires row < rows && col < width
    ensures GridIndex(width, row, col) < width * rows
    ensures row * width + width <= rows * width
  {
    assert row * width + width == (row + 1) * width == width * (row + 1);
    MulMonotone(width, row + 1, rows);
    assert width * rows == rows * width;
  }

  /** Distinct cells have distinct indices. */
  lemma GridIndexInjective(width: nat, r1: nat, c1: nat, r2: nat, c2: nat)
    requires c1 < width && c2 < width
    requires GridIndex(width, r1, c1) == GridIndex(width, r2, c2)
    ensures r1 == r2 && c1 == c2
  {
    if r1 < r2 {
      GridIndexBound(width, r2, r1, c1);
      assert false;
    } else if r2 < r1 {
      GridIndexBound(width, r1, r2, c2);
      assert false;
    }
  }

  /** Every index of a grid names a cell. */
  lemma GridCell(width: nat, rows: nat, n: nat) returns (row: nat, col: nat)
    requires n < rows * width
    ensures row < rows && col < width && n == GridIndex(width, row, col)
  {
    PositiveFactor(width, rows);
    row, col := n / width, n % width;
    assert n == row * width + col;
    if row >= rows {
      MulMonotone(width, rows, row);
      assert false;
    }
  }

  /** Indexing a concatenation of grid rows: the front part, then the appended row. */
  lemma ConcatFront<T>(front: seq<T>, last: seq<T>, n: nat)
    requires n < |front|
    ensures (front + last)[n] == front[n]
  {
  }

  lemma ConcatBack<T>(front: seq<T>, last: seq<T>, c: nat)
    requires c < |last|
    ensures (front + last)[|front| + c] == last[c]
  {
  }

  /** Every logical row lies wholly inside the stored pixel array. */
  lemma RowInPixelArray(g: Geometry, i: nat)
    requires i < g.height
    ensures g.offBits <= RowOffset(g, i)
    ensures RowOffset(g, i) + RowLength(g.width) <= PixelDataEnd(g)
  {
    StoredInside(g.offBits, RowLength(g.width), g.height, i);
  }

  /** rowPointer, a uint32 in the source, does not wrap once row 0's pointer, the largest, is below 2^32. */
  lemma RowPointerFits(g: Geometry, i: nat)
    requires RowPointersFit(g) && i < g.height
    ensures RowOffset(g, i) < TwoTo32
  {
    StoredAtMost(g.offBits, RowLength(g.width), g.height, i);
  }

  /** The row stored last, logical row 0, has the largest offset. */
  lemma StoredAtMost(base: nat, stride: nat, h: nat, i: nat)
    requires i < h
    ensures StoredAt(base, stride, h, i) <= StoredAt(base, stride, h, 0)
  {
    MulMonotone(stride, h - 1 - i, h - 1);
  }

  /** Every byte the decoder uses of row i is in the file. */
  lemma RowBytePresent(file: seq<bv8>, g: Geometry, i: nat, j: nat)
    requires RowsPresent(file, g) && i < g.height && j < CeilDiv8(g.width)
    ensures RowOffset(g, i) + j < |file|
  {
    StoredAtMost(g.offBits, RowLength(g.width), g.height, i);
  }

  /** Byte j of logical row i's stride is inside the file. */
  predicate InFile(file: seq<bv8>, g: Geometry, i: nat, j: nat)
    requires i < g.height
  {
    RowOffset(g, i) + j < |file|
  }

  /**
   * RowsPresent asks for no more than the decoder reads: it holds exactly
   * when byte j of every logical row i, for j < ceil(width / 8), is in the file.
   */
  lemma RowsPresentExactly(file: seq<bv8>, g: Geometry)
    requires 0 <= g.height
    ensures RowsPresent(file, g) <==>
            forall i: nat, j: nat :: i < g.height && j < CeilDiv8(g.width) ==> InFile(file, g, i, j)
  {
    if RowsPresent(file, g) {
      forall i: nat, j: nat | i < g.height && j < CeilDiv8(g.width)
        ensures InFile(file, g, i, j)
      {
        RowBytePresent(file, g, i, j);
      }
    } else {
      assert 0 < CeilDiv8(g.width);
      assert !InFile(file, g, 0, CeilDiv8(g.width) - 1);
    }
  }

  /** The bytes fread gets for row i include every byte the decoder uses. */
  lemma FreadRow(file: seq<bv8>, g: Geometry, i: nat, j: nat)
    requires RowsPresent(file, g) && i < g.height && j < CeilDiv8(g.width)
    ensures j < |Fread(file, RowOffset(g, i), RowLength(g.width))|
    ensures RowOffset(g, i) + j < |file|
    ensures Fread(file, RowOffset(g, i), RowLength(g.width))[j] == file[RowOffset(g, i) + j]
  {
    RowBytePresent(file, g, i, j);
    StridePadding(g.width);
  }

  /** Byte j of logical row i, one of the ceil(width / 8) bytes that hold pixels. */
  function RowByte(file: seq<bv8>, g: Geometry, i: nat, j: nat): bv8
    requires RowsPresent(file, g) && i < g.height && j < CeilDiv8(g.width)
  {
    RowBytePresent(file, g, i, j);
    file[RowOffset(g, i) + j]
  }

  /**
   * Pixel (r, c) is set: the bit under mask 0x80 >> (c % 8), that is bit
   * 7 - c % 8, of byte c / 8 of logical row r.
   */
  predicate PixelSet(file: seq<bv8>, g: Geometry, r: nat, c: nat)
    requires RowsPresent(file, g) && r < g.height && c < g.width
  {
    HasBit(RowByte(file, g, r, c / 8), 7 - c % 8)
  }

  /** The pixel bytes of a row, c / 8 for c < width, all lie within its stride. */
  lemma PixelByteInRow(width: nat, c: nat)
    requires c < width
    ensures c / 8 < CeilDiv8(width) <= RowLength(width)
  {
  }

  /**
   * Bottom-up storage: the bottom row comes first at bfOffBits, and each
   * logical row is stored one stride before the row above it.
   */
  lemma {:induction false} BottomUpRows(g: Geometry, i: nat)
    requires i + 1 < g.height
    ensures RowOffset(g, g.height as nat - 1) == g.offBits
    ensures RowOffset(g, i + 1) + RowLength(g.width) == RowOffset(g, i)
  {
    StoredNext(g.offBits, RowLength(g.width), g.height, i);
  }

  /** Distinct logical rows occupy disjoint strides. */
  lemma {:induction false} RowsDisjoint(g: Geometry, i1: nat, i2: nat)
    requires i1 < i2 < g.height
    ensures RowOffset(g, i2) + RowLength(g.width) <= RowOffset(g, i1)
  {
    StoredApart(g.offBits, RowLength(g.width), g.height, i1, i2);
  }

  /**
   * The map from logical row to stored row is a bijection on the pixel array:
   * every byte between bfOffBits and the end of the array belongs to the
   * stride of exactly one logical row.
   */
  lemma {:induction false} PixelArrayCoveredOnce(g: Geometry, o: nat)
    requires 0 <= g.height && g.offBits <= o < PixelDataEnd(g)
    ensures exists i: nat :: i < g.height && RowOffset(g, i) <= o < RowOffset(g, i) + RowLength(g.width)
    ensures forall i1: nat, i2: nat ::
      (i1 < g.height && i2 < g.height &&
       RowOffset(g, i1) <= o < RowOffset(g, i1) + RowLength(g.width) &&
       RowOffset(g, i2) <= o < RowOffset(g, i2) + RowLength(g.width)) ==> i1 == i2
  {
    var stride := RowLength(g.width);
    var i := StoredCovers(g.offBits, stride, g.height, o);
    assert RowOffset(g, i) <= o < RowOffset(g, i) + stride;
    forall i1: nat, i2: nat |
      i1 < g.height && i2 < g.height &&
      RowOffset(g, i1) <= o < RowOffset(g, i1) + stride &&
      RowOffset(g, i2) <= o < RowOffset(g, i2) + stride
      ensures i1 == i2
    {
      if i1 < i2 { RowsDisjoint(g, i1, i2); }
      if i2 < i1 { RowsDisjoint(g, i2, i1); }
    }
  }
}
