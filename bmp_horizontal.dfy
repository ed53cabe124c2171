/**
 * The horizontal layout ('h'): output row i is the first ceil(width / 8)
 * bytes of stored row i, copied as they are, most significant bit first;
 * the stride's padding bytes are dropped.
 */
module HorizontalPacking {
  import opened BmpRows
  import opened ByteBits

  /** Bytes per output row: ceil(width / 8). */
  function BytesPerRow(g: Geometry): nat {
    CeilDiv8(g.width)
  }

  /** Number of output bytes in the horizontal layout: height * ceil(width / 8). */
  function HorizontalSize(g: Geometry): nat
    requires 0 <= g.height
  {
    g.height * BytesPerRow(g)
  }

  /** When the width is a multiple of eight no bit is wasted: the buffer holds width * height / 8 bytes. */
  lemma HorizontalSizeExact(g: Geometry)
    requires 0 <= g.height && g.width % 8 == 0
    ensures HorizontalSize(g) * 8 == g.width * g.height
  {
    var q := g.width / 8;
    assert BytesPerRow(g) == q;
    assert g.height * q * 8 == g.height * (q * 8);
  }

  /** The bytes of logical row i that carry pixels, without the stride's padding. */
  function KeptRow(file: seq<bv8>, g: Geometry, i: nat): (row: seq<bv8>)
    requires RowsPresent(file, g) && i < g.height
    ensures |row| == BytesPerRow(g)
  {
    seq(BytesPerRow(g), j requires 0 <= j < BytesPerRow(g) => RowByte(file, g, i, j))
  }

  /** The kept bytes of the first k logical rows, top to bottom. */
  function KeptRows(file: seq<bv8>, g: Geometry, k: nat): (rows: seq<bv8>)
    requires RowsPresent(file, g) && k <= g.height
    ensures |rows| == k * BytesPerRow(g)
  {
    if k == 0 then []
    else
      assert (k - 1) * BytesPerRow(g) + BytesPerRow(g) == k * BytesPerRow(g);
      KeptRows(file, g, k - 1) + KeptRow(file, g, k - 1)
  }

  /** The decoded horizontal image: the kept bytes of every row. */
  function HorizontalImage(file: seq<bv8>, g: Geometry): (image: seq<bv8>)
    requires RowsPresent(file, g)
    ensures |image| == HorizontalSize(g)
  {
    KeptRows(file, g, g.height as nat)
  }

  /** Kept byte j of row i sits at i * ceil(width / 8) + j. */
  lemma {:induction false} KeptRowsAt(file: seq<bv8>, g: Geometry, k: nat, i: nat, j: nat)
    requires RowsPresent(file, g) && k <= g.height && i < k && j < BytesPerRow(g)
    ensures GridIndex(BytesPerRow(g), i, j) < |KeptRows(file, g, k)|
    ensures KeptRows(file, g, k)[GridIndex(BytesPerRow(g), i, j)] == KeptRow(file, g, i)[j]
    decreases k
  {
    var bpr := BytesPerRow(g);
    GridIndexBound(bpr, k, i, j);
    var front, last := KeptRows(file, g, k - 1), KeptRow(file, g, k - 1);
    assert KeptRows(file, g, k) == front + last;
    var n := GridIndex(bpr, i, j);
    if i < k - 1 {
      KeptRowsAt(file, g, k - 1, i, j);
      ConcatFront(front, last, n);
    } else {
      ConcatBack(front, last, j);
      assert n == |front| + j;
    }
  }

  /**
   * The layout promise: output byte i * ceil(width / 8) + j is byte j of
   * logical row i, that is of stored row height - 1 - i.
   */
  lemma HorizontalAt(file: seq<bv8>, g: Geometry, i: nat, j: nat)
    requires RowsPresent(file, g) && i < g.height && j < BytesPerRow(g)
    ensures GridIndex(BytesPerRow(g), i, j) < HorizontalSize(g)
    ensures HorizontalImage(file, g)[GridIndex(BytesPerRow(g), i, j)] == RowByte(file, g, i, j)
  {
    KeptRowsAt(file, g, g.height as nat, i, j);
  }

  /** Each pixel (r, c) is bit 7 - c % 8 of output byte r * ceil(width / 8) + c / 8. */
  lemma HorizontalPixel(file: seq<bv8>, g: Geometry, r: nat, c: nat)
    requires RowsPresent(file, g) && r < g.height && c < g.width
    ensures c / 8 < BytesPerRow(g)
    ensures GridIndex(BytesPerRow(g), r, c / 8) < HorizontalSize(g)
    ensures HasBit(HorizontalImage(file, g)[GridIndex(BytesPerRow(g), r, c / 8)], 7 - c % 8) <==>
            PixelSet(file, g, r, c)
  {
    PixelByteInRow(g.width, c);
    HorizontalAt(file, g, r, c / 8);
  }

  /**
   * The bits of a row's last kept byte that lie past the image width are
   * copied from the file as they are: the decoder does not clear them.
   */
  lemma HorizontalPaddingBitsCopied(file: seq<bv8>, g: Geometry, i: nat, p: nat)
    requires RowsPresent(file, g) && i < g.height && 0 < g.width && p < 8
    requires g.width <= 8 * (BytesPerRow(g) - 1) + (7 - p)
    ensures GridIndex(BytesPerRow(g), i, BytesPerRow(g) - 1) < HorizontalSize(g)
    ensures HasBit(HorizontalImage(file, g)[GridIndex(BytesPerRow(g), i, BytesPerRow(g) - 1)], p) ==
            HasBit(RowByte(file, g, i, BytesPerRow(g) - 1), p)
  {
    HorizontalAt(file, g, i, BytesPerRow(g) - 1);
  }

  /**
   * The stride's padding bytes are not read: two files whose kept bytes agree
   * decode to the same image, whatever their padding bytes hold.
   */
  lemma HorizontalIgnoresPadding(file1: seq<bv8>, file2: seq<bv8>, g: Geometry)
    requires RowsPresent(file1, g) && RowsPresent(file2, g)
    requires forall i: nat, j: nat :: i < g.height && j < BytesPerRow(g) ==>
               RowByte(file1, g, i, j) == RowByte(file2, g, i, j)
    ensures HorizontalImage(file1, g) == HorizontalImage(file2, g)
  {
    var image1, image2 := HorizontalImage(file1, g), HorizontalImage(file2, g);
    forall n | 0 <= n < HorizontalSize(g)
      ensures image1[n] == image2[n]
    {
      var i, j := GridCell(BytesPerRow(g), g.height as nat, n);
      HorizontalAt(file1, g, i, j);
      HorizontalAt(file2, g, i, j);
    }
  }

  /**
   * Each output byte is written by exactly one iteration (i, j) of the loop:
   * the index j + i * ceil(width / 8) covers the buffer without repeats.
   */
  lemma HorizontalWritesOnce(g: Geometry, n: nat)
    requires 0 <= g.height && n < HorizontalSize(g)
    ensures exists i: nat, j: nat :: i < g.height && j < BytesPerRow(g) && GridIndex(BytesPerRow(g), i, j) == n
    ensures forall i1: nat, j1: nat, i2: nat, j2: nat ::
      (j1 < BytesPerRow(g) && j2 < BytesPerRow(g) &&
       GridIndex(BytesPerRow(g), i1, j1) == n && GridIndex(BytesPerRow(g), i2, j2) == n) ==> i1 == i2 && j1 == j2
  {
    var i, j := GridCell(BytesPerRow(g), g.height as nat, n);
    forall i1: nat, j1: nat, i2: nat, j2: nat |
      j1 < BytesPerRow(g) && j2 < BytesPerRow(g) &&
      GridIndex(BytesPerRow(g), i1, j1) == n && GridIndex(BytesPerRow(g), i2, j2) == n
      ensures i1 == i2 && j1 == j2
    {
      GridIndexInjective(BytesPerRow(g), i1, j1, i2, j2);
    }
  }

  /**
   * parseHBMPImage: walks the stored rows top to bottom and copies the first
   * ceil(width / 8) bytes of row i to bytes i * ceil(width / 8) onwards.
   */
  method ParseHorizontal(file: seq<bv8>, g: Geometry, decoded: array<bv8>)
    requires RowsPresent(file, g) && RowPointersFit(g)
    requires decoded.Length == HorizontalSize(g) <= TwoTo32
    modifies decoded
    ensures decoded[..] == HorizontalImage(file, g)
  {
    var height := g.height as nat;
    var bpr := BytesPerRow(g);
    var i := 0;
    var base: nat := 0;  // i * ceil(width / 8), the first output byte of row i
    while i < height
      invariant 0 <= i <= height
      invariant base <= decoded.Length
      invariant decoded[..base] == KeptRows(file, g, i)
    {
      var rowPointer := RowOffset(g, i);
      RowPointerFits(g, i);
      var currentRow := Fread(file, rowPointer, RowLength(g.width));
      RowFits(g, i);
      CopyRow(file, g, i, base, currentRow, decoded);
      i := i + 1;
      base := base + bpr;
    }
    assert decoded[..base] == HorizontalImage(file, g);
    assert decoded[..] == decoded[..base];
  }

  /**
   * The body of parseHBMPImage's row loop: byte j of logical row i is copied to
   * output byte j + i * ceil(width / 8), for every j < ceil(width / 8).
   */
  method CopyRow(file: seq<bv8>, g: Geometry, i: nat, base: nat, currentRow: seq<bv8>, decoded: array<bv8>)
    requires RowsPresent(file, g) && i < g.height
    requires currentRow == Fread(file, RowOffset(g, i), RowLength(g.width))
    requires base + BytesPerRow(g) <= decoded.Length
    requires decoded[..base] == KeptRows(file, g, i)
    modifies decoded
    ensures decoded[..base + BytesPerRow(g)] == KeptRows(file, g, i + 1)
    ensures decoded[base + BytesPerRow(g)..] == old(decoded[base + BytesPerRow(g)..])
  {
    var bpr := BytesPerRow(g);
    FreadKeptRow(file, g, i);
    var j := 0;
    while j < bpr
      invariant 0 <= j <= bpr
      invariant decoded[..base + j] == KeptRows(file, g, i) + currentRow[..j]
      invariant decoded[base + bpr..] == old(decoded[base + bpr..])
    {
      decoded[j + base] := currentRow[j];
      assert decoded[..base + j + 1] == decoded[..base + j] + [currentRow[j]];
      assert currentRow[..j + 1] == currentRow[..j] + [currentRow[j]];
      j := j + 1;
    }
  }

  /** The first ceil(width / 8) bytes fread gets for row i are the row's kept bytes. */
  lemma FreadKeptRow(file: seq<bv8>, g: Geometry, i: nat)
    requires RowsPresent(file, g) && i < g.height
    ensures BytesPerRow(g) <= |Fread(file, RowOffset(g, i), RowLength(g.width))|
    ensures Fread(file, RowOffset(g, i), RowLength(g.width))[..BytesPerRow(g)] == KeptRow(file, g, i)
  {
    var row, kept := Fread(file, RowOffset(g, i), RowLength(g.width)), KeptRow(file, g, i);
    StridePadding(g.width);
    if 0 < BytesPerRow(g) {
      FreadRow(file, g, i, BytesPerRow(g) - 1);
    }
    forall j | 0 <= j < BytesPerRow(g)
      ensures row[j] == kept[j]
    {
      FreadRow(file, g, i, j);
    }
  }

  /** Row i's kept bytes end inside the buffer. */
  lemma RowFits(g: Geometry, i: nat)
    requires 0 <= g.height && i < g.height
    ensures i * BytesPerRow(g) + BytesPerRow(g) == (i + 1) * BytesPerRow(g)
    ensures (i + 1) * BytesPerRow(g) <= HorizontalSize(g)
  {
    MulMonotone(BytesPerRow(g), i + 1, g.height as nat);
    assert BytesPerRow(g) * (i + 1) == (i + 1) * BytesPerRow(g);
    assert BytesPerRow(g) * g.height == g.height * BytesPerRow(g);
  }
}
