/**
 * The vertical layout ('v'): the image is cut into bands of eight rows, and
 * output byte band * width + column holds that column of the band, bit p
 * being the pixel of row 8 * band + p.
 */
module VerticalPacking {
  import opened BmpRows
  import opened ByteBits

  /** Row 8 * b + p lies in band b at bit p. */
  lemma BandPosition(b: nat, p: nat)
    requires p < 8
    ensures (8 * b + p) / 8 == b && (8 * b + p) % 8 == p
  {
  }

  /** Number of output bytes in the vertical layout: width * ceil(height / 8). */
  function VerticalSize(g: Geometry): nat
    requires 0 <= g.height
  {
    g.width * CeilDiv8(g.height)
  }

  /** When both sides are multiples of eight no bit is wasted: the buffer holds width * height / 8 bytes. */
  lemma VerticalSizeExact(g: Geometry)
    requires 0 <= g.height && g.width % 8 == 0 && g.height % 8 == 0
    ensures VerticalSize(g) * 8 == g.width * g.height
  {
    var q := g.height / 8;
    assert CeilDiv8(g.height) == q;
    assert g.width * q * 8 == g.width * (q * 8);
  }

  /** What row r contributes to column c of its band: bit r % 8 when the pixel is set. */
  function PixelContribution(file: seq<bv8>, g: Geometry, r: nat, c: nat): bv8
    requires RowsPresent(file, g) && r < g.height && c < g.width
  {
    if PixelSet(file, g, r, c) then BitOf(r % 8) else 0
  }

  /** The first m rows of band b, column c, ORed together; rows past the image add nothing. */
  function BandByte(file: seq<bv8>, g: Geometry, b: nat, c: nat, m: nat): bv8
    requires RowsPresent(file, g) && c < g.width && m <= 8
    decreases m
  {
    if m == 0 then 0
    else if 8 * b + m - 1 < g.height then
      BandByte(file, g, b, c, m - 1) | (if PixelSet(file, g, 8 * b + m - 1, c) then BitOf(m - 1) else 0)
    else BandByte(file, g, b, c, m - 1)
  }

  /** Bit p of a partial band byte is pixel (8 * b + p, c), for the rows merged so far. */
  lemma {:induction false} BandByteBit(file: seq<bv8>, g: Geometry, b: nat, c: nat, m: nat, p: nat)
    requires RowsPresent(file, g) && c < g.width && m <= 8 && p < 8
    ensures HasBit(BandByte(file, g, b, c, m), p) <==>
            p < m && 8 * b + p < g.height && PixelSet(file, g, 8 * b + p, c)
    decreases m
  {
    if m == 0 {
      ZeroHasNoBit(p);
    } else {
      BandByteBit(file, g, b, c, m - 1, p);
      BandBitStep(file, g, b, c, m - 1, p);
    }
  }

  /** Merging row 8 * b + m can only set bit m. */
  lemma BandBitStep(file: seq<bv8>, g: Geometry, b: nat, c: nat, m: nat, p: nat)
    requires RowsPresent(file, g) && c < g.width && m < 8 && p < 8
    ensures HasBit(BandByte(file, g, b, c, m + 1), p) <==>
            HasBit(BandByte(file, g, b, c, m), p) ||
            (p == m && 8 * b + m < g.height && PixelSet(file, g, 8 * b + m, c))
  {
    if 8 * b + m < g.height {
      OrMaybeBit(BandByte(file, g, b, c, m), PixelSet(file, g, 8 * b + m, c), m, p);
    }
  }

  /** OR-ing in bit m when a condition holds sets bit m exactly when that condition holds. */
  lemma OrMaybeBit(a: bv8, on: bool, m: nat, p: nat)
    requires m < 8 && p < 8
    ensures HasBit(a | (if on then BitOf(m) else 0), p) <==> HasBit(a, p) || (p == m && on)
  {
    OrBit(a, if on then BitOf(m) else 0, p);
    if on {
      BitDistinct(p, m);
    } else {
      ZeroHasNoBit(p);
    }
  }

  /** The rows of band b that exist: eight, except in a last band the height cuts short. */
  function RowsInBand(g: Geometry, b: nat): (m: nat)
    ensures m <= 8
  {
    if g.height <= 8 * b then 0 else if g.height - 8 * b >= 8 then 8 else g.height - 8 * b
  }

  /** One band of the decoded image: its byte for every column, left to right. */
  function BandBytes(file: seq<bv8>, g: Geometry, b: nat): (band: seq<bv8>)
    requires RowsPresent(file, g)
    ensures |band| == g.width
  {
    seq(g.width, c requires 0 <= c < g.width => BandByte(file, g, b, c, RowsInBand(g, b)))
  }

  /** The first k bands, top to bottom. */
  function Bands(file: seq<bv8>, g: Geometry, k: nat): (bands: seq<bv8>)
    requires RowsPresent(file, g)
    ensures |bands| == k * g.width
  {
    if k == 0 then []
    else
      assert (k - 1) * g.width + g.width == k * g.width;
      Bands(file, g, k - 1) + BandBytes(file, g, k - 1)
  }

  /** The decoded vertical image: all ceil(height / 8) bands. */
  function VerticalImage(file: seq<bv8>, g: Geometry): (image: seq<bv8>)
    requires RowsPresent(file, g)
    ensures |image| == VerticalSize(g)
  {
    Bands(file, g, CeilDiv8(g.height))
  }

  /** Band b, column c of the first k bands sits at b * width + c. */
  lemma {:induction false} BandsAt(file: seq<bv8>, g: Geometry, k: nat, b: nat, c: nat)
    requires RowsPresent(file, g) && b < k && c < g.width
    ensures GridIndex(g.width, b, c) < |Bands(file, g, k)|
    ensures Bands(file, g, k)[GridIndex(g.width, b, c)] == BandByte(file, g, b, c, RowsInBand(g, b))
    decreases k
  {
    GridIndexBound(g.width, k, b, c);
    var front, last := Bands(file, g, k - 1), BandBytes(file, g, k - 1);
    assert Bands(file, g, k) == front + last;
    var n := GridIndex(g.width, b, c);
    if b < k - 1 {
      BandsAt(file, g, k - 1, b, c);
      ConcatFront(front, last, n);
    } else {
      ConcatBack(front, last, c);
      assert n == |front| + c;
    }
  }

  /** Output index band * width + column stays inside the width * ceil(height / 8) buffer. */
  lemma BandFits(g: Geometry, b: nat, c: nat)
    requires 0 <= g.height && 8 * b < g.height && c < g.width
    ensures b < CeilDiv8(g.height)
    ensures GridIndex(g.width, b, c) < VerticalSize(g)
  {
    GridIndexBound(g.width, CeilDiv8(g.height), b, c);
  }

  /**
   * The layout promise: bit p of output byte band * width + column is set
   * exactly when row 8 * band + p exists and its pixel in that column is set.
   */
  lemma VerticalBit(file: seq<bv8>, g: Geometry, b: nat, c: nat, p: nat)
    requires RowsPresent(file, g) && b < CeilDiv8(g.height) && c < g.width && p < 8
    ensures GridIndex(g.width, b, c) < VerticalSize(g)
    ensures HasBit(VerticalImage(file, g)[GridIndex(g.width, b, c)], p) <==>
            8 * b + p < g.height && PixelSet(file, g, 8 * b + p, c)
  {
    BandsAt(file, g, CeilDiv8(g.height), b, c);
    BandByteBit(file, g, b, c, RowsInBand(g, b), p);
  }

  /** Each pixel (r, c) lands at bit r % 8 of byte (r / 8) * width + c. */
  lemma VerticalPixel(file: seq<bv8>, g: Geometry, r: nat, c: nat)
    requires RowsPresent(file, g) && r < g.height && c < g.width
    ensures GridIndex(g.width, r / 8, c) < VerticalSize(g)
    ensures HasBit(VerticalImage(file, g)[GridIndex(g.width, r / 8, c)], r % 8) <==> PixelSet(file, g, r, c)
  {
    BandFits(g, r / 8, c);
    VerticalBit(file, g, r / 8, c, r % 8);
  }

  /** In the last band, the bits for rows below the image stay zero. */
  lemma VerticalUnusedBitsZero(file: seq<bv8>, g: Geometry, b: nat, c: nat, p: nat)
    requires RowsPresent(file, g) && b < CeilDiv8(g.height) && c < g.width && p < 8
    requires g.height <= 8 * b + p
    ensures GridIndex(g.width, b, c) < VerticalSize(g)
    ensures !HasBit(VerticalImage(file, g)[GridIndex(g.width, b, c)], p)
  {
    VerticalBit(file, g, b, c, p);
  }

  /**
   * Only pixel bits are read: two files whose pixels agree decode to the same
   * image, whatever their headers, padding bytes or padding bits hold.
   */
  lemma VerticalReadsOnlyPixels(file1: seq<bv8>, file2: seq<bv8>, g: Geometry)
    requires RowsPresent(file1, g) && RowsPresent(file2, g)
    requires forall r: nat, c: nat :: r < g.height && c < g.width ==>
               (PixelSet(file1, g, r, c) <==> PixelSet(file2, g, r, c))
    ensures VerticalImage(file1, g) == VerticalImage(file2, g)
  {
    var image1, image2 := VerticalImage(file1, g), VerticalImage(file2, g);
    forall n | 0 <= n < VerticalSize(g)
      ensures image1[n] == image2[n]
    {
      var b, c := GridCell(g.width, CeilDiv8(g.height), n);
      forall p | 0 <= p < 8
        ensures HasBit(image1[n], p) == HasBit(image2[n], p)
      {
        VerticalBit(file1, g, b, c, p);
        VerticalBit(file2, g, b, c, p);
      }
      SameBitsSameByte(image1[n], image2[n]);
    }
  }

  /**
   * How many rows of band b have been merged into column c once rows 0 .. i-1
   * are done and row i has been merged up to (not including) column col.
   */
  function RowsMerged(b: nat, c: nat, i: nat, col: nat): (m: nat)
    ensures m <= 8
  {
    var t := i - 8 * b + (if c < col then 1 else 0);
    if t < 0 then 0 else if t > 8 then 8 else t
  }

  /** Band b of the buffer part-way through the decoding loop. */
  function PartialBand(file: seq<bv8>, g: Geometry, b: nat, i: nat, col: nat): (band: seq<bv8>)
    requires RowsPresent(file, g)
    ensures |band| == g.width
  {
    seq(g.width, c requires 0 <= c < g.width => BandByte(file, g, b, c, RowsMerged(b, c, i, col)))
  }

  /** The first k bands of the buffer part-way through the decoding loop. */
  function PartialBands(file: seq<bv8>, g: Geometry, k: nat, i: nat, col: nat): (bands: seq<bv8>)
    requires RowsPresent(file, g)
    ensures |bands| == k * g.width
  {
    if k == 0 then []
    else
      assert (k - 1) * g.width + g.width == k * g.width;
      PartialBands(file, g, k - 1, i, col) + PartialBand(file, g, k - 1, i, col)
  }

  /**
   * The whole buffer once rows 0 .. i-1 have been decoded and row i has been
   * decoded up to column col.
   */
  function PartialImage(file: seq<bv8>, g: Geometry, i: nat, col: nat): (image: seq<bv8>)
    requires RowsPresent(file, g)
    ensures |image| == VerticalSize(g)
  {
    PartialBands(file, g, CeilDiv8(g.height), i, col)
  }

  lemma {:induction false} PartialBandsAt(file: seq<bv8>, g: Geometry, k: nat, i: nat, col: nat, b: nat, c: nat)
    requires RowsPresent(file, g) && b < k && c < g.width
    ensures GridIndex(g.width, b, c) < |PartialBands(file, g, k, i, col)|
    ensures PartialBands(file, g, k, i, col)[GridIndex(g.width, b, c)] ==
            BandByte(file, g, b, c, RowsMerged(b, c, i, col))
    decreases k
  {
    GridIndexBound(g.width, k, b, c);
    var front, last := PartialBands(file, g, k - 1, i, col), PartialBand(file, g, k - 1, i, col);
    assert PartialBands(file, g, k, i, col) == front + last;
    var n := GridIndex(g.width, b, c);
    if b < k - 1 {
      PartialBandsAt(file, g, k - 1, i, col, b, c);
      ConcatFront(front, last, n);
    } else {
      ConcatBack(front, last, c);
      assert n == |front| + c;
    }
  }

  /** Band b, column c of the buffer part-way through the loop. */
  lemma PartialAt(file: seq<bv8>, g: Geometry, i: nat, col: nat, b: nat, c: nat)
    requires RowsPresent(file, g) && b < CeilDiv8(g.height) && c < g.width
    ensures GridIndex(g.width, b, c) < VerticalSize(g)
    ensures PartialImage(file, g, i, col)[GridIndex(g.width, b, c)] ==
            BandByte(file, g, b, c, RowsMerged(b, c, i, col))
  {
    PartialBandsAt(file, g, CeilDiv8(g.height), i, col, b, c);
  }

  /** Before the first row, the buffer is the zeroed one calloc returns. */
  lemma VerticalStart(file: seq<bv8>, g: Geometry)
    requires RowsPresent(file, g)
    ensures forall n :: 0 <= n < VerticalSize(g) ==> PartialImage(file, g, 0, 0)[n] == 0
  {
    forall n | 0 <= n < VerticalSize(g)
      ensures PartialImage(file, g, 0, 0)[n] == 0
    {
      var b, c := GridCell(g.width, CeilDiv8(g.height), n);
      PartialAt(file, g, 0, 0, b, c);
    }
  }

  /** Merging pixel (i, col) into its byte advances the buffer by one column. */
  lemma VerticalStep(file: seq<bv8>, g: Geometry, i: nat, col: nat)
    requires RowsPresent(file, g) && i < g.height && col < g.width
    ensures GridIndex(g.width, i / 8, col) < VerticalSize(g)
    ensures PartialImage(file, g, i, col + 1) ==
            PartialImage(file, g, i, col)[GridIndex(g.width, i / 8, col) :=
              PartialImage(file, g, i, col)[GridIndex(g.width, i / 8, col)] | PixelContribution(file, g, i, col)]
  {
    var b0 := i / 8;
    var n0 := GridIndex(g.width, b0, col);
    BandFits(g, b0, col);
    var before, after := PartialImage(file, g, i, col), PartialImage(file, g, i, col + 1);
    var s' := before[n0 := before[n0] | PixelContribution(file, g, i, col)];
    forall n | 0 <= n < VerticalSize(g)
      ensures after[n] == s'[n]
    {
      var b, c := GridCell(g.width, CeilDiv8(g.height), n);
      PartialAt(file, g, i, col, b, c);
      PartialAt(file, g, i, col + 1, b, c);
      if b == b0 && c == col {
        CursorMerged(file, g, i, col);
      } else {
        if n == n0 {
          GridIndexInjective(g.width, b, c, b0, col);
        }
        MergedElsewhere(b, c, i, col);
      }
    }
  }

  /** The cursor's byte, with row i's pixel ORed in, has one more row of its band merged. */
  lemma CursorMerged(file: seq<bv8>, g: Geometry, i: nat, col: nat)
    requires RowsPresent(file, g) && i < g.height && col < g.width
    ensures BandByte(file, g, i / 8, col, RowsMerged(i / 8, col, i, col)) | PixelContribution(file, g, i, col) ==
            BandByte(file, g, i / 8, col, RowsMerged(i / 8, col, i, col + 1))
  {
    MergedAtCursor(i, col);
    assert 8 * (i / 8) + (i % 8 + 1) - 1 == i;
    assert (i % 8 + 1) - 1 == i % 8;
  }

  /** The cursor's byte has the rows of its band above row i merged, and then row i. */
  lemma MergedAtCursor(i: nat, col: nat)
    ensures RowsMerged(i / 8, col, i, col) == i % 8
    ensures RowsMerged(i / 8, col, i, col + 1) == i % 8 + 1
  {
  }

  /** Every byte other than the cursor's keeps its count of merged rows. */
  lemma MergedElsewhere(b: nat, c: nat, i: nat, col: nat)
    requires b != i / 8 || c != col
    ensures RowsMerged(b, c, i, col) == RowsMerged(b, c, i, col + 1)
  {
  }

  /** The loop's test of currentRow[j] against 0x80 >> k reads pixel (i, 8 * j + k). */
  lemma RowMaskIsPixel(file: seq<bv8>, g: Geometry, i: nat, j: nat, k: nat, rowByte: bv8)
    requires RowsPresent(file, g) && i < g.height && k < 8 && 8 * j + k < g.width
    requires j < CeilDiv8(g.width) && rowByte == RowByte(file, g, i, j)
    ensures (if rowByte & (0x80 >> k) != 0 then (1 as bv8) << (i % 8) else 0) ==
            PixelContribution(file, g, i, 8 * j + k)
  {
    BandPosition(j, k);
    assert rowByte == RowByte(file, g, i, (8 * j + k) / 8);
    HighBitShiftedRight(k);
    OneShiftedLeft(i % 8);
  }

  /** Finishing row i (every column merged) is the state before row i + 1. */
  lemma VerticalRowDone(file: seq<bv8>, g: Geometry, i: nat)
    requires RowsPresent(file, g) && i < g.height
    ensures PartialImage(file, g, i, g.width) == PartialImage(file, g, i + 1, 0)
  {
    var before, after := PartialImage(file, g, i, g.width), PartialImage(file, g, i + 1, 0);
    forall n | 0 <= n < VerticalSize(g)
      ensures before[n] == after[n]
    {
      var b, c := GridCell(g.width, CeilDiv8(g.height), n);
      PartialAt(file, g, i, g.width, b, c);
      PartialAt(file, g, i + 1, 0, b, c);
      assert RowsMerged(b, c, i, g.width) == RowsMerged(b, c, i + 1, 0);
    }
  }

  /** After the last row the buffer holds the decoded image. */
  lemma VerticalEnd(file: seq<bv8>, g: Geometry)
    requires RowsPresent(file, g)
    ensures PartialImage(file, g, g.height as nat, 0) == VerticalImage(file, g)
  {
    var done, image := PartialImage(file, g, g.height as nat, 0), VerticalImage(file, g);
    forall n | 0 <= n < VerticalSize(g)
      ensures done[n] == image[n]
    {
      var b, c := GridCell(g.width, CeilDiv8(g.height), n);
      PartialAt(file, g, g.height as nat, 0, b, c);
      BandsAt(file, g, CeilDiv8(g.height), b, c);
      assert RowsMerged(b, c, g.height as nat, 0) == RowsInBand(g, b);
    }
  }

  /**
   * parseVBMPImage: walks the stored rows top to bottom, and ORs each pixel
   * of row i, column 8 * j + k, into bit i % 8 of byte (i / 8) * width + 8 * j + k
   * of the zero-initialised buffer; the inner loop stops at the image width,
   * so padding is never read. The buffer's size bounds the uint32 output
   * index below 2^32.
   */
  method ParseVertical(file: seq<bv8>, g: Geometry, decoded: array<bv8>)
    requires RowsPresent(file, g) && RowPointersFit(g)
    requires decoded.Length == VerticalSize(g) <= TwoTo32
    requires forall n :: 0 <= n < decoded.Length ==> decoded[n] == 0
    modifies decoded
    ensures decoded[..] == VerticalImage(file, g)
  {
    var height := g.height as nat;
    VerticalStart(file, g);
    assert decoded[..] == PartialImage(file, g, 0, 0);
    var i := 0;
    while i < height
      invariant 0 <= i <= height
      invariant decoded[..] == PartialImage(file, g, i, 0)
    {
      MergeRowVertical(file, g, i, decoded);
      i := i + 1;
    }
    VerticalEnd(file, g);
  }

  /**
   * The body of parseVBMPImage's row loop: row i's stride is read with fread
   * from its row pointer, and every pixel of the row is ORed into bit i % 8
   * of its column's byte.
   */
  method MergeRowVertical(file: seq<bv8>, g: Geometry, i: nat, decoded: array<bv8>)
    requires RowsPresent(file, g) && RowPointersFit(g) && i < g.height
    requires decoded[..] == PartialImage(file, g, i, 0)
    modifies decoded
    ensures decoded[..] == PartialImage(file, g, i + 1, 0)
  {
    var rowPointer := RowOffset(g, i);
    RowPointerFits(g, i);
    var currentRow := Fread(file, rowPointer, RowLength(g.width));
    var width := g.width;
    var j := 0;
    while j < CeilDiv8(width)
      invariant 0 <= j <= CeilDiv8(width)
      invariant decoded[..] == PartialImage(file, g, i, if 8 * j < width then 8 * j else width)
    {
      var k := 0;
      while k < 8
        invariant 0 <= k <= 8 && 8 * j + k <= width
        invariant decoded[..] == PartialImage(file, g, i, 8 * j + k)
      {
        if k + j * 8 >= width {
          break;
        }
        FreadRow(file, g, i, j);
        MergePixel(file, g, i, j, k, currentRow[j], decoded);
        k := k + 1;
      }
      j := j + 1;
    }
    VerticalRowDone(file, g, i);
  }

  /**
   * One step of the inner loop: pixel (i, 8 * j + k), the bit of rowByte
   * (currentRow[j], byte j of row i) under mask 0x80 >> k, is ORed into bit
   * i % 8 of its output byte.
   */
  method MergePixel(file: seq<bv8>, g: Geometry, i: nat, j: nat, k: nat, rowByte: bv8, decoded: array<bv8>)
    requires RowsPresent(file, g) && i < g.height && k < 8 && 8 * j + k < g.width
    requires j < CeilDiv8(g.width) && rowByte == RowByte(file, g, i, j)
    requires decoded[..] == PartialImage(file, g, i, 8 * j + k)
    modifies decoded
    ensures decoded[..] == PartialImage(file, g, i, 8 * j + k + 1)
  {
    var n := GridIndex(g.width, i / 8, 8 * j + k);
    RowMaskIsPixel(file, g, i, j, k, rowByte);
    VerticalStep(file, g, i, 8 * j + k);
    decoded[n] := decoded[n] | (if rowByte & (0x80 >> k) != 0 then (1 as bv8) << (i % 8) else 0);
  }
}
