/**
 * The two fixed-layout headers at the start of a Windows BMP file
 * (BITMAPFILEHEADER, 14 bytes at offset 0, and BITMAPINFOHEADER, 40 bytes at
 * offset 14), read little-endian from the file's bytes, and the two checks
 * the decoder makes on them before it touches any pixel.
 *
 * Header fields are kept as the 16- and 32-bit patterns the packed C structs
 * hold; the decoder converts the ones it computes with to numbers.
 */
module BmpHeaders {

  /** Why a file is turned away. */
  datatype BmpError =
    | NotBitmap                       // the first two bytes are not "BM"
    | ColorMapEntries(count: bv32)    // biClrUsed > 0: a palette is declared
    | Compressed                      // biCompression != 0
    | Truncated                       // the file ends before the bytes a read needs
    | UnsupportedGeometry             // a negative height, or sizes the 32-bit arithmetic cannot hold

  datatype Result<T> = Ok(value: T) | Err(error: BmpError)

  const FileHeaderSize: nat := 14
  const ImageHeaderOffset: nat := 14
  const ImageHeaderSize: nat := 40
  /** First byte after both headers. */
  const HeadersEnd: nat := 54

  const SignatureB: bv8 := 0x42   // 'B'
  const SignatureM: bv8 := 0x4D   // 'M'

  // ---------------------------------------------------------------------------
  // Little-endian fields
  // ---------------------------------------------------------------------------

  /** The 16-bit little-endian field stored at s[off], s[off+1]. */
  function Le16At(s: seq<bv8>, off: nat): bv16
    requires off + 2 <= |s|
  {
    (s[off] as bv16) | ((s[off + 1] as bv16) << 8)
  }

  /** The 32-bit little-endian field stored at s[off..off+4]. */
  function Le32At(s: seq<bv8>, off: nat): bv32
    requires off + 4 <= |s|
  {
    (s[off] as bv32) | ((s[off + 1] as bv32) << 8) |
    ((s[off + 2] as bv32) << 16) | ((s[off + 3] as bv32) << 24)
  }

  /** Little-endian bytes of a 16-bit field. */
  function Le16Bytes(x: bv16): (s: seq<bv8>)
    ensures |s| == 2
  {
    [(x & 0xFF) as bv8, (x >> 8) as bv8]
  }

  /** Little-endian bytes of a 32-bit field. */
  function Le32Bytes(x: bv32): (s: seq<bv8>)
    ensures |s| == 4
  {
    [(x & 0xFF) as bv8, ((x >> 8) & 0xFF) as bv8, ((x >> 16) & 0xFF) as bv8, (x >> 24) as bv8]
  }

  /** s holds the bytes t starting at offset off. */
  predicate Holds(s: seq<bv8>, off: nat, t: seq<bv8>) {
    off + |t| <= |s| && forall k :: 0 <= k < |t| ==> s[off + k] == t[k]
  }

  lemma HoldsSplit(s: seq<bv8>, off: nat, a: seq<bv8>, b: seq<bv8>)
    requires Holds(s, off, a + b)
    ensures Holds(s, off, a) && Holds(s, off + |a|, b)
  {
    forall k | 0 <= k < |a| ensures s[off + k] == a[k] { assert (a + b)[k] == a[k]; }
    forall k | 0 <= k < |b| ensures s[off + |a| + k] == b[k] { assert (a + b)[|a| + k] == b[k]; }
  }

  lemma HoldsJoin(s: seq<bv8>, off: nat, a: seq<bv8>, b: seq<bv8>)
    requires Holds(s, off, a) && Holds(s, off + |a|, b)
    ensures Holds(s, off, a + b)
  {
    forall k | 0 <= k < |a + b| ensures s[off + k] == (a + b)[k] {
      if k >= |a| { assert s[off + |a| + (k - |a|)] == b[k - |a|]; }
    }
  }

  lemma HoldsInside(p: seq<bv8>, t: seq<bv8>, r: seq<bv8>)
    ensures Holds(p + t + r, |p|, t)
  {
    forall k | 0 <= k < |t| ensures (p + t + r)[|p| + k] == t[k] {
      assert (p + t + r)[|p| + k] == (p + t)[|p| + k];
    }
  }

  lemma HoldsSlice(s: seq<bv8>, off: nat, n: nat)
    requires off + n <= |s|
    ensures Holds(s, off, s[off..off + n])
  {
  }

  lemma HoldsWhole(s: seq<bv8>, off: nat, t: seq<bv8>)
    requires Holds(s, off, t)
    ensures s[off..off + |t|] == t
  {
  }

  /** Reading a field where its bytes were written gives the value back. */
  lemma Le32ReadWritten(s: seq<bv8>, off: nat, x: bv32)
    requires Holds(s, off, Le32Bytes(x))
    ensures Le32At(s, off) == x
  {
    var b := Le32Bytes(x);
    assert s[off] == b[0] && s[off + 1] == b[1] && s[off + 2] == b[2] && s[off + 3] == b[3];
  }

  lemma Le16ReadWritten(s: seq<bv8>, off: nat, x: bv16)
    requires Holds(s, off, Le16Bytes(x))
    ensures Le16At(s, off) == x
  {
    var b := Le16Bytes(x);
    assert s[off] == b[0] && s[off + 1] == b[1];
  }

  /** Writing a field that was read gives the bytes back. */
  lemma Le32WrittenRead(s: seq<bv8>, off: nat)
    requires off + 4 <= |s|
    ensures Holds(s, off, Le32Bytes(Le32At(s, off)))
  {
  }

  lemma Le16WrittenRead(s: seq<bv8>, off: nat)
    requires off + 2 <= |s|
    ensures Holds(s, off, Le16Bytes(Le16At(s, off)))
  {
  }

  /** A 32-bit pattern read as a two's-complement int32 (biHeight). */
  function Int32Of(x: bv32): (i: int)
    ensures -0x8000_0000 <= i < 0x8000_0000
    ensures i == x as int || i == x as int - 0x1_0000_0000
  {
    var u := x as int;
    if u < 0x8000_0000 then u else u - 0x1_0000_0000
  }

  // ---------------------------------------------------------------------------
  // BITMAPFILEHEADER
  // ---------------------------------------------------------------------------

  datatype FileHeader = FileHeader(
    signature: seq<bv8>,   // bfType, 2 bytes
    fileSize: bv32,        // bfSize
    reserved: bv32,        // bfReserved
    offBits: bv32)         // bfOffBits: file offset of the pixel array

  /** The packed 14-byte file header at offset 0. */
  function ReadFileHeader(file: seq<bv8>): (h: FileHeader)
    requires FileHeaderSize <= |file|
    ensures |h.signature| == 2
  {
    FileHeader(file[0..2], Le32At(file, 2), Le32At(file, 6), Le32At(file, 10))
  }

  function EncodeFileHeader(h: FileHeader): (s: seq<bv8>)
    requires |h.signature| == 2
    ensures |s| == FileHeaderSize
  {
    h.signature + (Le32Bytes(h.fileSize) + (Le32Bytes(h.reserved) + Le32Bytes(h.offBits)))
  }

  /** Reading an encoded file header returns it, whatever follows it. */
  lemma FileHeaderRoundTrip(h: FileHeader, rest: seq<bv8>)
    requires |h.signature| == 2
    ensures ReadFileHeader(EncodeFileHeader(h) + rest) == h
  {
    HoldsInside([], EncodeFileHeader(h), rest);
    assert [] + EncodeFileHeader(h) + rest == EncodeFileHeader(h) + rest;
    ReadEncodedFileHeader(EncodeFileHeader(h) + rest, h);
  }

  lemma ReadEncodedFileHeader(s: seq<bv8>, h: FileHeader)
    requires |h.signature| == 2 && Holds(s, 0, EncodeFileHeader(h))
    ensures ReadFileHeader(s) == h
  {
    var t := Le32Bytes(h.fileSize) + (Le32Bytes(h.reserved) + Le32Bytes(h.offBits));
    assert Holds(s, 2, t) && s[0..2] == h.signature by {
      HoldsSplit(s, 0, h.signature, t);
      HoldsWhole(s, 0, h.signature);
    }
    assert Holds(s, 6, Le32Bytes(h.reserved) + Le32Bytes(h.offBits)) && Le32At(s, 2) == h.fileSize by {
      HoldsSplit(s, 2, Le32Bytes(h.fileSize), Le32Bytes(h.reserved) + Le32Bytes(h.offBits));
      Le32ReadWritten(s, 2, h.fileSize);
    }
    assert Le32At(s, 6) == h.reserved && Le32At(s, 10) == h.offBits by {
      HoldsSplit(s, 6, Le32Bytes(h.reserved), Le32Bytes(h.offBits));
      Le32ReadWritten(s, 6, h.reserved);
      Le32ReadWritten(s, 10, h.offBits);
    }
  }

  /** The file header is a lossless view of the first 14 bytes. */
  lemma FileHeaderBytesRoundTrip(file: seq<bv8>)
    requires FileHeaderSize <= |file|
    ensures EncodeFileHeader(ReadFileHeader(file)) == file[..FileHeaderSize]
  {
    var h := ReadFileHeader(file);
    HoldsSlice(file, 0, 2);
    Le32WrittenRead(file, 2);
    Le32WrittenRead(file, 6);
    Le32WrittenRead(file, 10);
    HoldsJoin(file, 6, Le32Bytes(h.reserved), Le32Bytes(h.offBits));
    HoldsJoin(file, 2, Le32Bytes(h.fileSize), Le32Bytes(h.reserved) + Le32Bytes(h.offBits));
    HoldsJoin(file, 0, h.signature, Le32Bytes(h.fileSize) + (Le32Bytes(h.reserved) + Le32Bytes(h.offBits)));
    HoldsWhole(file, 0, EncodeFileHeader(h));
  }

  /**
   * obtainBMPFileHeader: read the file header and accept it only when its
   * signature is "BM". A file of two to thirteen bytes is judged on the two
   * bytes fread delivered: without "BM" it is not a bitmap. The file is
   * reported as truncated when it has under two bytes, or passes the
   * signature check without holding the whole 14-byte header.
   */
  function ObtainFileHeader(file: seq<bv8>): (r: Result<FileHeader>)
    ensures r.Ok? <==> FileHeaderSize <= |file| && file[0] == SignatureB && file[1] == SignatureM
    ensures r == Err(NotBitmap) <==> 2 <= |file| && (file[0] != SignatureB || file[1] != SignatureM)
    ensures r == Err(Truncated) <==>
            |file| < 2 || (|file| < FileHeaderSize && file[0] == SignatureB && file[1] == SignatureM)
    ensures r.Ok? ==> r.value.signature == [SignatureB, SignatureM] && r.value == ReadFileHeader(file)
    ensures r.Err? ==> r.error.NotBitmap? || r.error.Truncated?
  {
    if 2 <= |file| && (file[0] != SignatureB || file[1] != SignatureM) then
      Err(NotBitmap)
    else if |file| < FileHeaderSize then
      Err(Truncated)
    else
      Ok(ReadFileHeader(file))
  }

  // ---------------------------------------------------------------------------
  // BITMAPINFOHEADER
  // ---------------------------------------------------------------------------

  datatype ImageHeader = ImageHeader(
    headerSize: bv32,       // biSize
    width: bv32,            // biWidth (uint32_t in this layout)
    height: bv32,           // biHeight (int32_t: see Int32Of)
    planes: bv16,           // biPlanes
    bitCount: bv16,         // biBitCount
    compression: bv32,      // biCompression
    imageSize: bv32,        // biSizeImage
    xPelsPerMeter: bv32,    // biXPelsPerMeter
    yPelsPerMeter: bv32,    // biYPelsPerMeter
    colorsUsed: bv32,       // biClrUsed
    colorsImportant: bv32)  // biClrImportant

  /** The packed 40-byte image header at offset 14. */
  function ReadImageHeader(file: seq<bv8>): (h: ImageHeader)
    requires HeadersEnd <= |file|
  {
    ImageHeader(
      Le32At(file, 14), Le32At(file, 18), Le32At(file, 22),
      Le16At(file, 26), Le16At(file, 28), Le32At(file, 30), Le32At(file, 34),
      Le32At(file, 38), Le32At(file, 42), Le32At(file, 46), Le32At(file, 50))
  }

  function EncodeImageHeader(h: ImageHeader): (s: seq<bv8>)
    ensures |s| == ImageHeaderSize
  {
    Le32Bytes(h.headerSize) + (Le32Bytes(h.width) + (Le32Bytes(h.height) + (
    Le16Bytes(h.planes) + (Le16Bytes(h.bitCount) + (Le32Bytes(h.compression) + (
    Le32Bytes(h.imageSize) + (Le32Bytes(h.xPelsPerMeter) + (Le32Bytes(h.yPelsPerMeter) + (
    Le32Bytes(h.colorsUsed) + Le32Bytes(h.colorsImportant))))))))))
  }

  /** Reading an encoded image header at offset 14 returns it. */
  lemma ImageHeaderRoundTrip(prefix: seq<bv8>, h: ImageHeader, rest: seq<bv8>)
    requires |prefix| == ImageHeaderOffset
    ensures ReadImageHeader(prefix + EncodeImageHeader(h) + rest) == h
  {
    HoldsInside(prefix, EncodeImageHeader(h), rest);
    ReadEncodedImageHeader(prefix + EncodeImageHeader(h) + rest, h);
  }

  lemma ReadEncodedImageHeader(s: seq<bv8>, h: ImageHeader)
    requires Holds(s, ImageHeaderOffset, EncodeImageHeader(h))
    ensures ReadImageHeader(s) == h
  {
    var t0 := Le32Bytes(h.colorsUsed) + Le32Bytes(h.colorsImportant);
    var t1 := Le32Bytes(h.yPelsPerMeter) + t0;
    var t2 := Le32Bytes(h.xPelsPerMeter) + t1;
    var t3 := Le32Bytes(h.imageSize) + t2;
    var t4 := Le32Bytes(h.compression) + t3;
    var t5 := Le16Bytes(h.bitCount) + t4;
    var t6 := Le16Bytes(h.planes) + t5;
    var t7 := Le32Bytes(h.height) + t6;
    var t8 := Le32Bytes(h.width) + t7;
    PeelField32(s, 14, h.headerSize, t8);
    PeelField32(s, 18, h.width, t7);
    PeelField32(s, 22, h.height, t6);
    PeelField16(s, 26, h.planes, t5);
    PeelField16(s, 28, h.bitCount, t4);
    PeelField32(s, 30, h.compression, t3);
    PeelField32(s, 34, h.imageSize, t2);
    PeelField32(s, 38, h.xPelsPerMeter, t1);
    PeelField32(s, 42, h.yPelsPerMeter, t0);
    PeelField32(s, 46, h.colorsUsed, Le32Bytes(h.colorsImportant));
    Le32ReadWritten(s, 50, h.colorsImportant);
  }

  /** The first field of an encoding read back, and the rest of the encoding after it. */
  lemma PeelField32(s: seq<bv8>, off: nat, x: bv32, rest: seq<bv8>)
    requires Holds(s, off, Le32Bytes(x) + rest)
    ensures Le32At(s, off) == x && Holds(s, off + 4, rest)
  {
    HoldsSplit(s, off, Le32Bytes(x), rest);
    Le32ReadWritten(s, off, x);
  }

  lemma PeelField16(s: seq<bv8>, off: nat, x: bv16, rest: seq<bv8>)
    requires Holds(s, off, Le16Bytes(x) + rest)
    ensures Le16At(s, off) == x && Holds(s, off + 2, rest)
  {
    HoldsSplit(s, off, Le16Bytes(x), rest);
    Le16ReadWritten(s, off, x);
  }

  /** A field read from the file, re-encoded in front of bytes that already match, matches too. */
  lemma JoinField32(s: seq<bv8>, off: nat, rest: seq<bv8>)
    requires off + 4 <= |s| && Holds(s, off + 4, rest)
    ensures Holds(s, off, Le32Bytes(Le32At(s, off)) + rest)
  {
    Le32WrittenRead(s, off);
    HoldsJoin(s, off, Le32Bytes(Le32At(s, off)), rest);
  }

  lemma JoinField16(s: seq<bv8>, off: nat, rest: seq<bv8>)
    requires off + 2 <= |s| && Holds(s, off + 2, rest)
    ensures Holds(s, off, Le16Bytes(Le16At(s, off)) + rest)
  {
    Le16WrittenRead(s, off);
    HoldsJoin(s, off, Le16Bytes(Le16At(s, off)), rest);
  }


  /** The image header is a lossless view of bytes 14..53. */
  lemma ImageHeaderBytesRoundTrip(file: seq<bv8>)
    requires HeadersEnd <= |file|
    ensures EncodeImageHeader(ReadImageHeader(file)) == file[ImageHeaderOffset..HeadersEnd]
  {
    var t0 := Le32Bytes(Le32At(file, 46)) + Le32Bytes(Le32At(file, 50));
    var t1 := Le32Bytes(Le32At(file, 42)) + t0;
    var t2 := Le32Bytes(Le32At(file, 38)) + t1;
    var t3 := Le32Bytes(Le32At(file, 34)) + t2;
    var t4 := Le32Bytes(Le32At(file, 30)) + t3;
    var t5 := Le16Bytes(Le16At(file, 28)) + t4;
    var t6 := Le16Bytes(Le16At(file, 26)) + t5;
    var t7 := Le32Bytes(Le32At(file, 22)) + t6;
    var t8 := Le32Bytes(Le32At(file, 18)) + t7;
    Le32WrittenRead(file, 50);
    JoinField32(file, 46, Le32Bytes(Le32At(file, 50)));
    JoinField32(file, 42, t0);
    JoinField32(file, 38, t1);
    JoinField32(file, 34, t2);
    JoinField32(file, 30, t3);
    JoinField16(file, 28, t4);
    JoinField16(file, 26, t5);
    JoinField32(file, 22, t6);
    JoinField32(file, 18, t7);
    JoinField32(file, 14, t8);
    assert EncodeImageHeader(ReadImageHeader(file)) == Le32Bytes(Le32At(file, 14)) + t8;
    HoldsWhole(file, 14, EncodeImageHeader(ReadImageHeader(file)));
  }

  /**
   * obtainBMPImageHeader: read the image header and refuse a declared colour
   * table (checked first) or any compression. Width, height, planes and bit
   * count are not consulted.
   */
  function ObtainImageHeader(file: seq<bv8>): (r: Result<ImageHeader>)
    ensures r.Ok? <==> HeadersEnd <= |file| && Le32At(file, 46) == 0 && Le32At(file, 30) == 0
    ensures r.Ok? ==> r.value == ReadImageHeader(file)
    ensures r == Err(Truncated) <==> |file| < HeadersEnd
    ensures HeadersEnd <= |file| && Le32At(file, 46) != 0 ==> r == Err(ColorMapEntries(Le32At(file, 46)))
    ensures r == Err(Compressed) <==> HeadersEnd <= |file| && Le32At(file, 46) == 0 && Le32At(file, 30) != 0
  {
    if |file| < HeadersEnd then
      Err(Truncated)
    else
      var h := ReadImageHeader(file);
      if h.colorsUsed > 0 then Err(ColorMapEntries(h.colorsUsed))
      else if h.compression != 0 then Err(Compressed)
      else Ok(h)
  }

  /** A 32-bit field depends only on its own four bytes. */
  lemma Le32SameBytes(s1: seq<bv8>, s2: seq<bv8>, off: nat)
    requires off + 4 <= |s1| && off + 4 <= |s2|
    requires forall k :: off <= k < off + 4 ==> s1[k] == s2[k]
    ensures Le32At(s1, off) == Le32At(s2, off)
  {
    assert s1[off] == s2[off] && s1[off + 1] == s2[off + 1];
    assert s1[off + 2] == s2[off + 2] && s1[off + 3] == s2[off + 3];
  }

  /**
   * The image header's verdict reads only biCompression (bytes 30-33) and
   * biClrUsed (bytes 46-49): width, height, planes and bit count are not
   * consulted, so two long-enough files agreeing on those eight bytes get
   * the same verdict.
   */
  lemma ImageVerdictReadsTwoFields(file1: seq<bv8>, file2: seq<bv8>)
    requires HeadersEnd <= |file1| && HeadersEnd <= |file2|
    requires forall k :: 30 <= k < 34 || 46 <= k < 50 ==> file1[k] == file2[k]
    ensures ObtainImageHeader(file1).Ok? <==> ObtainImageHeader(file2).Ok?
    ensures ObtainImageHeader(file1).Err? ==> ObtainImageHeader(file1) == ObtainImageHeader(file2)
  {
    Le32SameBytes(file1, file2, 30);
    Le32SameBytes(file1, file2, 46);
  }

  /**
   * The file header's verdict reads only the signature: two files of at least
   * 14 bytes that start with the same two bytes get the same verdict.
   */
  lemma FileVerdictReadsSignature(file1: seq<bv8>, file2: seq<bv8>)
    requires FileHeaderSize <= |file1| && FileHeaderSize <= |file2|
    requires file1[0] == file2[0] && file1[1] == file2[1]
    ensures ObtainFileHeader(file1).Ok? <==> ObtainFileHeader(file2).Ok?
    ensures ObtainFileHeader(file1).Err? ==> ObtainFileHeader(file1) == ObtainFileHeader(file2)
  {
  }
}
