/**
 * The decoder's driver: validate both headers, allocate the zeroed output
 * buffer for the chosen orientation, and dispatch to the vertical ('v') or
 * horizontal (any other letter) packing.
 */
module BmpDecode {
  import opened BmpHeaders
  import opened BmpRows
  import opened ByteBits
  import opened VerticalPacking
  import opened HorizontalPacking

  /** The orientation letter that selects the vertical layout; any other selects the horizontal one. */
  const VerticalOrientation: char := 'v'

  /** The calloc size: width * ceil(height / 8) for 'v', height * ceil(width / 8) otherwise. */
  function BufferSize(g: Geometry, orientation: char): (size: nat)
    requires 0 <= g.height
    ensures g.width * g.height <= 8 * size
    ensures size == 0 <==> g.width == 0 || g.height == 0
  {
    BufferHoldsPixels(g, orientation);
    if orientation == VerticalOrientation then VerticalSize(g) else HorizontalSize(g)
  }

  /** Every pixel has a bit in the buffer, and the buffer is empty only for an empty image. */
  lemma BufferHoldsPixels(g: Geometry, orientation: char)
    requires 0 <= g.height
    ensures var size := if orientation == VerticalOrientation then VerticalSize(g) else HorizontalSize(g);
            g.width * g.height <= 8 * size && (size == 0 <==> g.width == 0 || g.height == 0)
  {
    var w, h := g.width, g.height as nat;
    MulMonotone(w, h, 8 * CeilDiv8(h));
    MulMonotone(h, w, 8 * CeilDiv8(w));
    assert w * (8 * CeilDiv8(h)) == 8 * VerticalSize(g);
    assert h * (8 * CeilDiv8(w)) == 8 * HorizontalSize(g);
    assert w * h == h * w;
    if 0 < w && 0 < h {
      MulMonotone(w, 1, CeilDiv8(h));
      MulMonotone(h, 1, CeilDiv8(w));
    }
  }

  /**
   * The 32-bit arithmetic of the chosen orientation holds: every row pointer
   * is a valid uint32 offset and the uint32 output index stays below 2^32.
   * The other orientation's buffer size plays no part.
   */
  predicate Fits(g: Geometry, orientation: char) {
    RowPointersFit(g) && BufferSize(g, orientation) <= TwoTo32
  }

  /** The image parseBMPImage leaves in the buffer for the chosen orientation. */
  function DecodedImage(file: seq<bv8>, g: Geometry, orientation: char): seq<bv8>
    requires RowsPresent(file, g)
  {
    if orientation == VerticalOrientation then VerticalImage(file, g) else HorizontalImage(file, g)
  }

  /**
   * The buffer allocated for an orientation holds exactly the image of that
   * orientation, and the geometry fits exactly when the row pointers do and
   * that image has at most 2^32 bytes.
   */
  lemma BufferHoldsImage(file: seq<bv8>, g: Geometry, orientation: char)
    requires RowsPresent(file, g)
    ensures |DecodedImage(file, g, orientation)| == BufferSize(g, orientation)
    ensures Fits(g, orientation) <==> RowPointersFit(g) && |DecodedImage(file, g, orientation)| <= TwoTo32
  {
  }

  /**
   * parseBMPImage: 'v' selects the vertical packing, every other letter the
   * horizontal one.
   */
  method ParseImage(file: seq<bv8>, g: Geometry, orientation: char, decoded: array<bv8>)
    requires RowsPresent(file, g) && Fits(g, orientation)
    requires decoded.Length == BufferSize(g, orientation)
    requires forall n :: 0 <= n < decoded.Length ==> decoded[n] == 0
    modifies decoded
    ensures decoded[..] == DecodedImage(file, g, orientation)
  {
    if orientation == VerticalOrientation {
      ParseVertical(file, g, decoded);
    } else {
      ParseHorizontal(file, g, decoded);
    }
  }

  /**
   * What decoding a file yields: the first failing header check, then the
   * geometry checks, then the packed image.
   */
  function DecodeResult(file: seq<bv8>, orientation: char): Result<seq<bv8>> {
    match ObtainFileHeader(file)
    case Err(e) => Err(e)
    case Ok(fh) =>
      match ObtainImageHeader(file)
      case Err(e) => Err(e)
      case Ok(ih) => ImageResult(file, GeometryOf(fh, ih), orientation)
  }

  /** The geometry checks and the packed image, once both headers are accepted. */
  function ImageResult(file: seq<bv8>, g: Geometry, orientation: char): (r: Result<seq<bv8>>)
    ensures r.Ok? <==> Fits(g, orientation) && RowsPresent(file, g)
    ensures r.Ok? ==> r.value == DecodedImage(file, g, orientation)
    ensures r.Err? ==> r.error == (if Fits(g, orientation) then Truncated else UnsupportedGeometry)
  {
    if !Fits(g, orientation) then Err(UnsupportedGeometry)
    else if !RowsPresent(file, g) then Err(Truncated)
    else Ok(DecodedImage(file, g, orientation))
  }

  /**
   * The decoder, from the file header check to the filled buffer: both
   * headers are validated, the zeroed buffer is allocated, and the chosen
   * packing fills it.
   */
  method Decode(file: seq<bv8>, orientation: char) returns (r: Result<seq<bv8>>)
    ensures r == DecodeResult(file, orientation)
  {
    var fileHeader := ObtainFileHeader(file);
    if fileHeader.Err? {
      return Err(fileHeader.error);
    }
    var imageHeader := ObtainImageHeader(file);
    if imageHeader.Err? {
      return Err(imageHeader.error);
    }
    var g := GeometryOf(fileHeader.value, imageHeader.value);
    r := DecodeGeometry(file, g, orientation);
  }

  /** Allocation and parsing for an accepted pair of headers. */
  method DecodeGeometry(file: seq<bv8>, g: Geometry, orientation: char) returns (r: Result<seq<bv8>>)
    ensures r == ImageResult(file, g, orientation)
  {
    if !Fits(g, orientation) {
      return Err(UnsupportedGeometry);
    }
    if !RowsPresent(file, g) {
      return Err(Truncated);
    }
    var decoded := new bv8[BufferSize(g, orientation)](_ => 0);
    ParseImage(file, g, orientation, decoded);
    return Ok(decoded[..]);
  }

  /**
   * The signature decides first: a file whose first two bytes are not "BM"
   * is refused as not a bitmap, whatever follows.
   */
  lemma SignatureDecidesFirst(file: seq<bv8>, orientation: char)
    requires 2 <= |file| && (file[0] != SignatureB || file[1] != SignatureM)
    ensures DecodeResult(file, orientation) == Err(NotBitmap)
  {
  }

  /**
   * A file is decoded exactly when it is a bitmap without a colour table or
   * compression, its geometry fits the chosen orientation and every pixel byte
   * the loops read is present.
   */
  lemma DecodeSucceeds(file: seq<bv8>, orientation: char)
    ensures DecodeResult(file, orientation).Ok? <==>
            HeadersEnd <= |file| && file[0] == SignatureB && file[1] == SignatureM &&
            Le32At(file, 46) == 0 && Le32At(file, 30) == 0 &&
            Fits(GeometryOf(ReadFileHeader(file), ReadImageHeader(file)), orientation) &&
            RowsPresent(file, GeometryOf(ReadFileHeader(file), ReadImageHeader(file)))
  {
  }

  /**
   * An image without pixels decodes to an empty buffer whatever the file
   * holds past its headers: no row is read, so a pixel array offset past the
   * end of the file does not matter.
   */
  lemma EmptyImageDecodes(file: seq<bv8>, g: Geometry, orientation: char)
    requires RowPointersFit(g) && (g.height == 0 || g.width == 0)
    ensures ImageResult(file, g, orientation) == Ok([])
  {
  }

  /**
   * Only the chosen orientation's buffer is bounded: an image 2^31 + 8 pixels
   * wide and 9 rows high fits the horizontal layout (9 * (2^28 + 1) bytes)
   * but not the vertical one (2 * (2^31 + 8) bytes).
   */
  lemma WideImageFitsHorizontally()
    ensures Fits(Geometry(54, 0x8000_0008, 9), 'h')
    ensures !Fits(Geometry(54, 0x8000_0008, 9), VerticalOrientation)
  {
  }

  /**
   * The two layouts carry the same pixels: pixel (r, c) is bit r % 8 of
   * vertical byte (r / 8) * width + c exactly when it is bit 7 - c % 8 of
   * horizontal byte r * ceil(width / 8) + c / 8.
   */
  lemma LayoutsAgree(file: seq<bv8>, g: Geometry, r: nat, c: nat)
    requires RowsPresent(file, g) && r < g.height && c < g.width
    ensures GridIndex(g.width, r / 8, c) < VerticalSize(g)
    ensures c / 8 < BytesPerRow(g) && GridIndex(BytesPerRow(g), r, c / 8) < HorizontalSize(g)
    ensures HasBit(VerticalImage(file, g)[GridIndex(g.width, r / 8, c)], r % 8) <==>
            HasBit(HorizontalImage(file, g)[GridIndex(BytesPerRow(g), r, c / 8)], 7 - c % 8)
  {
    VerticalPixel(file, g, r, c);
    HorizontalPixel(file, g, r, c);
  }
}
