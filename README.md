# iLCD: 1-bit BMP decoder, modelled in Dafny

iLCD turns a monochrome, uncompressed Windows BMP file into a packed byte
array for small LCD modules. The model covers its decoding core in `main.c`:

- the two packed headers: BITMAPFILEHEADER, 14 bytes at offset 0, and
  BITMAPINFOHEADER, 40 bytes at offset 14. Both are read little-endian from
  the file's bytes.
- the two validations:
  - `obtainBMPFileHeader` checks for the "BM" signature;
  - `obtainBMPImageHeader` rejects a colour map (biClrUsed > 0) first, then
    any compression.
- the dispatch `parseBMPImage`: 'v' selects the vertical packing, any other
  letter the horizontal one.
- `parseVBMPImage`, the vertical (page) packing. The image is cut into bands of
  eight rows. Bit `i % 8` of byte `(i / 8) * width + column` is the pixel of
  row `i`. The packing ORs bits into a zeroed buffer.
- `parseHBMPImage`, the horizontal packing. The first `ceil(width / 8)` bytes
  of each stored row are copied to `row * ceil(width / 8)`.
- the buffer sizing of `main` (the two `calloc` calls).

Rows are stored bottom-up after `bfOffBits`. Each row is padded to a multiple
of four bytes. Inside a byte, pixels go most significant bit first.

Modules, one per concern, in dependency order:

| file | module | contents |
|---|---|---|
| `bmp_headers.dfy` | `BmpHeaders` | errors, little-endian fields, the header datatypes, their byte round trips, the two header checks |
| `bmp_bits.dfy` | `ByteBits` | single-bit masks, and their agreement with the source's `1 << p` and `0x80 >> k` |
| `bmp_rows.dfy` | `BmpRows` | row stride, the bottom-up row offsets, the pixel bit of a row byte, grid indexing |
| `bmp_vertical.dfy` | `VerticalPacking` | the vertical image, its layout lemmas, and `parseVBMPImage` as a method over an `array<bv8>` |
| `bmp_horizontal.dfy` | `HorizontalPacking` | the horizontal image, its layout lemmas, and `parseHBMPImage` as a method over an `array<bv8>` |
| `bmp_decode.dfy` | `BmpDecode` | buffer sizing, the dispatch, and the decoder from header checks to filled buffer |

Each image is defined twice:

- **A reference function.** `VerticalImage` is defined band by band, from the
  pixels. `HorizontalImage` is the rows' kept bytes, concatenated.
- **A loop method.** Each method has the C loops' structure: the same
  `fread` of each row's stride, the same `break` at the image width, and the
  same `|=` and `=` writes into the buffer. The vertical index is the
  source's `(i / 8) * width + 8 * j + k`. The horizontal copy differs in one
  detail. The source writes to `j + i * ceil(width / 8)`. The model writes to
  `j + base`, where `base` starts at 0 and grows by `ceil(width / 8)` per row,
  so `base = i * ceil(width / 8)`. Each method's postcondition is
  `decoded[..]` equal to the reference function, so the layout lemmas about
  that function describe what the loop leaves in the buffer.

The model follows the code where it does less than a careful BMP decoder would:

- `biWidth` is the `uint32_t` field of the struct, not a signed value.
- In horizontal mode the bits of a row's last byte beyond the image width are
  copied from the file, not zeroed (`HorizontalPaddingBitsCopied`). Pixels
  themselves agree between the two modes (`LayoutsAgree`).
- Neither header check consults width, height, planes or bit count. A
  zero-width or zero-height image with a non-negative height decodes to an
  empty buffer, whatever the file holds past its headers
  (`EmptyImageDecodes`). A negative height is refused (see `ImageResult`
  under "Left out").
- `fread` is not checked. A short read at the end of the file matters only
  when a byte the loops use is missing: padding bytes and rows past the end
  of the file that no loop reads do not stop decoding.

## Model

| member | source | states |
|---|---|---|
| BmpHeaders.Int32Of | main.c:20 | biHeight's 32 bits read as a two's-complement int32: in range, and congruent to the unsigned value mod 2^32 |
| BmpHeaders.ReadFileHeader | main.c:132 | the `fread` of the packed 14-byte struct at offset 0: bfType is two bytes; that it loses nothing is FileHeaderRoundTrip and FileHeaderBytesRoundTrip |
| BmpHeaders.ReadImageHeader | main.c:147 | the `fread` of the packed 40-byte struct at offset 14; that it loses nothing is ImageHeaderRoundTrip and ImageHeaderBytesRoundTrip |
| BmpHeaders.FileHeaderRoundTrip | main.c:10-15 | reading the packed 14-byte file header back from its encoding returns the same header, whatever bytes follow |
| BmpHeaders.FileHeaderBytesRoundTrip | main.c:10-15 | the file header is a lossless view of the first 14 bytes: re-encoding it gives those bytes back |
| BmpHeaders.ImageHeaderRoundTrip | main.c:17-29 | reading the packed 40-byte image header at offset 14 back from its encoding returns the same header, whatever precedes or follows it |
| BmpHeaders.ImageHeaderBytesRoundTrip | main.c:17-29 | the image header is a lossless view of bytes 14-53 |
| BmpHeaders.ObtainFileHeader | main.c:126-141 | accepted iff the header is present and the signature is "BM"; NotBitmap iff two bytes exist and are not "BM"; Truncated iff under two bytes, or signed "BM" but under 14 bytes; an accepted header is the one read from bytes 0-13 |
| BmpHeaders.FileVerdictReadsSignature | main.c:135-138 | only the two signature bytes decide the file header's verdict |
| BmpHeaders.ObtainImageHeader | main.c:143-161 | accepted iff the header is present, biClrUsed == 0 and biCompression == 0; a colour map is reported first, with its count; Compressed iff no colour map and compression != 0 |
| BmpHeaders.ImageVerdictReadsTwoFields | main.c:149-158 | only bytes 30-33 and 46-49 decide the image header's verdict; the geometry fields are not consulted |
| ByteBits.OneShiftedLeft | main.c:187 | `1 << p` is the single-bit mask for bit p |
| ByteBits.HighBitShiftedRight | main.c:187 | `0x80 >> k` is the mask for bit 7 - k, the k-th pixel of a byte, most significant first |
| BmpRows.CeilDiv8 | main.c:182 | ceil(n / 8.0) is the least r with 8 * r >= n |
| BmpRows.RowLength | main.c:169 | rowLength is a multiple of four that holds all w bits, and the fewest such bytes |
| BmpRows.StridePadding | main.c:169 | the row stride ceil(w / 32.0) * 4 is a multiple of 4, holds all w bits, has fewer than 4 bytes of padding, and is at least ceil(w / 8) |
| BmpRows.GeometryOf | main.c:14-20 | bfOffBits and biWidth are the headers' unsigned 32-bit values, unchanged; biHeight is the header's field read as signed 32-bit |
| BmpRows.Fread | main.c:178 | `fread` of count bytes at pos gives at most count bytes, fewer only at the end of the file, and each is the file's byte at pos + j |
| BmpRows.RowsPresentExactly | main.c:173-187 | the row-presence test holds iff every byte `currentRow[j]`, j < ceil(w / 8), of every row is inside the file: it demands no byte the loops do not read |
| BmpRows.FreadRow | main.c:174-187 | every byte `currentRow[j]` the loops read, j < ceil(w / 8), was delivered by `fread` and is the file's byte j of logical row i |
| BmpRows.RowInPixelArray | main.c:174-178 | the stride read for logical row i lies between bfOffBits and the end of the pixel array |
| BmpRows.RowPointerFits | main.c:174 | when row 0's pointer, the largest, is below 2^32, every row's uint32 rowPointer is below 2^32: it does not wrap |
| BmpRows.RowOffset | main.c:174 | rowPointer is at or after bfOffBits, and the bottom logical row h - 1 is at bfOffBits itself |
| BmpRows.BottomUpRows | main.c:174 | the bottom row is stored first at bfOffBits; each row is stored one stride before the row above it |
| BmpRows.RowsDisjoint | main.c:174 | distinct logical rows occupy disjoint strides |
| BmpRows.PixelArrayCoveredOnce | main.c:174 | the row mapping is a bijection: every byte of the pixel array is in the stride of exactly one logical row |
| BmpRows.GridIndexInjective | main.c:187 | distinct (row, column) cells of the output grid get distinct indices |
| VerticalPacking.VerticalSizeExact | main.c:103 | the vertical buffer holds exactly w * h / 8 bytes when both sides are multiples of 8 |
| VerticalPacking.BandFits | main.c:103 | the written index (i / 8) * w + column is inside the w * ceil(h / 8) buffer: no write goes out of bounds |
| VerticalPacking.BandByteBit | main.c:182-188 | bit p of a band byte, after m rows are merged, is pixel (8 * band + p, column) for p < m and rows inside the image |
| VerticalPacking.VerticalBit | main.c:187 | bit p of byte band * w + c is set iff row 8 * band + p exists and its pixel in column c is set |
| VerticalPacking.VerticalPixel | main.c:187 | each pixel (r, c) is bit r % 8 of byte (r / 8) * w + c |
| VerticalPacking.VerticalUnusedBitsZero | main.c:103 | in the last band, bits for rows below the image stay zero |
| VerticalPacking.VerticalReadsOnlyPixels | main.c:182-185 | only pixel bits are read: files whose pixels agree decode to the same image, whatever their padding holds |
| VerticalPacking.RowMaskIsPixel | main.c:187 | the source's test of `currentRow[j] & (0x80 >> k)`, giving `1 << i % 8`, is row i's contribution for pixel 8 * j + k |
| VerticalPacking.VerticalStart | main.c:103 | the zeroed buffer is the state before the first row |
| VerticalPacking.VerticalStep | main.c:187 | ORing one pixel into its byte changes only that byte and advances the buffer by one column |
| VerticalPacking.VerticalRowDone | main.c:173-189 | a finished row is the state before the next one |
| VerticalPacking.VerticalEnd | main.c:173 | after the last row the buffer is the vertical image |
| VerticalPacking.ParseVertical | main.c:168-195 | from the zeroed buffer, the decoding loop leaves exactly the vertical image |
| VerticalPacking.MergeRowVertical | main.c:174-189 | reading row i's stride and running the j / k loops with the break at the width merge exactly logical row i |
| VerticalPacking.MergePixel | main.c:187 | one OR-assignment merges exactly pixel (i, 8 * j + k) |
| HorizontalPacking.HorizontalSizeExact | main.c:104 | the horizontal buffer holds exactly w * h / 8 bytes when the width is a multiple of 8 |
| HorizontalPacking.KeptRowsAt | main.c:210 | kept byte j of row i sits at j + i * ceil(w / 8) |
| HorizontalPacking.HorizontalAt | main.c:210 | output byte j + i * ceil(w / 8) is byte j of stored row h - 1 - i |
| HorizontalPacking.HorizontalPixel | main.c:210 | each pixel (r, c) is bit 7 - c % 8 of byte r * ceil(w / 8) + c / 8 |
| HorizontalPacking.HorizontalPaddingBitsCopied | main.c:209-210 | the bits of a row's last byte beyond the width are the file's bits, copied unchanged |
| HorizontalPacking.HorizontalIgnoresPadding | main.c:209 | the stride's padding bytes are never read: files whose kept bytes agree decode to the same image |
| HorizontalPacking.HorizontalWritesOnce | main.c:209-210 | each output byte is the target of exactly one (i, j) iteration |
| HorizontalPacking.RowFits | main.c:104 | row i's kept bytes end inside the h * ceil(w / 8) buffer |
| HorizontalPacking.ParseHorizontal | main.c:197-215 | the copying loop leaves exactly the horizontal image in the buffer |
| HorizontalPacking.CopyRow | main.c:208-211 | the inner loop appends row i's kept bytes and leaves later bytes untouched |
| HorizontalPacking.FreadKeptRow | main.c:206-210 | the first ceil(w / 8) bytes `fread` gets for row i are there and are the row's kept bytes |
| BmpDecode.BufferSize | main.c:103-104 | the `calloc` size of either orientation gives every pixel a bit (w * h <= 8 * size), and is zero iff the image is empty |
| BmpDecode.BufferHoldsImage | main.c:102-104 | the buffer allocated for an orientation has exactly the size of that orientation's image; the geometry fits iff the row pointers fit and that image has at most 2^32 bytes |
| BmpDecode.ParseImage | main.c:163-166 | 'v' fills the buffer with the vertical image; any other letter with the horizontal one |
| BmpDecode.ImageResult | main.c:101-107 | decoding succeeds iff the height is non-negative, row 0's pointer and the chosen orientation's output index fit in 32 bits, and every byte the loops read is in the file; it then yields the chosen layout, and otherwise UnsupportedGeometry or Truncated |
| BmpDecode.Decode | main.c:92-107 | the decoder returns the first failing header check, or the packed image |
| BmpDecode.DecodeGeometry | main.c:102-107 | allocating the zeroed buffer and parsing give the image of the chosen layout |
| BmpDecode.SignatureDecidesFirst | main.c:92 | a file not starting with "BM" is refused as not a bitmap, whatever follows |
| BmpDecode.DecodeSucceeds | main.c:92-107 | a file decodes iff it has both headers, the "BM" signature, no colour map and no compression, its geometry fits the chosen orientation and its used pixel bytes are present |
| BmpDecode.EmptyImageDecodes | main.c:171-178 | an image of zero width or height decodes to the empty buffer whatever the file holds, even with bfOffBits past its end |
| BmpDecode.WideImageFitsHorizontally | main.c:103-104 | only the chosen orientation's size is bounded: a 2^31 + 8 by 9 image fits 'h' but not 'v' |
| BmpDecode.LayoutsAgree | main.c:187 | the two layouts carry the same pixels: vertical bit r % 8 of byte (r / 8) * w + c iff horizontal bit 7 - c % 8 of byte r * ceil(w / 8) + c / 8 |

## Left out

- Command-line handling (`main`'s getopt loop, `usage`): the orientation letter and the file's bytes are parameters.
- The interactive re-prompt (`rejectFile` and the loop at main.c:95-99): `Decode` returns the first error instead of asking for another file name.
- Output: `printResult` and `toUppercase` print the buffer as C source; the model stops at the filled buffer.
- File I/O and memory: `fopen`, `fseek`, `fread`, `malloc`, `calloc` and `free` become reads from a byte sequence and a freshly allocated, zeroed `array<bv8>`. The per-row `malloc` and `fread` become `Fread`, which is short at the end of the file.
- Short reads: the source does not check `fread`'s count and goes on with whatever the struct or row holds. The model reports `Truncated` instead in four cases:
  - a file of under two bytes;
  - a file of two to thirteen bytes that starts with "BM";
  - a file under 54 bytes that passes the signature check;
  - a file missing one of the pixel bytes the loops read, the first ceil(w / 8) bytes of a row's stride. There the source reads indeterminate `malloc` bytes.
- ObtainFileHeader: a file of two to thirteen bytes is judged on the two bytes `fread` delivered, so one that does not start with "BM" is `NotBitmap`. ISO C leaves a partly read element indeterminate, so this assumes a C library that stores the bytes it did read.
- Floating point: `ceil(x / 8.0)` and `ceil(x / 32.0) * 4` are modelled as integer ceiling divisions. These are exact for 32-bit operands.
- ImageResult: a negative biHeight is refused as `UnsupportedGeometry`. In the source, `i < biHeight` compares a uint32 with an int32, so a negative height becomes a huge unsigned count, and the `calloc` size is negative.
- ImageResult: geometries whose 32-bit unsigned arithmetic would wrap are also refused as `UnsupportedGeometry`. One case is a bfOffBits or biWidth that is not below 2^32. Another is row 0's pointer at or beyond 2^32. The last is a buffer for the chosen orientation of more than 2^32 bytes, whose uint32 output index would wrap. The other orientation's size is not checked. The `calloc` size itself is a `double` product and does not wrap.
- ParseVertical, ParseHorizontal: these take a `Geometry` (bfOffBits, biWidth, biHeight) rather than the two header structs, and return nothing. The source's functions always return 0.
- MergeRowVertical, MergePixel, CopyRow: these are the loop bodies of `parseVBMPImage` and `parseHBMPImage`, split into methods of their own. MergePixel takes the row byte `currentRow[j]` rather than the row. CopyRow writes to `j + base`, with `base` accumulated row by row, instead of computing `j + i * ceil(w / 8)`.
- Byte order: header fields are read little-endian, as the BMP format defines them. The source `fread`s the bytes straight into packed structs, so it has this meaning only on a little-endian host. A big-endian host is not modelled.
- biSize, biPlanes, biBitCount, biSizeImage, the resolution fields and biClrImportant are read but, as in the source, never checked.
