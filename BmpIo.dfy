/**
 * Model of Infrared/src/bmp_io.c: the packed BMP header structs and
 * `write_headers`, the 8-bit grayscale writer `write_bmp_gray8` and the
 * 24-bit writer `write_bmp_rgb24`.
 *
 * A writer returns the bytes it sends to the file. The structs are written
 * with `#pragma pack(1)` on a little-endian host, so each field is stored
 * as its little-endian bytes, in declaration order, with no padding.
 */
module BmpIo {
  import opened Bytes
  import opened Strided

  /** sizeof(BMPFILEHEADER), sizeof(BMPINFOHEADER) and sizeof(RGBQUAD) under pack(1). */
  const FileHeaderSize: nat := 14
  const InfoHeaderSize: nat := 40
  const RgbQuadSize: nat := 4

  /** Offset of the palette (or of the pixels when there is none): both headers. */
  const HeadersSize: nat := FileHeaderSize + InfoHeaderSize

  /** 'BM' read as a little-endian 16-bit value. */
  const BitmapType: u16 := 0x4D42

  /** `256u * sizeof(RGBQUAD)`: the grayscale palette. */
  const GrayPaletteBytes: u32 := 256 * RgbQuadSize

  datatype FileHeader = FileHeader(bfType: u16, bfSize: u32, bfReserved1: u16, bfReserved2: u16, bfOffBits: u32)

  datatype InfoHeader = InfoHeader(
    biSize: u32, biWidth: i32, biHeight: i32, biPlanes: u16, biBitCount: u16,
    biCompression: u32, biSizeImage: u32, biXPelsPerMeter: i32, biYPelsPerMeter: i32,
    biClrUsed: u32, biClrImportant: u32)

  datatype RgbQuad = RgbQuad(b: byte, g: byte, r: byte, a: byte)

  // ---------------------------------------------------------------------
  // The packed layouts (lines 6-35)

  function EncodeFileHeader(h: FileHeader): (r: seq<byte>)
    ensures |r| == FileHeaderSize
  {
    LE16(h.bfType) + LE32(h.bfSize) + LE16(h.bfReserved1) + LE16(h.bfReserved2) + LE32(h.bfOffBits)
  }

  function DecodeFileHeader(b: seq<byte>): FileHeader
    requires |b| == FileHeaderSize
  {
    FileHeader(FromLE16(b[0..2]), FromLE32(b[2..6]), FromLE16(b[6..8]), FromLE16(b[8..10]), FromLE32(b[10..14]))
  }

  function EncodeInfoHeader(h: InfoHeader): (r: seq<byte>)
    ensures |r| == InfoHeaderSize
  {
    LE32(h.biSize) + LE32(I32Bits(h.biWidth)) + LE32(I32Bits(h.biHeight)) + LE16(h.biPlanes) + LE16(h.biBitCount)
    + LE32(h.biCompression) + LE32(h.biSizeImage) + LE32(I32Bits(h.biXPelsPerMeter)) + LE32(I32Bits(h.biYPelsPerMeter))
    + LE32(h.biClrUsed) + LE32(h.biClrImportant)
  }

  function DecodeInfoHeader(b: seq<byte>): InfoHeader
    requires |b| == InfoHeaderSize
  {
    InfoHeader(
      FromLE32(b[0..4]), FromI32Bits(FromLE32(b[4..8])), FromI32Bits(FromLE32(b[8..12])),
      FromLE16(b[12..14]), FromLE16(b[14..16]), FromLE32(b[16..20]), FromLE32(b[20..24]),
      FromI32Bits(FromLE32(b[24..28])), FromI32Bits(FromLE32(b[28..32])), FromLE32(b[32..36]), FromLE32(b[36..40]))
  }

  /** A palette entry is stored blue, green, red, reserved. */
  function EncodeRgbQuad(q: RgbQuad): (r: seq<byte>)
    ensures |r| == RgbQuadSize
  {
    [q.b, q.g, q.r, q.a]
  }

  /** Reading back a written file header gives the same struct. */
  lemma FileHeaderRoundTrip(h: FileHeader)
    ensures DecodeFileHeader(EncodeFileHeader(h)) == h
  {
    var r := EncodeFileHeader(h);
    assert r[0..2] == LE16(h.bfType);
    assert r[2..6] == LE32(h.bfSize);
    assert r[6..8] == LE16(h.bfReserved1);
    assert r[8..10] == LE16(h.bfReserved2);
    assert r[10..14] == LE32(h.bfOffBits);
  }

  /** Every 14 bytes are the layout of exactly one file header. */
  lemma FileHeaderBytesRoundTrip(b: seq<byte>)
    requires |b| == FileHeaderSize
    ensures EncodeFileHeader(DecodeFileHeader(b)) == b
  {
    LE16OfFromLE16(b[0..2]);
    LE32OfFromLE32(b[2..6]);
    LE16OfFromLE16(b[6..8]);
    LE16OfFromLE16(b[8..10]);
    LE32OfFromLE32(b[10..14]);
    assert b == b[0..2] + b[2..6] + b[6..8] + b[8..10] + b[10..14];
  }

  /** Reading back a written info header gives the same struct. */
  lemma InfoHeaderRoundTrip(h: InfoHeader)
    ensures DecodeInfoHeader(EncodeInfoHeader(h)) == h
  {
    var r := EncodeInfoHeader(h);
    var a := LE32(h.biSize) + LE32(I32Bits(h.biWidth)) + LE32(I32Bits(h.biHeight)) + LE16(h.biPlanes)
      + LE16(h.biBitCount) + LE32(h.biCompression) + LE32(h.biSizeImage) + LE32(I32Bits(h.biXPelsPerMeter))
      + LE32(I32Bits(h.biYPelsPerMeter)) + LE32(h.biClrUsed);
    assert r == a + LE32(h.biClrImportant) && |a| == 36;
    assert r[0..4] == LE32(h.biSize);
    assert r[4..8] == LE32(I32Bits(h.biWidth));
    assert r[8..12] == LE32(I32Bits(h.biHeight));
    assert r[12..14] == LE16(h.biPlanes);
    assert r[14..16] == LE16(h.biBitCount);
    assert r[16..20] == LE32(h.biCompression);
    assert r[20..24] == LE32(h.biSizeImage);
    assert r[24..28] == LE32(I32Bits(h.biXPelsPerMeter));
    assert r[28..32] == LE32(I32Bits(h.biYPelsPerMeter));
    assert r[32..36] == LE32(h.biClrUsed);
    assert r[36..40] == LE32(h.biClrImportant);
  }

  /** Every 40 bytes are the layout of exactly one info header. */
  lemma InfoHeaderBytesRoundTrip(b: seq<byte>)
    requires |b| == InfoHeaderSize
    ensures EncodeInfoHeader(DecodeInfoHeader(b)) == b
  {
    LE32OfFromLE32(b[0..4]);
    LE32OfFromLE32(b[4..8]);
    I32BitsOfFromI32Bits(FromLE32(b[4..8]));
    LE32OfFromLE32(b[8..12]);
    I32BitsOfFromI32Bits(FromLE32(b[8..12]));
    LE16OfFromLE16(b[12..14]);
    LE16OfFromLE16(b[14..16]);
    LE32OfFromLE32(b[16..20]);
    LE32OfFromLE32(b[20..24]);
    LE32OfFromLE32(b[24..28]);
    I32BitsOfFromI32Bits(FromLE32(b[24..28]));
    LE32OfFromLE32(b[28..32]);
    I32BitsOfFromI32Bits(FromLE32(b[28..32]));
    LE32OfFromLE32(b[32..36]);
    LE32OfFromLE32(b[36..40]);
    assert b == b[0..4] + b[4..8] + b[8..12] + b[12..14] + b[14..16] + b[16..20] + b[20..24]
      + b[24..28] + b[28..32] + b[32..36] + b[36..40];
  }

  // ---------------------------------------------------------------------
  // write_headers (lines 37-61)

  /** The file header write_headers fills: the offsets are 32-bit unsigned sums and wrap. */
  function MakeFileHeader(paletteBytes: u32, imageBytes: u32): (h: FileHeader)
    ensures h.bfType == BitmapType && h.bfReserved1 == 0 && h.bfReserved2 == 0
    ensures h.bfOffBits == (HeadersSize + paletteBytes) % 0x1_0000_0000
    ensures h.bfSize == (HeadersSize + paletteBytes + imageBytes) % 0x1_0000_0000
  {
    Wrap32Add(HeadersSize + paletteBytes, imageBytes);
    var offBits := Wrap32(HeadersSize + paletteBytes);
    FileHeader(BitmapType, Wrap32(offBits + imageBytes), 0, 0, offBits)
  }

  /** The info header write_headers fills; `(uint16_t)bpp` keeps the low 16 bits. */
  function MakeInfoHeader(width: i32, height: i32, bpp: int, imageBytes: u32): (h: InfoHeader)
    ensures h.biSize == InfoHeaderSize && h.biPlanes == 1 && h.biCompression == 0
    ensures h.biWidth == width && h.biHeight == height && h.biSizeImage == imageBytes
    ensures 0 <= bpp < 0x1_0000 ==> h.biBitCount == bpp
    ensures h.biXPelsPerMeter == 0 && h.biYPelsPerMeter == 0 && h.biClrUsed == 0 && h.biClrImportant == 0
  {
    InfoHeader(InfoHeaderSize, width, height, 1, Wrap16(bpp), 0, imageBytes, 0, 0, 0, 0)
  }

  /** The 54 bytes write_headers writes: the file header, then the info header. */
  function WriteHeaders(width: i32, height: i32, bpp: int, paletteBytes: u32, imageBytes: u32): (r: seq<byte>)
    ensures |r| == HeadersSize
  {
    EncodeFileHeader(MakeFileHeader(paletteBytes, imageBytes)) + EncodeInfoHeader(MakeInfoHeader(width, height, bpp, imageBytes))
  }

  /** The header bytes are the file header's layout, then the info header's; the first two spell 'B','M'. */
  lemma WriteHeadersLayout(width: i32, height: i32, bpp: int, paletteBytes: u32, imageBytes: u32)
    ensures
      var r := WriteHeaders(width, height, bpp, paletteBytes, imageBytes);
      && r[..FileHeaderSize] == EncodeFileHeader(MakeFileHeader(paletteBytes, imageBytes))
      && r[FileHeaderSize..] == EncodeInfoHeader(MakeInfoHeader(width, height, bpp, imageBytes))
      && r[0] == 0x42 && r[1] == 0x4D
  {
  }

  /**
   * What a reader finds in the 54 header bytes: the file starts with 'B','M';
   * the pixel data starts after both headers and the palette, and the file
   * size adds the image bytes, both modulo 2^32; the info header holds the
   * 40-byte size, the signed width and height, one plane, the bit count, no
   * compression, the image size and zero in the remaining four fields.
   */
  lemma WriteHeadersFields(width: i32, height: i32, bpp: int, paletteBytes: u32, imageBytes: u32)
    ensures
      var r := WriteHeaders(width, height, bpp, paletteBytes, imageBytes);
      && r[0] == 0x42 && r[1] == 0x4D
      && DecodeFileHeader(r[..FileHeaderSize]) == FileHeader(BitmapType,
           (HeadersSize + paletteBytes + imageBytes) % 0x1_0000_0000, 0, 0, (HeadersSize + paletteBytes) % 0x1_0000_0000)
      && DecodeInfoHeader(r[FileHeaderSize..]) == InfoHeader(40, width, height, 1, Wrap16(bpp), 0, imageBytes, 0, 0, 0, 0)
  {
    WriteHeadersLayout(width, height, bpp, paletteBytes, imageBytes);
    FileHeaderRoundTrip(MakeFileHeader(paletteBytes, imageBytes));
    InfoHeaderRoundTrip(MakeInfoHeader(width, height, bpp, imageBytes));
    Wrap32Add(HeadersSize + paletteBytes, imageBytes);
  }

  // ---------------------------------------------------------------------
  // Rows

  /**
   * `(n + 3) & ~3` for n >= 0: clearing the two low bits of n + 3 subtracts
   * (n + 3) % 4, giving the smallest multiple of 4 that is at least n.
   */
  function PaddedRowSize(n: nat): (r: nat)
    ensures r % 4 == 0 && n <= r < n + 4
  {
    (n + 3) - (n + 3) % 4
  }

  /** The rows of a bottom-up file in the order they are written: `rows[|rows| - 1]` first, `rows[0]` last. */
  function BottomUp(rows: seq<seq<byte>>): seq<byte>
    decreases |rows|
  {
    if rows == [] then [] else BottomUp(rows[1..]) + rows[0]
  }

  lemma {:induction false} BottomUpLength(rows: seq<seq<byte>>, len: nat)
    requires forall i :: 0 <= i < |rows| ==> |rows[i]| == len
    ensures |BottomUp(rows)| == |rows| * len
    decreases |rows|
  {
    if rows != [] {
      BottomUpLength(rows[1..], len);
    }
  }

  /** Byte x of the k-th stored row is byte x of row |rows| - 1 - k: stored row k is source row height-1-k. */
  lemma {:induction false} BottomUpSample(rows: seq<seq<byte>>, len: nat, k: nat, x: nat)
    requires forall i :: 0 <= i < |rows| ==> |rows[i]| == len
    requires k < |rows| && x < len
    ensures |BottomUp(rows)| == |rows| * len
    ensures k * len + x < |rows| * len
    ensures BottomUp(rows)[k * len + x] == rows[|rows| - 1 - k][x]
    decreases |rows|
  {
    var n := |rows|;
    BottomUpLength(rows, len);
    BottomUpLength(rows[1..], len);
    MulMono(k + 1, n, len);
    if k < n - 1 {
      BottomUpSample(rows[1..], len, k, x);
      MulMono(k + 1, n - 1, len);
    } else {
      assert k * len == (n - 1) * len;
    }
  }

  /** Number of rows a loop `for (y = height - 1; y >= 0; --y)` visits. */
  function RowCount(height: int): nat
  {
    if height < 0 then 0 else height
  }

  /** `rowSize * (uint32_t)height` in 32-bit unsigned arithmetic. */
  function ImageBytes(rowSize: u32, height: i32): (r: u32)
    ensures r == (rowSize * height) % 0x1_0000_0000
  {
    ProductOfBits(rowSize, height);
    Wrap32(rowSize * I32Bits(height))
  }

  /** Multiplying by the bit pattern of a signed value is the same modulo 2^32 as multiplying by the value. */
  lemma ProductOfBits(n: nat, x: i32)
    ensures (n * I32Bits(x)) % 0x1_0000_0000 == (n * x) % 0x1_0000_0000
  {
    if x < 0 {
      assert n * I32Bits(x) == n * x + n * 0x1_0000_0000;
      Wrap32Shift(n * x, n);
    }
  }

  /** Without a negative height and an overflow, the image size is the exact product. */
  lemma ImageBytesNoWrap(rowSize: u32, height: i32)
    requires 0 <= height && height * rowSize < 0x1_0000_0000
    ensures ImageBytes(rowSize, height) == height * rowSize
  {
  }

  // ---------------------------------------------------------------------
  // write_bmp_gray8 (lines 63-90)

  /** The first n entries of the grayscale palette: byte j is the entry number j / 4, or 0 for the reserved byte. */
  function GrayPalette(n: nat): (r: seq<byte>)
    requires n <= 256
    ensures |r| == RgbQuadSize * n
  {
    seq(RgbQuadSize * n, j requires 0 <= j < RgbQuadSize * n =>
      if j % RgbQuadSize == RgbQuadSize - 1 then 0 else j / RgbQuadSize)
  }

  /** Palette entry i occupies bytes 4i .. 4i+3 and holds blue = green = red = i, reserved 0. */
  lemma GrayPaletteEntry(n: nat, i: nat)
    requires i < n <= 256
    ensures GrayPalette(n)[RgbQuadSize * i..RgbQuadSize * (i + 1)] == [i, i, i, 0]
  {
    var p := GrayPalette(n);
    var e := p[RgbQuadSize * i..RgbQuadSize * (i + 1)];
    forall c | 0 <= c < RgbQuadSize
      ensures e[c] == p[RgbQuadSize * i + c] == if c == 3 then 0 else i
    {
      assert (RgbQuadSize * i + c) / RgbQuadSize == i && (RgbQuadSize * i + c) % RgbQuadSize == c;
    }
  }

  /** Each pass of the palette loop appends the next entry. */
  lemma GrayPaletteStep(n: nat)
    requires n < 256
    ensures GrayPalette(n + 1) == GrayPalette(n) + EncodeRgbQuad(RgbQuad(n, n, n, 0))
  {
    GrayPaletteEntry(n + 1, n);
    var p, q := GrayPalette(n + 1), GrayPalette(n);
    assert p[..RgbQuadSize * n] == q;
    assert p == p[..RgbQuadSize * n] + p[RgbQuadSize * n..RgbQuadSize * (n + 1)];
  }

  /** Stored row for source row y: `width` bytes copied from the row, then zeros up to `rowSize`. */
  function GrayRow(data: seq<byte>, stride: nat, width: nat, rowSize: nat, y: nat): (r: seq<byte>)
    requires Offset(y, stride) + width <= |data| && width <= rowSize
    ensures |r| == rowSize
  {
    data[Offset(y, stride)..Offset(y, stride) + width] + Zeros(rowSize - width)
  }

  /** Storing row y before rows y+1 .. puts it after them in the file. */
  lemma BottomUpStep(rows: seq<seq<byte>>, y: nat)
    requires y < |rows|
    ensures BottomUp(rows[y..]) == BottomUp(rows[y + 1..]) + rows[y]
  {
    assert rows[y..][1..] == rows[y + 1..];
  }

  /** The stored rows of source rows 0 .. n-1. */
  function GrayRows(data: seq<byte>, stride: nat, width: nat, rowSize: nat, n: nat): (rows: seq<seq<byte>>)
    requires RowsFit(|data|, stride, width, n) && width <= rowSize
    ensures |rows| == n && forall y :: 0 <= y < n ==> |rows[y]| == rowSize
    decreases n
  {
    if n == 0 then []
    else
      RowInBounds(|data|, stride, width, n, n - 1);
      GrayRows(data, stride, width, rowSize, n - 1) + [GrayRow(data, stride, width, rowSize, n - 1)]
  }

  /** Entry y of the stored rows is the stored form of source row y. */
  lemma {:induction false} GrayRowsAt(data: seq<byte>, stride: nat, width: nat, rowSize: nat, n: nat, y: nat)
    requires RowsFit(|data|, stride, width, n) && width <= rowSize && y < n
    ensures Offset(y, stride) + width <= |data|
    ensures GrayRows(data, stride, width, rowSize, n)[y] == GrayRow(data, stride, width, rowSize, y)
    decreases n
  {
    RowInBounds(|data|, stride, width, n, y);
    if y < n - 1 {
      RowInBounds(|data|, stride, width, n, n - 1);
      GrayRowsAt(data, stride, width, rowSize, n - 1, y);
    }
  }

  /** The file write_bmp_gray8 writes: headers, the 1024-byte palette, then the rows bottom-up. */
  function Gray8Bmp(width: nat, height: i32, data: seq<byte>, stride: nat): (r: seq<byte>)
    requires width <= 0x7FFF_FFFC && RowsFit(|data|, stride, width, height)
    ensures |r| == HeadersSize + GrayPaletteBytes + RowCount(height) * PaddedRowSize(width)
  {
    var rowSize := PaddedRowSize(width);
    BottomUpLength(GrayRows(data, stride, width, rowSize, RowCount(height)), rowSize);
    WriteHeaders(width, height, 8, GrayPaletteBytes, ImageBytes(rowSize, height))
    + GrayPalette(256)
    + BottomUp(GrayRows(data, stride, width, rowSize, RowCount(height)))
  }

  /** One pass of the row loop: copy `width` bytes of source row y into `rowbuf` and zero the rest, giving stored row y. */
  method FillGrayRow(rowbuf: array<byte>, data: seq<byte>, stride: nat, width: nat, height: nat, y: nat)
    requires RowsFit(|data|, stride, width, height) && y < height && width <= rowbuf.Length
    modifies rowbuf
    ensures rowbuf[..] == GrayRows(data, stride, width, rowbuf.Length, height)[y]
  {
    GrayRowsAt(data, stride, width, rowbuf.Length, height, y);
    RowInBounds(|data|, stride, width, height, y);
    var src := y * stride;
    forall j | 0 <= j < width {
      rowbuf[j] := data[src + j];
    }
    forall j | width <= j < rowbuf.Length {
      rowbuf[j] := 0;
    }
  }

  /** The palette loop of write_bmp_gray8: appends the 256 grayscale entries. */
  method AppendGrayPalette(header: seq<byte>) returns (out: seq<byte>)
    ensures out == header + GrayPalette(256)
  {
    out := header;
    var i := 0;
    while i < 256
      invariant 0 <= i <= 256
      invariant out == header + GrayPalette(i)
    {
      GrayPaletteStep(i);
      out := out + EncodeRgbQuad(RgbQuad(i, i, i, 0));
      i := i + 1;
    }
  }

  /** The row loop of write_bmp_gray8: appends the padded rows, last source row first. */
  method AppendGrayRows(prefix: seq<byte>, data: seq<byte>, stride: nat, width: nat, rowSize: nat, height: int)
    returns (out: seq<byte>)
    requires RowsFit(|data|, stride, width, height) && width <= rowSize
    ensures out == prefix + BottomUp(GrayRows(data, stride, width, rowSize, RowCount(height)))
  {
    out := prefix;
    ghost var rows := GrayRows(data, stride, width, rowSize, RowCount(height));
    var rowbuf := new byte[rowSize];
    var y := height - 1;
    while y >= 0
      invariant y < height
      invariant out == prefix + BottomUp(rows[RowCount(y + 1)..])
      decreases y + 1
    {
      FillGrayRow(rowbuf, data, stride, width, RowCount(height), y);
      BottomUpStep(rows, y);
      out := out + rowbuf[..];
      y := y - 1;
    }
  }

  /** write_bmp_gray8, with the file contents as the result. */
  method WriteBmpGray8(width: i32, height: i32, data: seq<byte>, stride: i32) returns (out: seq<byte>)
    requires 0 <= width <= 0x7FFF_FFFC && 0 <= stride && RowsFit(|data|, stride, width, height)
    ensures out == Gray8Bmp(width, height, data, stride)
  {
    var rowSize: nat := (width + 3) - (width + 3) % 4;  // (width + 3) & ~3
    var imageBytes := ImageBytes(rowSize, height);
    out := WriteHeaders(width, height, 8, GrayPaletteBytes, imageBytes);
    out := AppendGrayPalette(out);
    out := AppendGrayRows(out, data, stride, width, rowSize, height);
  }

  /**
   * The headers of a gray8 file: 'B','M'; pixel data at offset 1078 (both
   * headers and the 1024-byte palette); 8 bits per pixel; `rowSize * height`
   * image bytes, each row rounded up to a multiple of four bytes.
   */
  lemma Gray8Headers(width: nat, height: i32, data: seq<byte>, stride: nat)
    requires width <= 0x7FFF_FFFC && RowsFit(|data|, stride, width, height)
    ensures
      var file := Gray8Bmp(width, height, data, stride);
      var rowSize := PaddedRowSize(width);
      && |file| == HeadersSize + GrayPaletteBytes + RowCount(height) * rowSize
      && file[0] == 0x42 && file[1] == 0x4D
      && DecodeFileHeader(file[..FileHeaderSize]) == FileHeader(BitmapType,
           Wrap32(HeadersSize + GrayPaletteBytes + ImageBytes(rowSize, height)), 0, 0, HeadersSize + GrayPaletteBytes)
      && DecodeInfoHeader(file[FileHeaderSize..HeadersSize])
           == InfoHeader(40, width, height, 1, 8, 0, ImageBytes(rowSize, height), 0, 0, 0, 0)
  {
    var rowSize := PaddedRowSize(width);
    var imageBytes := ImageBytes(rowSize, height);
    var hdr := WriteHeaders(width, height, 8, GrayPaletteBytes, imageBytes);
    var rows := GrayRows(data, stride, width, rowSize, RowCount(height));
    assert Gray8Bmp(width, height, data, stride) == hdr + GrayPalette(256) + BottomUp(rows);
    RowFileHeaders(width, height, 8, GrayPaletteBytes, imageBytes, GrayPalette(256), rows, rowSize);
  }

  /** With a non-negative height, `bfSize` is the length of the file whenever that fits in 32 bits. */
  lemma Gray8FileSize(width: nat, height: i32, data: seq<byte>, stride: nat)
    requires width <= 0x7FFF_FFFC && RowsFit(|data|, stride, width, height)
    requires 0 <= height && |Gray8Bmp(width, height, data, stride)| < 0x1_0000_0000
    ensures
      var file := Gray8Bmp(width, height, data, stride);
      DecodeFileHeader(file[..FileHeaderSize]).bfSize == |file|
  {
    Gray8Headers(width, height, data, stride);
    ImageBytesNoWrap(PaddedRowSize(width), height);
  }

  /**
   * A file that starts with the headers write_headers writes, followed by a
   * palette of `paletteBytes` bytes and then the pixel rows: what a reader
   * finds in its header fields and where the palette sits.
   */
  lemma FileHeaders(width: i32, height: i32, bpp: int, paletteBytes: u32, imageBytes: u32,
                    palette: seq<byte>, pixels: seq<byte>)
    requires |palette| == paletteBytes
    ensures
      var file := WriteHeaders(width, height, bpp, paletteBytes, imageBytes) + palette + pixels;
      && |file| == HeadersSize + paletteBytes + |pixels|
      && file[0] == 0x42 && file[1] == 0x4D
      && DecodeFileHeader(file[..FileHeaderSize]) == FileHeader(BitmapType,
           Wrap32(HeadersSize + paletteBytes + imageBytes), 0, 0, Wrap32(HeadersSize + paletteBytes))
      && DecodeInfoHeader(file[FileHeaderSize..HeadersSize])
           == InfoHeader(40, width, height, 1, Wrap16(bpp), 0, imageBytes, 0, 0, 0, 0)
      && file[HeadersSize..HeadersSize + paletteBytes] == palette
  {
    var hdr := WriteHeaders(width, height, bpp, paletteBytes, imageBytes);
    var file := hdr + palette + pixels;
    WriteHeadersFields(width, height, bpp, paletteBytes, imageBytes);
    assert file[..HeadersSize] == hdr;
    assert file[..FileHeaderSize] == hdr[..FileHeaderSize];
    assert file[FileHeaderSize..HeadersSize] == hdr[FileHeaderSize..];
  }

  /** FileHeaders for a file whose pixel part is rows of `rowSize` bytes stored bottom-up. */
  lemma RowFileHeaders(width: i32, height: i32, bpp: int, paletteBytes: u32, imageBytes: u32,
                       palette: seq<byte>, rows: seq<seq<byte>>, rowSize: nat)
    requires |palette| == paletteBytes
    requires forall i :: 0 <= i < |rows| ==> |rows[i]| == rowSize
    ensures
      var file := WriteHeaders(width, height, bpp, paletteBytes, imageBytes) + palette + BottomUp(rows);
      && |file| == HeadersSize + paletteBytes + |rows| * rowSize
      && file[0] == 0x42 && file[1] == 0x4D
      && DecodeFileHeader(file[..FileHeaderSize]) == FileHeader(BitmapType,
           Wrap32(HeadersSize + paletteBytes + imageBytes), 0, 0, Wrap32(HeadersSize + paletteBytes))
      && DecodeInfoHeader(file[FileHeaderSize..HeadersSize])
           == InfoHeader(40, width, height, 1, Wrap16(bpp), 0, imageBytes, 0, 0, 0, 0)
      && file[HeadersSize..HeadersSize + paletteBytes] == palette
  {
    BottomUpLength(rows, rowSize);
    FileHeaders(width, height, bpp, paletteBytes, imageBytes, palette, BottomUp(rows));
  }

  /** Palette entry i sits at offset 54 + 4i and holds blue = green = red = i, reserved 0. */
  lemma Gray8PaletteEntry(width: nat, height: i32, data: seq<byte>, stride: nat, i: nat)
    requires width <= 0x7FFF_FFFC && RowsFit(|data|, stride, width, height) && i < 256
    ensures
      var file := Gray8Bmp(width, height, data, stride);
      && HeadersSize + RgbQuadSize * (i + 1) <= |file|
      && file[HeadersSize + RgbQuadSize * i..HeadersSize + RgbQuadSize * (i + 1)] == [i, i, i, 0]
  {
    var rowSize := PaddedRowSize(width);
    var hdr := WriteHeaders(width, height, 8, GrayPaletteBytes, ImageBytes(rowSize, height));
    var rows := GrayRows(data, stride, width, rowSize, RowCount(height));
    GrayPaletteEntry(256, i);
    FileHeaders(width, height, 8, GrayPaletteBytes, ImageBytes(rowSize, height), GrayPalette(256), BottomUp(rows));
  }

  /** Byte x of a stored gray row: the source byte before `width`, padding 0 after it. */
  lemma GrayRowSample(data: seq<byte>, stride: nat, width: nat, rowSize: nat, rows: nat, y: nat, x: nat)
    requires RowsFit(|data|, stride, width, rows) && y < rows && width <= rowSize && x < rowSize
    ensures Offset(y, stride) + width <= |data|
    ensures GrayRows(data, stride, width, rowSize, rows)[y][x] == if x < width then data[Offset(y, stride) + x] else 0
  {
    GrayRowsAt(data, stride, width, rowSize, rows, y);
    RowInBounds(|data|, stride, width, rows, y);
  }

  /** Byte x of the k-th row after a prefix is byte x of the k-th row from the end of `rows`. */
  lemma StoredSample(prefix: seq<byte>, rows: seq<seq<byte>>, len: nat, k: nat, x: nat)
    requires forall i :: 0 <= i < |rows| ==> |rows[i]| == len
    requires k < |rows| && x < len
    ensures |prefix| + Offset(k, len) + x < |prefix + BottomUp(rows)|
    ensures (prefix + BottomUp(rows))[|prefix| + Offset(k, len) + x] == rows[|rows| - 1 - k][x]
  {
    BottomUpSample(rows, len, k, x);
  }

  /** Byte j of the k-th row stored in a gray8 file is byte j of stored source row height-1-k. */
  lemma Gray8Stored(width: nat, height: i32, data: seq<byte>, stride: nat, k: nat, j: nat)
    requires width <= 0x7FFF_FFFC && RowsFit(|data|, stride, width, height)
    requires k < height && j < PaddedRowSize(width)
    ensures
      var file := Gray8Bmp(width, height, data, stride);
      var rowSize := PaddedRowSize(width);
      && HeadersSize + GrayPaletteBytes + Offset(k, rowSize) + j < |file|
      && file[HeadersSize + GrayPaletteBytes + Offset(k, rowSize) + j]
           == GrayRows(data, stride, width, rowSize, RowCount(height))[height - 1 - k][j]
  {
    var rowSize := PaddedRowSize(width);
    var prefix := WriteHeaders(width, height, 8, GrayPaletteBytes, ImageBytes(rowSize, height)) + GrayPalette(256);
    var rows := GrayRows(data, stride, width, rowSize, RowCount(height));
    assert Gray8Bmp(width, height, data, stride) == prefix + BottomUp(rows);
    StoredSample(prefix, rows, rowSize, k, j);
  }

  /**
   * Byte x of the k-th row stored in the file (k = 0 first, right after the
   * palette) is byte x of source row height-1-k when x < width, and padding 0
   * after it.
   */
  lemma Gray8Pixel(width: nat, height: i32, data: seq<byte>, stride: nat, k: nat, x: nat)
    requires width <= 0x7FFF_FFFC && RowsFit(|data|, stride, width, height)
    requires k < height && x < PaddedRowSize(width)
    ensures Offset(height - 1 - k, stride) + width <= |data|
    ensures HeadersSize + GrayPaletteBytes + Offset(k, PaddedRowSize(width)) + x < |Gray8Bmp(width, height, data, stride)|
    ensures Gray8Bmp(width, height, data, stride)[HeadersSize + GrayPaletteBytes + Offset(k, PaddedRowSize(width)) + x]
      == if x < width then data[Offset(height - 1 - k, stride) + x] else 0
  {
    var rowSize := PaddedRowSize(width);
    Gray8Stored(width, height, data, stride, k, x);
    GrayRowSample(data, stride, width, rowSize, RowCount(height), height - 1 - k, x);
  }

  // ---------------------------------------------------------------------
  // write_bmp_rgb24 (lines 92-121)

  /** How far into a source row the pixel loop reads: up to byte 2 of pixel width-1. */
  function PixelSpan(width: nat, channels: nat): nat
  {
    if width == 0 then 0 else if width == 1 then 3 else PixelSpan(width - 1, channels) + channels
  }

  /** The span of a non-empty row ends 3 bytes after the start of its last pixel. */
  lemma {:induction false} PixelSpanOffset(width: nat, channels: nat)
    requires 0 < width
    ensures PixelSpan(width, channels) == Offset(width - 1, channels) + 3
  {
    if width > 1 {
      PixelSpanOffset(width - 1, channels);
      assert Offset(width - 1, channels) == Offset(width - 2, channels) + channels;
    }
  }

  /** Bytes 0, 1 and 2 of pixel x lie inside the span of a row with more than x pixels. */
  lemma PixelInSpan(x: nat, width: nat, channels: nat)
    requires x < width
    ensures Offset(x, channels) + 3 <= PixelSpan(width, channels)
  {
    PixelSpanOffset(width, channels);
    MulMono(x, width - 1, channels);
  }

  lemma PixelSpanMono(m: nat, n: nat, channels: nat)
    requires m <= n
    ensures PixelSpan(m, channels) <= PixelSpan(n, channels)
  {
    if m > 0 {
      PixelSpanOffset(m, channels);
      PixelInSpan(m - 1, n, channels);
    }
  }

  /**
   * Pixels 0 .. n-1 of the row at `base`, pixel x starting `x * channels`
   * bytes in, each stored as blue, green, red: bytes 2, 1, 0 of the pixel.
   */
  function BgrPixels(data: seq<byte>, base: nat, channels: nat, n: nat): (r: seq<byte>)
    requires base + PixelSpan(n, channels) <= |data|
    ensures |r| == 3 * n
  {
    if n == 0 then []
    else
      PixelSpanMono(n - 1, n, channels);
      PixelInSpan(n - 1, n, channels);
      var i := base + Offset(n - 1, channels);
      BgrPixels(data, base, channels, n - 1) + [data[i + 2], data[i + 1], data[i]]
  }

  /** Pixel n follows pixels 0 .. n-1. */
  lemma BgrPixelsStep(data: seq<byte>, base: nat, channels: nat, n: nat)
    requires base + PixelSpan(n + 1, channels) <= |data|
    ensures base + Offset(n, channels) + 3 <= |data|
    ensures
      var i := base + Offset(n, channels);
      BgrPixels(data, base, channels, n + 1) == BgrPixels(data, base, channels, n) + [data[i + 2], data[i + 1], data[i]]
  {
    PixelInSpan(n, n + 1, channels);
  }

  /** Byte c of stored pixel x is byte 2 - c of source pixel x: channels 3 and up are never read. */
  lemma {:induction false} BgrPixelsSample(data: seq<byte>, base: nat, channels: nat, n: nat, x: nat, c: nat)
    requires base + PixelSpan(n, channels) <= |data| && x < n && c < 3
    ensures base + Offset(x, channels) + 3 <= |data|
    ensures BgrPixels(data, base, channels, n)[3 * x + c] == data[base + Offset(x, channels) + 2 - c]
    decreases n
  {
    PixelInSpan(x, n, channels);
    if x < n - 1 {
      PixelSpanMono(n - 1, n, channels);
      BgrPixelsSample(data, base, channels, n - 1, x, c);
    }
  }

  /** Stored row for source row y: its pixels in blue-green-red order, then zeros up to `rowSize`. */
  function RgbRow(data: seq<byte>, stride: nat, width: nat, channels: nat, rowSize: nat, y: nat): (r: seq<byte>)
    requires Offset(y, stride) + PixelSpan(width, channels) <= |data| && 3 * width <= rowSize
    ensures |r| == rowSize
  {
    BgrPixels(data, Offset(y, stride), channels, width) + Zeros(rowSize - 3 * width)
  }

  /** The stored rows of source rows 0 .. n-1. */
  function RgbRows(data: seq<byte>, stride: nat, width: nat, channels: nat, rowSize: nat, n: nat)
    : (rows: seq<seq<byte>>)
    requires RowsFit(|data|, stride, PixelSpan(width, channels), n) && 3 * width <= rowSize
    ensures |rows| == n && forall y :: 0 <= y < n ==> |rows[y]| == rowSize
    decreases n
  {
    if n == 0 then []
    else
      RowInBounds(|data|, stride, PixelSpan(width, channels), n, n - 1);
      RgbRows(data, stride, width, channels, rowSize, n - 1) + [RgbRow(data, stride, width, channels, rowSize, n - 1)]
  }

  /** Entry y of the stored rows is the stored form of source row y. */
  lemma {:induction false} RgbRowsAt(data: seq<byte>, stride: nat, width: nat, channels: nat, rowSize: nat, n: nat, y: nat)
    requires RowsFit(|data|, stride, PixelSpan(width, channels), n) && 3 * width <= rowSize && y < n
    ensures Offset(y, stride) + PixelSpan(width, channels) <= |data|
    ensures RgbRows(data, stride, width, channels, rowSize, n)[y] == RgbRow(data, stride, width, channels, rowSize, y)
    decreases n
  {
    RowInBounds(|data|, stride, PixelSpan(width, channels), n, y);
    if y < n - 1 {
      RowInBounds(|data|, stride, PixelSpan(width, channels), n, n - 1);
      RgbRowsAt(data, stride, width, channels, rowSize, n - 1, y);
    }
  }

  /** The arguments write_bmp_rgb24 handles without 32-bit overflow of `width * 3`. */
  predicate Rgb24Args(width: int, height: int, data: seq<byte>, stride: int, channels: int)
  {
    0 <= width && 3 * width <= 0x7FFF_FFFC && 0 <= stride && 0 <= channels
    && RowsFit(|data|, stride, PixelSpan(width, channels), height)
  }

  /** The file write_bmp_rgb24 writes: headers without a palette, then the rows bottom-up. */
  function Rgb24Bmp(width: i32, height: i32, data: seq<byte>, stride: i32, channels: i32): (r: seq<byte>)
    requires Rgb24Args(width, height, data, stride, channels)
    ensures |r| == HeadersSize + RowCount(height) * PaddedRowSize(3 * width)
  {
    var rowSize := PaddedRowSize(3 * width);
    BottomUpLength(RgbRows(data, stride, width, channels, rowSize, RowCount(height)), rowSize);
    WriteHeaders(width, height, 24, 0, ImageBytes(rowSize, height))
    + BottomUp(RgbRows(data, stride, width, channels, rowSize, RowCount(height)))
  }

  /** The pixel loop of write_bmp_rgb24: pixel x of the row at `src` goes to rowbuf[3x .. 3x+2] as blue, green, red. */
  method ConvertPixels(rowbuf: array<byte>, data: seq<byte>, src: nat, width: nat, channels: nat)
    requires src + PixelSpan(width, channels) <= |data| && 3 * width <= rowbuf.Length
    modifies rowbuf
    ensures rowbuf[..3 * width] == BgrPixels(data, src, channels, width)
    ensures rowbuf[3 * width..] == old(rowbuf[3 * width..])
  {
    var dst := 0;
    var x := 0;
    while x < width
      invariant 0 <= x <= width && dst == 3 * x
      invariant src + PixelSpan(x, channels) <= |data|
      invariant rowbuf[..dst] == BgrPixels(data, src, channels, x)
      invariant rowbuf[3 * width..] == old(rowbuf[3 * width..])
    {
      PixelSpanMono(x + 1, width, channels);
      PixelInSpan(x, width, channels);
      var i := x * channels;
      var r, g, b := data[src + i + 0], data[src + i + 1], data[src + i + 2];
      ghost var done := rowbuf[..dst];
      rowbuf[dst] := b;
      rowbuf[dst + 1] := g;
      rowbuf[dst + 2] := r;
      assert rowbuf[..dst + 3] == done + [b, g, r];
      BgrPixelsStep(data, src, channels, x);
      dst := dst + 3;
      x := x + 1;
    }
  }

  /** One pass of the row loop: convert source row y into `rowbuf` and zero the padding, giving stored row y. */
  method FillRgbRow(rowbuf: array<byte>, data: seq<byte>, stride: nat, width: nat, channels: nat, height: nat, y: nat)
    requires RowsFit(|data|, stride, PixelSpan(width, channels), height) && y < height
    requires 3 * width <= rowbuf.Length
    modifies rowbuf
    ensures rowbuf[..] == RgbRows(data, stride, width, channels, rowbuf.Length, height)[y]
  {
    RgbRowsAt(data, stride, width, channels, rowbuf.Length, height, y);
    RowInBounds(|data|, stride, PixelSpan(width, channels), height, y);
    var src := y * stride;
    ConvertPixels(rowbuf, data, src, width, channels);
    forall j | 3 * width <= j < rowbuf.Length {
      rowbuf[j] := 0;
    }
    assert rowbuf[..] == rowbuf[..3 * width] + rowbuf[3 * width..];
  }

  /** The row loop of write_bmp_rgb24: appends the padded rows, last source row first. */
  method AppendRgbRows(prefix: seq<byte>, data: seq<byte>, stride: nat, width: nat, channels: nat, rowSize: nat,
                       height: int) returns (out: seq<byte>)
    requires RowsFit(|data|, stride, PixelSpan(width, channels), height) && 3 * width <= rowSize
    ensures out == prefix + BottomUp(RgbRows(data, stride, width, channels, rowSize, RowCount(height)))
  {
    out := prefix;
    ghost var rows := RgbRows(data, stride, width, channels, rowSize, RowCount(height));
    var rowbuf := new byte[rowSize];
    var y := height - 1;
    while y >= 0
      invariant y < height
      invariant out == prefix + BottomUp(rows[RowCount(y + 1)..])
      decreases y + 1
    {
      FillRgbRow(rowbuf, data, stride, width, channels, RowCount(height), y);
      BottomUpStep(rows, y);
      out := out + rowbuf[..];
      y := y - 1;
    }
  }

  /** write_bmp_rgb24, with the file contents as the result. */
  method WriteBmpRgb24(width: i32, height: i32, data: seq<byte>, stride: i32, channels: i32) returns (out: seq<byte>)
    requires Rgb24Args(width, height, data, stride, channels)
    ensures out == Rgb24Bmp(width, height, data, stride, channels)
  {
    var rowSize: nat := (width * 3 + 3) - (width * 3 + 3) % 4;  // (width * 3u + 3u) & ~3u
    var imageBytes := ImageBytes(rowSize, height);
    out := WriteHeaders(width, height, 24, 0, imageBytes);
    out := AppendRgbRows(out, data, stride, width, channels, rowSize, height);
  }

  /**
   * The headers of an rgb24 file: 'B','M'; no palette, so pixel data at
   * offset 54; 24 bits per pixel; `rowSize * height` image bytes, each row
   * of 3 * width bytes rounded up to a multiple of four.
   */
  lemma Rgb24Headers(width: i32, height: i32, data: seq<byte>, stride: i32, channels: i32)
    requires Rgb24Args(width, height, data, stride, channels)
    ensures
      var file := Rgb24Bmp(width, height, data, stride, channels);
      var rowSize := PaddedRowSize(3 * width);
      && |file| == HeadersSize + RowCount(height) * rowSize
      && file[0] == 0x42 && file[1] == 0x4D
      && DecodeFileHeader(file[..FileHeaderSize])
           == FileHeader(BitmapType, Wrap32(HeadersSize + ImageBytes(rowSize, height)), 0, 0, HeadersSize)
      && DecodeInfoHeader(file[FileHeaderSize..HeadersSize])
           == InfoHeader(40, width, height, 1, 24, 0, ImageBytes(rowSize, height), 0, 0, 0, 0)
  {
    var rowSize := PaddedRowSize(3 * width);
    var imageBytes := ImageBytes(rowSize, height);
    var hdr := WriteHeaders(width, height, 24, 0, imageBytes);
    var rows := RgbRows(data, stride, width, channels, rowSize, RowCount(height));
    assert Rgb24Bmp(width, height, data, stride, channels) == hdr + [] + BottomUp(rows);
    RowFileHeaders(width, height, 24, 0, imageBytes, [], rows, rowSize);
  }

  /** With a non-negative height, `bfSize` is the length of the file whenever that fits in 32 bits. */
  lemma Rgb24FileSize(width: i32, height: i32, data: seq<byte>, stride: i32, channels: i32)
    requires Rgb24Args(width, height, data, stride, channels)
    requires 0 <= height && |Rgb24Bmp(width, height, data, stride, channels)| < 0x1_0000_0000
    ensures
      var file := Rgb24Bmp(width, height, data, stride, channels);
      DecodeFileHeader(file[..FileHeaderSize]).bfSize == |file|
  {
    Rgb24Headers(width, height, data, stride, channels);
    ImageBytesNoWrap(PaddedRowSize(3 * width), height);
  }

  /** Byte c of pixel x in a stored rgb row is byte 2 - c of source pixel x. */
  lemma RgbRowPixel(data: seq<byte>, stride: nat, width: nat, channels: nat, rowSize: nat, rows: nat, y: nat,
                    x: nat, c: nat)
    requires RowsFit(|data|, stride, PixelSpan(width, channels), rows) && y < rows && 3 * width <= rowSize
    requires x < width && c < 3
    ensures Offset(y, stride) + Offset(x, channels) + 3 <= |data|
    ensures RgbRows(data, stride, width, channels, rowSize, rows)[y][3 * x + c]
      == data[Offset(y, stride) + Offset(x, channels) + 2 - c]
  {
    RgbRowsAt(data, stride, width, channels, rowSize, rows, y);
    RowInBounds(|data|, stride, PixelSpan(width, channels), rows, y);
    BgrPixelsSample(data, Offset(y, stride), channels, width, x, c);
  }

  /** The bytes of a stored rgb row after its 3 * width pixel bytes are zero. */
  lemma RgbRowPadding(data: seq<byte>, stride: nat, width: nat, channels: nat, rowSize: nat, rows: nat, y: nat,
                      j: nat)
    requires RowsFit(|data|, stride, PixelSpan(width, channels), rows) && y < rows && 3 * width <= rowSize
    requires 3 * width <= j < rowSize
    ensures RgbRows(data, stride, width, channels, rowSize, rows)[y][j] == 0
  {
    RgbRowsAt(data, stride, width, channels, rowSize, rows, y);
  }

  /** Byte j of the k-th row stored in an rgb24 file is byte j of stored source row height-1-k. */
  lemma Rgb24Stored(width: i32, height: i32, data: seq<byte>, stride: i32, channels: i32, k: nat, j: nat)
    requires Rgb24Args(width, height, data, stride, channels)
    requires k < height && j < PaddedRowSize(3 * width)
    ensures
      var file := Rgb24Bmp(width, height, data, stride, channels);
      var rowSize := PaddedRowSize(3 * width);
      && HeadersSize + Offset(k, rowSize) + j < |file|
      && file[HeadersSize + Offset(k, rowSize) + j]
           == RgbRows(data, stride, width, channels, rowSize, RowCount(height))[height - 1 - k][j]
  {
    var rowSize := PaddedRowSize(3 * width);
    var hdr := WriteHeaders(width, height, 24, 0, ImageBytes(rowSize, height));
    var rows := RgbRows(data, stride, width, channels, rowSize, RowCount(height));
    assert Rgb24Bmp(width, height, data, stride, channels) == hdr + BottomUp(rows);
    StoredSample(hdr, rows, rowSize, k, j);
  }

  /**
   * Byte c (0 blue, 1 green, 2 red) of pixel x in the k-th row stored in the
   * file (k = 0 first, right after the headers) is byte 2 - c of pixel x of
   * source row height-1-k; bytes 3 and up of a source pixel are never read.
   */
  lemma Rgb24Pixel(width: i32, height: i32, data: seq<byte>, stride: i32, channels: i32, k: nat, x: nat, c: nat)
    requires Rgb24Args(width, height, data, stride, channels)
    requires k < height && x < width && c < 3
    ensures Offset(height - 1 - k, stride) + Offset(x, channels) + 3 <= |data|
    ensures HeadersSize + Offset(k, PaddedRowSize(3 * width)) + 3 * x + c < |Rgb24Bmp(width, height, data, stride, channels)|
    ensures Rgb24Bmp(width, height, data, stride, channels)[HeadersSize + Offset(k, PaddedRowSize(3 * width)) + 3 * x + c]
      == data[Offset(height - 1 - k, stride) + Offset(x, channels) + 2 - c]
  {
    var rowSize := PaddedRowSize(3 * width);
    Rgb24Stored(width, height, data, stride, channels, k, 3 * x + c);
    RgbRowPixel(data, stride, width, channels, rowSize, RowCount(height), height - 1 - k, x, c);
  }

  /** Bytes 3 * width .. rowSize - 1 of every stored row are padding zeros. */
  lemma Rgb24Padding(width: i32, height: i32, data: seq<byte>, stride: i32, channels: i32, k: nat, j: nat)
    requires Rgb24Args(width, height, data, stride, channels)
    requires k < height && 3 * width <= j < PaddedRowSize(3 * width)
    ensures HeadersSize + Offset(k, PaddedRowSize(3 * width)) + j < |Rgb24Bmp(width, height, data, stride, channels)|
    ensures Rgb24Bmp(width, height, data, stride, channels)[HeadersSize + Offset(k, PaddedRowSize(3 * width)) + j] == 0
  {
    var rowSize := PaddedRowSize(3 * width);
    Rgb24Stored(width, height, data, stride, channels, k, j);
    RgbRowPadding(data, stride, width, channels, rowSize, RowCount(height), height - 1 - k, j);
  }

  /** Byte c of pixel x of the row at `base` (0 past the end of the buffer). */
  function PixelByte(data: seq<byte>, base: nat, channels: nat, x: nat, c: nat): byte
  {
    var i := base + Offset(x, channels) + c;
    if i < |data| then data[i] else 0
  }

  /** Stored pixels depend only on bytes 0, 1 and 2 of each source pixel. */
  lemma {:induction false} BgrPixelsFrame(d1: seq<byte>, d2: seq<byte>, base: nat, channels: nat, n: nat)
    requires base + PixelSpan(n, channels) <= |d1| && base + PixelSpan(n, channels) <= |d2|
    requires forall x, c :: 0 <= x < n && 0 <= c < 3 ==> PixelByte(d1, base, channels, x, c) == PixelByte(d2, base, channels, x, c)
    ensures BgrPixels(d1, base, channels, n) == BgrPixels(d2, base, channels, n)
    decreases n
  {
    if n > 0 {
      PixelSpanMono(n - 1, n, channels);
      PixelInSpan(n - 1, n, channels);
      BgrPixelsFrame(d1, d2, base, channels, n - 1);
      assert PixelByte(d1, base, channels, n - 1, 0) == PixelByte(d2, base, channels, n - 1, 0);
      assert PixelByte(d1, base, channels, n - 1, 1) == PixelByte(d2, base, channels, n - 1, 1);
      assert PixelByte(d1, base, channels, n - 1, 2) == PixelByte(d2, base, channels, n - 1, 2);
    }
  }

  /**
   * Two images that agree on bytes 0, 1 and 2 of every pixel give the same
   * rgb24 file, whatever their other channels (alpha, say) hold.
   */
  lemma Rgb24Frame(width: i32, height: i32, d1: seq<byte>, d2: seq<byte>, stride: i32, channels: i32)
    requires Rgb24Args(width, height, d1, stride, channels) && Rgb24Args(width, height, d2, stride, channels)
    requires forall y, x, c :: 0 <= y < height && 0 <= x < width && 0 <= c < 3 ==>
               PixelByte(d1, Offset(y, stride), channels, x, c) == PixelByte(d2, Offset(y, stride), channels, x, c)
    ensures Rgb24Bmp(width, height, d1, stride, channels) == Rgb24Bmp(width, height, d2, stride, channels)
  {
    var rowSize := PaddedRowSize(3 * width);
    var n := RowCount(height);
    var r1 := RgbRows(d1, stride, width, channels, rowSize, n);
    var r2 := RgbRows(d2, stride, width, channels, rowSize, n);
    forall y | 0 <= y < n
      ensures r1[y] == r2[y]
    {
      RowInBounds(|d1|, stride, PixelSpan(width, channels), n, y);
      RowInBounds(|d2|, stride, PixelSpan(width, channels), n, y);
      BgrPixelsFrame(d1, d2, Offset(y, stride), channels, width);
      RgbRowsAt(d1, stride, width, channels, rowSize, n, y);
      RgbRowsAt(d2, stride, width, channels, rowSize, n, y);
    }
    assert r1 == r2;
  }
}
