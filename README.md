# Infrared image codecs, modelled in Dafny

Infrared turns RGB photographs into simulated near-infrared grayscale images.
Its file formats are handled by two small C codecs, and this project models
both of them:

- `Infrared/src/ppm_io.c`:
  - `read_token`, the Netpbm header tokenizer;
  - `read_ppm`, the binary PPM (`P6`) reader;
  - `write_pgm`, the binary PGM (`P5`) writer.
- `Infrared/src/bmp_io.c`:
  - the packed `BMPFILEHEADER`, `BMPINFOHEADER` and `RGBQUAD` structs;
  - `write_headers`;
  - `write_bmp_gray8`, the 8-bit grayscale writer with its 256-entry palette;
  - `write_bmp_rgb24`, the 24-bit writer that swaps RGB into BGR.

How files are represented:

- A file is a sequence of bytes.
- The reading side works on the input bytes `s` and a cursor.
  - `fgetc` returns `s[p]` and advances the cursor, or returns EOF at the end.
  - `ungetc` of the byte just read steps the cursor back by one.
  - `ungetc(EOF)` changes nothing.
- The writing side returns the bytes written to the file, in order.

The modules:

- `Bytes`: the byte and fixed-width integer ranges, plus the explicit
  little-endian encodings of 16- and 32-bit fields.
  - Signed fields use two's complement.
  - 16- and 32-bit truncation are written out as `Wrap16` and `Wrap32`.
- `Decimal`: what the C library does with text.
  - `printf("%d")` (`DecInt`).
  - `atoi` (`Atoi`): leading `isspace`, an optional sign, then the longest run of digits.
  - The NUL-terminated view of a `char` buffer that `strcmp` and `atoi` see (`CString`).
- `Strided`: images stored as rows `stride` bytes apart in one buffer.
- `PpmIo`: the tokenizer, the reader and the PGM writer.
  - `NextToken` and `DecodePpm` specify what `read_token` and `read_ppm` compute.
  - The methods `ReadToken`, `ReadPpm` and their loop helpers follow the C
    control flow (the do-while skip loop, the comment loop, the collect loop
    with its push-back of `#`, the separator step) and are proved equal to those
    functions.
  - `WritePgm` runs the row loop and is proved to produce `PgmFile`.
- `BmpIo`: the header layouts with their decoders and round trips, and the two BMP writers.
  - The gray8 writer runs its palette loop; both writers run a descending row loop.
  - Each row is filled in a heap `array` the way `memcpy`, `memset` and the
    `*dst++` pixel loop fill `rowbuf`.
  - Each writer is proved to produce `Gray8Bmp` or `Rgb24Bmp`.
  - Lemmas then say where every header field, palette entry, pixel byte and
    padding byte sits in the file.

The reader keeps one quirk of the source:

- `read_token` already consumes the blank that ends the maxval token.
- `read_ppm` then reads one more byte.
  - A `\r` is dropped, and the next byte is read in its place.
  - That byte is dropped if it is `\n`, space or tab, and pushed back otherwise.
- So a first pixel byte of 9, 10, 13 or 32 is swallowed. When the first two
  bytes are a carriage return and then one of 9, 10 or 32, both are swallowed.
- What follows depends on how many bytes come after the header.
  - With exactly width*height*3 pixel bytes, the image comes up short and
    `read_ppm` fails. `PpmRoundTrip` states exactly this.
  - Otherwise `read_ppm` succeeds only when at least width*height*3 bytes
    remain after the one or two swallowed bytes. Its image then starts that
    many bytes later than the pixels written. `DecodeNetpbmFile` covers every case.

## Model

| member | source | states |
|---|---|---|
| `PpmIo.Fgetc` | Infrared/src/ppm_io.c:10 | `fgetc` returns the byte under the cursor and moves past it, or returns EOF at the end without moving |
| `PpmIo.Ungetc` | Infrared/src/ppm_io.c:26 | pushing back the byte just read puts the cursor back on that byte; pushing back EOF changes nothing |
| `PpmIo.LineEnd` | Infrared/src/ppm_io.c:13 | the first line feed at or after the cursor, with no line feed before it, or the end of the input |
| `PpmIo.SkipLine` | Infrared/src/ppm_io.c:11-14 | skipping a comment stops just past the first line feed, or at the end of the input, and passes no other line feed |
| `PpmIo.AfterToken` | Infrared/src/ppm_io.c:21-28 | after a token, the cursor moves on by at most one byte, and the byte it consumes is a blank |
| `PpmIo.NextToken` | Infrared/src/ppm_io.c:6-34 | the cursor after a token stays inside the input. `NextTokenShape` states what the token is |
| `PpmIo.TokenStart` | Infrared/src/ppm_io.c:9-15 | the skip loop stops at EOF or on a byte that can start a token (not a blank, not `#`) |
| `PpmIo.CollectEnd` | Infrared/src/ppm_io.c:21-31 | the collect loop stops at the buffer limit, at EOF or at the first blank or `#`, and every byte before it is a token byte |
| `PpmIo.NextTokenShape` | Infrared/src/ppm_io.c:6-34 | a token is found exactly when the skip loop does not reach EOF. It is 1 to max-1 token bytes long, with no blank and no `#`. Only the buffer limit, EOF or a delimiter ends it. A blank terminator is consumed, a `#` terminator is left for the next call, and EOF or a full buffer leave the cursor right after the token |
| `PpmIo.SkipComment` | Infrared/src/ppm_io.c:11-14 | the comment loop reads through the next line feed, or stops at EOF |
| `PpmIo.SkipBlanks` | Infrared/src/ppm_io.c:9-15 | the do-while skip loop returns EOF at the end of the input, or otherwise the byte where `TokenStart` says the token begins |
| `PpmIo.CollectToken` | Infrared/src/ppm_io.c:19-33 | the collect loop fills the buffer with the bytes up to `CollectEnd` and leaves the cursor where `AfterToken` says (a `#` pushed back, a blank consumed) |
| `PpmIo.ReadToken` | Infrared/src/ppm_io.c:6-34 | `read_token` returns 0 exactly when `NextToken` finds no token; otherwise it returns that token and cursor |
| `PpmIo.TokenStartIsFirstUnskippable` | Infrared/src/ppm_io.c:9-15 | every byte the skip loop passes is a blank or lies in a `#` comment, and the byte it stops at is neither |
| `PpmIo.ReadTokenFailsIffOnlyBlanks` | Infrared/src/ppm_io.c:9-17 | `read_token` fails if and only if only blanks and `#`-to-end-of-line comments remain before EOF |
| `PpmIo.NextTokenOfWord` | Infrared/src/ppm_io.c:19-31 | a word of 1 to max-2 token bytes followed by a blank is read whole, and the blank is consumed |
| `PpmIo.SkipSeparator` | Infrared/src/ppm_io.c:52-58 | the separator step drops a leading `\r`, then drops one `\n`, space or tab. Any other byte, or EOF, leaves the cursor where it is, so the cursor moves by at most two bytes and stays inside the input |
| `PpmIo.ParseHeader` | Infrared/src/ppm_io.c:42-49 | `read_ppm` fails with a missing token when the stream holds none. It fails on the magic if and only if the first token, as a C string, is not `P6`. On success the cursor stays inside the input |
| `PpmIo.ParseDimensions` | Infrared/src/ppm_io.c:44-49 | reading width, height and maxval fails, always for a missing token, if and only if the width, height or maxval token is missing |
| `PpmIo.DecodePixels` | Infrared/src/ppm_io.c:50-67 | header errors pass through unchanged. The range check fails if and only if width, height or maxval is out of range. On success the image holds the header values, 3 channels, a stride of width*3, and exactly the width*height*3 bytes that follow the separator step, not rescaled by maxval. With in-range values, the result is `Decoded` if and only if that many bytes remain after the separator step, and `TruncatedData` otherwise |
| `PpmIo.DecodePpm` | Infrared/src/ppm_io.c:36-69 | `read_ppm` fails for a missing token when the input holds none. It fails on the magic if and only if the first token, as a C string, is not `P6`. On success the magic was `P6`, width, height and maxval are in range, there are 3 channels, the stride is width*3, width, height and maxval are the header's values, and the data is exactly the width*height*3 bytes after the separator step. With an in-range header, the result is `Decoded` if and only if that many bytes remain, and `TruncatedData` otherwise |
| `PpmIo.ReadPpmHeader` | Infrared/src/ppm_io.c:42-49 | the token reads and checks compute `ParseHeader` |
| `PpmIo.ReadDimensions` | Infrared/src/ppm_io.c:44-49 | the three `read_token` plus `atoi` steps compute `ParseDimensions` |
| `PpmIo.ReadPixels` | Infrared/src/ppm_io.c:50-67 | the range check, the `fgetc`/`ungetc` separator step and the `fread` compute `DecodePixels` |
| `PpmIo.ReadPpm` | Infrared/src/ppm_io.c:36-69 | `read_ppm` computes `DecodePpm` |
| `PpmIo.ParseHeaderOfTokens` | Infrared/src/ppm_io.c:42-49 | when the stream yields four tokens in a row, the header is decided by the first token's C string and `atoi` of the other three |
| `Decimal.DecInt` | Infrared/src/ppm_io.c:74 | `%d` writes at least one byte: digits only for n ≥ 0, and a minus sign followed by digits for n < 0 |
| `Decimal.Atoi` | Infrared/src/ppm_io.c:45 | `atoi` of a digit string is its decimal value, and `atoi` of text that starts with no space, sign or digit is 0 |
| `Decimal.CString` | Infrared/src/ppm_io.c:43 | `strcmp` and `atoi` see the buffer up to its first NUL. That prefix holds no NUL, and the byte right after it is a NUL |
| `PpmIo.DecIntIsWord` | Infrared/src/ppm_io.c:74 | the text `%d` writes for a 32-bit `int` is 1 to 11 token bytes, and `atoi` reads the number back |
| `Decimal.AtoiOfDecInt` | Infrared/src/ppm_io.c:45-49 | `atoi` of the decimal text of any integer is that integer |
| `PpmIo.ParseNetpbmHeader` | Infrared/src/ppm_io.c:42-49 | on a header written by `fprintf`, whatever follows it, only the magic can make the header steps fail, and they return the written numbers and the header length |
| `PpmIo.DecodeNetpbmFile` | Infrared/src/ppm_io.c:42-67 | on an `fprintf` header followed by any bytes, `read_ppm` fails on a magic other than `P6`, then on out-of-range numbers, then on too few bytes after the separator step. Otherwise it returns the next width*height*3 bytes |
| `PpmIo.PpmRoundTrip` | Infrared/src/ppm_io.c:52-65 | a P6 header followed by exactly width*height*3 pixel bytes reads back as that image if and only if the first pixel byte is not tab, line feed, carriage return or space. Otherwise the read fails as truncated |
| `PpmIo.DecodePpmRejectsPgm` | Infrared/src/ppm_io.c:43 | `read_ppm` rejects every file `write_pgm` writes, because the magic is `P5` |
| `PpmIo.NetpbmHeader` | Infrared/src/ppm_io.c:74 | the header text is the magic, `\n`, width, a space, height, `\n`, maxval and `\n`, with each number as `%d` writes it |
| `PpmIo.PgmFile` | Infrared/src/ppm_io.c:74-78 | the PGM file starts with the `P5` header text and is width*height bytes longer than it (no rows for a negative height) |
| `PpmIo.NetpbmHeaderThen` | Infrared/src/ppm_io.c:74 | the bytes written after the header follow it directly, and the file length is the header length plus theirs |
| `PpmIo.PgmRows` | Infrared/src/ppm_io.c:75-78 | n rows contribute exactly n*width bytes |
| `PpmIo.PgmRowsSample` | Infrared/src/ppm_io.c:75-77 | byte y*width+x of the rows is source byte `data[y*stride+x]`, so the stride padding is never written |
| `PpmIo.PgmFileLayout` | Infrared/src/ppm_io.c:74-78 | the file is the header plus width*height bytes, and the byte at header length + y*width + x is `data[y*stride+x]` |
| `PpmIo.AppendPgmRows` | Infrared/src/ppm_io.c:75-78 | the row loop appends rows 0 to height-1, `width` bytes each, after what was already written |
| `PpmIo.WritePgm` | Infrared/src/ppm_io.c:71-81 | `write_pgm` writes `PgmFile`: the `P5` header text, then the rows |
| `BmpIo.EncodeFileHeader` | Infrared/src/bmp_io.c:7-13 | the packed file header is 14 bytes |
| `BmpIo.EncodeInfoHeader` | Infrared/src/bmp_io.c:15-27 | the packed info header is 40 bytes |
| `BmpIo.EncodeRgbQuad` | Infrared/src/bmp_io.c:29-34 | a packed palette entry is 4 bytes |
| `BmpIo.FileHeaderRoundTrip` | Infrared/src/bmp_io.c:7-13 | decoding the 14 written bytes gives back every field of the file header |
| `BmpIo.FileHeaderBytesRoundTrip` | Infrared/src/bmp_io.c:7-13 | every 14 bytes are the layout of exactly one file header |
| `BmpIo.InfoHeaderRoundTrip` | Infrared/src/bmp_io.c:15-27 | decoding the 40 written bytes gives back every field of the info header, including the signed ones |
| `BmpIo.InfoHeaderBytesRoundTrip` | Infrared/src/bmp_io.c:15-27 | every 40 bytes are the layout of exactly one info header |
| `BmpIo.MakeFileHeader` | Infrared/src/bmp_io.c:40-44 | bfType is `'BM'` and the reserved fields are 0. bfOffBits is 54 + paletteBytes and bfSize is 54 + paletteBytes + imageBytes, both modulo 2^32 |
| `BmpIo.MakeInfoHeader` | Infrared/src/bmp_io.c:46-56 | the info header holds biSize 40, the width and height, 1 plane, no compression and biSizeImage = imageBytes. The bit count is bpp whenever bpp fits in 16 bits, and the remaining four fields are 0 |
| `BmpIo.WriteHeaders` | Infrared/src/bmp_io.c:58-59 | `write_headers` writes 54 bytes |
| `BmpIo.WriteHeadersLayout` | Infrared/src/bmp_io.c:37-61 | the file header comes first, then the info header, and the file starts with `'B','M'` |
| `BmpIo.WriteHeadersFields` | Infrared/src/bmp_io.c:40-56 | a reader finds the following in the headers: bfType `'BM'`, reserved fields 0, bfOffBits = 54 + paletteBytes, bfSize = bfOffBits + imageBytes (both modulo 2^32), biSize 40, the signed width and height, 1 plane, `(uint16_t)bpp`, no compression, biSizeImage = imageBytes, and 0 in the remaining four fields |
| `BmpIo.FileHeaders` | Infrared/src/bmp_io.c:40-56 | a file made of the headers, a palette and pixel bytes has those header fields, and the palette sits at offset 54 |
| `BmpIo.PaddedRowSize` | Infrared/src/bmp_io.c:66 | `(n + 3) & ~3` is the smallest multiple of 4 that is at least n |
| `BmpIo.ImageBytes` | Infrared/src/bmp_io.c:67 | `rowSize * (uint32_t)height` is the product rowSize*height modulo 2^32, also for a negative height (the same line is bmp_io.c:96) |
| `BmpIo.ImageBytesNoWrap` | Infrared/src/bmp_io.c:67 | when there is no wrap-around, `rowSize * (uint32_t)height` is the exact product |
| `BmpIo.BottomUpSample` | Infrared/src/bmp_io.c:81 | in the descending row loop, the k-th row written is row height-1-k |
| `BmpIo.GrayPalette` | Infrared/src/bmp_io.c:73-76 | n palette entries take 4n bytes |
| `BmpIo.GrayPaletteEntry` | Infrared/src/bmp_io.c:73-76 | palette entry i is `(i, i, i, 0)` at bytes 4i to 4i+3 |
| `BmpIo.GrayPaletteStep` | Infrared/src/bmp_io.c:73-76 | each pass of the palette loop appends the next entry |
| `BmpIo.AppendGrayPalette` | Infrared/src/bmp_io.c:73-76 | the palette loop appends the 1024-byte grayscale palette |
| `BmpIo.GrayRow` | Infrared/src/bmp_io.c:82-84 | a stored gray row is exactly rowSize bytes long |
| `BmpIo.GrayRows` | Infrared/src/bmp_io.c:81-86 | the stored rows of n source rows are n rows of rowSize bytes each |
| `BmpIo.FillGrayRow` | Infrared/src/bmp_io.c:82-84 | `memcpy` and `memset` leave `rowbuf` holding the stored form of source row y: its `width` bytes, then zeros |
| `BmpIo.Gray8Bmp` | Infrared/src/bmp_io.c:63-90 | a gray8 file is 54 + 1024 + rowSize*height bytes (no rows for a negative height) |
| `BmpIo.AppendGrayRows` | Infrared/src/bmp_io.c:79-86 | the row loop appends the padded rows, bottom-up |
| `BmpIo.WriteBmpGray8` | Infrared/src/bmp_io.c:63-90 | `write_bmp_gray8` writes `Gray8Bmp`: the headers, the palette, then the padded rows bottom-up |
| `BmpIo.Gray8Headers` | Infrared/src/bmp_io.c:66-70 | a gray8 file is 54 + 1024 + rowSize*height bytes. Its headers hold `'BM'`, bfOffBits 1078, bfSize 1078 + imageBytes, 8 bits per pixel and biSizeImage = rowSize*height (32-bit) |
| `BmpIo.Gray8FileSize` | Infrared/src/bmp_io.c:41-42 | with a non-negative height and a file shorter than 2^32 bytes, bfSize is the file length |
| `BmpIo.Gray8PaletteEntry` | Infrared/src/bmp_io.c:73-76 | in the file, palette entry i is `(i, i, i, 0)` at offset 54 + 4i |
| `BmpIo.GrayRowSample` | Infrared/src/bmp_io.c:82-84 | byte x of a stored gray row is the source byte when x < width, and 0 up to rowSize |
| `BmpIo.Gray8Stored` | Infrared/src/bmp_io.c:81-85 | the k-th row in the file is the stored form of source row height-1-k |
| `BmpIo.Gray8Pixel` | Infrared/src/bmp_io.c:81-85 | file byte 1078 + k*rowSize + x is `data[(height-1-k)*stride + x]` for x < width, and 0 from width up to rowSize |
| `BmpIo.PixelInSpan` | Infrared/src/bmp_io.c:107-110 | bytes 0 to 2 of pixel x lie within the part of the row the pixel loop reads |
| `BmpIo.BgrPixels` | Infrared/src/bmp_io.c:106-113 | n converted pixels take 3n bytes |
| `BmpIo.BgrPixelsSample` | Infrared/src/bmp_io.c:106-113 | byte c of converted pixel x is byte 2-c of source pixel x, so the order is B, G, R |
| `BmpIo.ConvertPixels` | Infrared/src/bmp_io.c:105-113 | the `*dst++` pixel loop writes the BGR bytes of the row into `rowbuf[0 .. 3*width)` and leaves the rest of `rowbuf` unchanged |
| `BmpIo.RgbRow` | Infrared/src/bmp_io.c:104-115 | a stored rgb row is exactly rowSize bytes long |
| `BmpIo.RgbRows` | Infrared/src/bmp_io.c:103-117 | the stored rows of n source rows are n rows of rowSize bytes each |
| `BmpIo.FillRgbRow` | Infrared/src/bmp_io.c:104-115 | the pixel loop and `memset` leave `rowbuf` holding the stored form of source row y |
| `BmpIo.Rgb24Bmp` | Infrared/src/bmp_io.c:92-121 | an rgb24 file is 54 + rowSize*height bytes (no rows for a negative height) |
| `BmpIo.AppendRgbRows` | Infrared/src/bmp_io.c:101-117 | the row loop appends the padded BGR rows, bottom-up |
| `BmpIo.WriteBmpRgb24` | Infrared/src/bmp_io.c:92-121 | `write_bmp_rgb24` writes `Rgb24Bmp`: the headers, then the padded rows bottom-up |
| `BmpIo.Rgb24Headers` | Infrared/src/bmp_io.c:95-99 | an rgb24 file is 54 + rowSize*height bytes, where rowSize is 3*width rounded up to a multiple of 4. Its headers hold `'BM'`, bfOffBits 54, bfSize 54 + imageBytes, 24 bits per pixel and biSizeImage = rowSize*height (32-bit) |
| `BmpIo.Rgb24FileSize` | Infrared/src/bmp_io.c:41-42 | with a non-negative height and a file shorter than 2^32 bytes, bfSize is the file length |
| `BmpIo.RgbRowPixel` | Infrared/src/bmp_io.c:106-113 | byte 3x+c of stored row y is `data[y*stride + x*channels + 2-c]` |
| `BmpIo.RgbRowPadding` | Infrared/src/bmp_io.c:115 | the bytes of a stored row from 3*width up to rowSize are 0 |
| `BmpIo.Rgb24Stored` | Infrared/src/bmp_io.c:103-116 | the k-th row in the file is the stored form of source row height-1-k |
| `BmpIo.Rgb24Pixel` | Infrared/src/bmp_io.c:103-113 | file byte 54 + k*rowSize + 3x + c is `data[(height-1-k)*stride + x*channels + 2-c]` |
| `BmpIo.Rgb24Padding` | Infrared/src/bmp_io.c:115 | file bytes 54 + k*rowSize + j, for 3*width ≤ j < rowSize, are 0 |
| `BmpIo.BgrPixelsFrame` | Infrared/src/bmp_io.c:107-110 | the converted pixels depend only on bytes 0, 1 and 2 of each source pixel |
| `BmpIo.Rgb24Frame` | Infrared/src/bmp_io.c:106-113 | two images that agree on channels 0 to 2 of every pixel give the same file, so channels 3 and up are never read |

## Left out

- `fopen`, `fclose`, `malloc` and `free` are left out, and so are their failure paths. The same goes for `fwrite` short counts and the 0/1 return codes of the writers. Each writer returns the bytes a successful call writes.
- `free_ppm` is left out, because it only releases memory.
- `ReadPpm`: the model returns a `ReadError` that names the failed step. The source only returns 0. The `*out` struct is not modelled: it is cleared on entry, and on some failure paths the source leaves it partly filled with width, height or maxval.
- `DecodePixels`: the stride is width*3 computed exactly. The source computes `out->width * out->channels` in `int`, which can overflow.
- `Atoi` is exact on unbounded integers. `atoi` overflow on long digit strings, and the `int` fields that hold its result, are not modelled.
- `DecodePixels`: `width*height*3` is computed without the `size_t` wrap-around of the source.
- `WritePgm` requires a non-negative width and stride. It also requires `RowsFit`: every row read lies inside `data`. A `seq<byte>` cannot stand for a pointer into the middle of a buffer, so the negative strides the source allows through pointer arithmetic are not modelled. The source leaves bounds to the caller. `y * stride` is computed without `int` overflow.
- `WriteBmpGray8` requires 0 ≤ width ≤ 0x7FFF_FFFC, so that `width + 3` does not overflow an `int`. It requires a non-negative stride for the pointer reason given for `WritePgm`. The rows read must lie inside `data`, and `y * stride` is computed without overflow.
- `WriteBmpRgb24` requires 0 ≤ 3*width ≤ 0x7FFF_FFFC, so that `width * 3` does not overflow. Stride and channels must be non-negative, for the pointer reason given for `WritePgm`. Every row must have the bytes the pixel loop reads.
- `ImageBytes` keeps the 32-bit wrap of `rowSize * (uint32_t)height`, including a negative height. With a negative height the row loops write no rows, while `biSizeImage` and `bfSize` hold the wrapped product.
- Struct packing and host byte order are not modelled: the headers are encoded explicitly as the little-endian, unpadded layout that `#pragma pack(1)` gives on a little-endian host.
- `rowbuf` aliasing the source buffer is not modelled. Each writer allocates `rowbuf` once as a fresh array.
- `Infrared/src/infrared.c`, `Infrared/src/main.c` and the tests are not part of this model. They hold floating-point colour conversion and command-line handling.
