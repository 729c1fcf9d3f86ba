# PNG reader and single-channel writer, modelled in Dafny

This project models `png.py`, a small PNG decoder and re-encoder built
around one class, `PNG`. The object holds the bytes of a file, the IHDR
fields read from it (width, height, bit depth, colour type, compression,
filter and interlace methods) and the decoded raster `img`, a list of rows
of RGB pixels. The model covers:

- the signature check (`valid_png`);
- the IHDR parse from a fixed 25-byte window at offset 8 (`read_header`),
  including which fields are already stored when a short file makes it
  raise an IndexError;
- the chunk walk (`read_chunks`), which advances by `12 + length` per chunk,
  gathers IDAT payloads, skips other chunks and stops at IEND or at the
  end of the data. After every IDAT chunk it inflates all the IDAT data
  gathered so far, splits it into scanlines of `3 * width + 1` bytes,
  checks the row count, and reconstructs each scanline against the
  previous one. It then groups each scanline into pixels, checks the pixel
  count and appends the row to `img`;
- the in-place reconstruction of a scanline for the five filter types
  (`apply_filter`) and the Paeth predictor (`paeth_predictor`);
- `save_rgb` up to the file write. It fills a zeroed buffer of `height`
  scanlines, each with filter byte 0 and pixels that keep only the
  selected channel. It then compresses the buffer and frames it as
  signature, IHDR, one IDAT and IEND;
- chunk framing (`create_chunk`).

The modules follow the structure of the program:

- `Bytes`: byte types, Python's clamped slicing, big-endian integers,
  concatenation and the error kinds.
- `Chunks`: the signature, the chunk walk, and `create_chunk` with its
  read-back.
- `Header`: IHDR parsing and the IHDR payload.
- `Filters`: the Paeth predictor, reconstruction, and the filtering it
  inverts.
- `Raster`: scanline splitting, decoding, and the channel buffer.
- `Writer`: the file `save_rgb` assembles.
- `PngFile`: the class `Png`, whose fields and methods are those of
  `PNG`.

The imperative parts stay imperative:

- `ApplyFilter` rewrites an `array<byte>` in place, one loop per filter
  type.
- `ReadChunks` advances a pointer in a `while` loop and appends to the
  field `img`.
- `DecodeIdatData` is the body that `read_chunks` runs after each IDAT
  chunk. Each scanline goes through `UnfilterScanline`, which copies the
  bytes after the filter byte into an array and hands it to
  `ApplyFilter`.
- `SaveRgb` fills a preallocated array through a running index, in
  `FillChannelBuffer`. Its loop over the rows calls `FillRow`, which
  writes the filter byte and then runs `FillPixels`, the loop over the
  pixels of the row. Each pixel is written by `PutTriple`, the slice
  assignment of three bytes.

Each method is proved against a specification function:
`ReadHeaderFields`, `RunDecodes`, `DecodeImage`, `Unfilter` and
`SavedPng`. Those functions are in turn related to an independent
description or an inverse:

- `ParseHeader` for the header.
- `FilterRow` (the encoder's filter) for reconstruction.
- The chunk walk inverts `CreateChunk`.
- Reading back what `save_rgb` writes gives the masked raster.

Compression, decompression and CRC-32 are parameters (`deflate`,
`inflate`, `crc32`). The file system is a parameter of `LoadFile`, and
`SaveRgb` returns the bytes it would write.

Under the PNG standard (section 11.2.4 of the PNG specification, second
edition), the data fields of all IDAT chunks together form one zlib
stream. For 8-bit RGB without interlacing, that stream decompresses to
`height` scanlines of `3 * width + 1` bytes. The code differs from this in
two ways, and the model follows the code:

- The code splits with a possibly shorter final scanline and accepts it
  when it still yields `width` pixels. For every image, a final scanline
  one or two bytes short passes both checks, and its last pixel has fewer
  than three channels (`Raster.ShortFinalRowAccepted`).
- The code decodes the whole gathered IDAT data again after every IDAT
  chunk, so `img` receives `height` rows once per IDAT chunk
  (`Raster.RunDecodesShape`).

## Model

| member | source | states |
|---|---|---|
| PngFile.Png.constructor | png.py:13-23 | every field starts empty or zero |
| PngFile.Png.LoadFile | png.py:25-32 | an existing file sets `data` to its bytes and `info` to its name; a missing one leaves `data` and sets `info` to "file not found" |
| Chunks.HasSignature | png.py:34-35 | true exactly when there are at least 8 bytes and the first 8 are the PNG signature |
| Header.ParseHeader | png.py:37-52 | success exactly when the signature is valid, bytes 12..16 are "IHDR" and byte 28 exists; width and height are the big-endian values of bytes 16..20 and 20..24, and the five fields are bytes 24..28; each failure is the exception the source raises |
| Header.ReadHeaderFields | png.py:37-52 | a failure other than the IndexError leaves every stored field as it was |
| Header.ReadHeaderParses | png.py:37-52 | read_header succeeds exactly when ParseHeader does and then stores its fields; otherwise it raises the same error; after an IndexError, width and height hold the values of the clamped slices and each single-byte field the data reaches holds its byte, with the rest unchanged |
| PngFile.Png.ReadHeader | png.py:37-52 | the outcome and the stored header fields are those of ReadHeaderFields on the data and the fields stored before the call |
| Bytes.Slice | png.py:41-47 | Python's clamped slice: its length, its elements, and the plain slice when the bounds are in range |
| Bytes.SliceOfSlice | png.py:41-47 | a clamped slice of the 25-byte window is a clamped slice of the data at the shifted offsets |
| Bytes.BeValue | png.py:46-47 | the big-endian value of k bytes is below 256^k |
| Bytes.BeValueFits | png.py:46-47 | the value of at most four bytes fits in 32 bits |
| Bytes.BeValueOfFour | png.py:62 | the big-endian value of four bytes, written out |
| Bytes.Be4 | png.py:172-173 | definition of `n.to_bytes(4, 'big')` (also png.py:188); its round trips with BeValue are Bytes.BeValueBe4 and Bytes.Be4BeValue |
| Bytes.BeValueBe4 | png.py:188-189 | reading back four big-endian bytes gives the value written |
| Bytes.Be4BeValue | png.py:188-189 | writing the value of four bytes gives those bytes back |
| Chunks.ChunkAt | png.py:62-64 | a payload read by a clamped slice is never longer than its declared length |
| Chunks.NextChunk | png.py:65 | definition of the pointer advance by 12 + declared length; Chunks.ScanStep and Chunks.FramedHead state where the walk goes next |
| Chunks.ScanChunks | png.py:61-74 | the walk never yields an IEND chunk |
| Chunks.ScanStep | png.py:61-74 | at a chunk other than IEND, the walk visits that chunk and goes on at offset p + 12 + length |
| Chunks.IdatsSnoc | png.py:67-74 | one more chunk adds its payload to the gathered IDAT payloads exactly when it is an IDAT chunk |
| Chunks.IdatsAppend | png.py:67-74 | the IDAT payloads of two stretches of chunks are those of each, in order |
| Chunks.Idats | png.py:59-68 | definition of the IDAT payloads gathered by the walk, in order, other chunks skipped; its properties are Chunks.IdatsSnoc and Chunks.IdatsAppend |
| Bytes.Concat | png.py:68 | definition of `idat_data += chunk_data` repeated over a list of pieces; Bytes.ConcatAppend, Bytes.ConcatUniformLength and Raster.ConcatSplitRows state its properties |
| PngFile.VisitChunk | png.py:61-74 | one iteration of the walk over a chunk other than IEND |
| PngFile.OtherVisit | png.py:73-74 | a chunk other than IDAT and IEND is passed over and changes nothing gathered |
| PngFile.IdatVisit | png.py:67-76 | an IDAT chunk extends the gathered data by its payload, and the decode that follows is the next step of RunDecodes |
| PngFile.WalkStops | png.py:76-95 | once a decode fails, read_chunks' result is that failure |
| Raster.RunDecodes | png.py:61-95 | the rows appended extend the raster that was there |
| Raster.RunDecodesShape | png.py:61-95 | every appended row has width pixels, and a walk without failure appends height rows per IDAT chunk |
| Raster.RunDecodesSnoc | png.py:67-95 | after a further IDAT payload the whole gathered data is decoded onto the rows so far |
| Raster.RunDecodesStops | png.py:76-95 | once a decode has failed, later IDAT chunks change nothing |
| Raster.RunDecodesSingle | png.py:61-95 | with one IDAT chunk its payload is decoded exactly once |
| PngFile.Png.ReadChunks | png.py:54-95 | without the signature: NotPng and img unchanged; otherwise the outcome and img are those of RunDecodes over the IDAT payloads the walk visits, starting from the old img |
| Raster.DecodeImage | png.py:76-95 | the raster only grows, by rows of width pixels, and by height rows on success; a failing inflate raises InflateFailed and a row count of ceil(n / (3w+1)) other than height raises RowMismatch, both appending nothing |
| PngFile.Png.DecodeIdatData | png.py:76-95 | the outcome and img are those of DecodeImage on the gathered data and the old img |
| Raster.SplitRows | png.py:78 | ceil(n / k) pieces, each non-empty and at most k long, all of length k except possibly the last |
| Raster.ConcatSplitRows | png.py:78 | the pieces concatenate back to the input |
| Raster.SplitRowsConcat | png.py:78 | splitting pieces of length k that were concatenated gives them back |
| Raster.ReconstructRows | png.py:83-95 | the raster grows by at most one row per scanline, each of width pixels; success exactly when every scanline was appended; a failure is PixelMismatch naming width and the other count |
| Raster.ReconstructRowsAt | png.py:85-95 | one iteration of the row loop: reconstruct, group into pixels, stop on a wrong count, otherwise append and continue with this row as the previous one |
| Raster.ShortFinalRowAccepted | png.py:78-92 | for every width and height above 0, data of height * (3 * width + 1) - 1 or - 2 bytes passes the row count and the pixel checks, appends height rows, and the last row has width pixels of which the last has fewer than three channels |
| Raster.ShortSplit | png.py:78-80 | such data splits into height scanlines, the last of 3 * width - 1 or 3 * width bytes |
| Raster.LastPieceLength | png.py:78 | the last piece of a concatenation holds what the other pieces of n elements leave over |
| Raster.ReconstructRowsLong | png.py:85-92 | scanlines of 3 * width - 1 to 3 * width + 1 bytes, all full but the last, always give width pixels, so the row loop never fails on them |
| Raster.ReconstructRowsPixels | png.py:85-94 | each appended row holds its scanline's bytes after the filter byte, in pixels of three bytes except possibly the last |
| Raster.DecodeImageRows | png.py:76-82 | when the data splits into height scanlines, decoding is the row loop over them from a row of zeros |
| Raster.DecodeReconstructed | png.py:76-95 | when the data is height full scanlines whose row loop succeeds, decoding gives the loop's raster |
| Raster.RowBytes | png.py:89 | definition of each pixel row's bytes, 3 * width per row, the inverse of grouping into pixels |
| Raster.FilterScanlines | png.py:83-95 | definition of what an encoder stores: each row as its filter type followed by the row filtered against the raw row above; every stored scanline has 3 * width + 1 bytes |
| Raster.ReconstructFilteredHead | png.py:85-94 | the first stored row reconstructs to its pixels and its raw bytes become the previous row |
| Raster.ReconstructFilteredStep | png.py:85-94 | the row loop over filtered rows appends the first row's pixels and goes on with the rest against its raw bytes |
| Raster.ReconstructFiltered | png.py:83-95 | rows filtered with any filter types, each against the row above, reconstruct to exactly their pixels |
| Raster.DecodeFiltered | png.py:76-95 | round trip: data holding height rows filtered with any types, the first against zeros, decodes to exactly their pixels |
| Filters.PaethPredictor | png.py:123-140 | the result is a, b or c, is nearest to p = a + b - c, and ties go to a, then to b |
| Filters.Back3 | png.py:111 | definition of the byte three positions back, or 0 in the first pixel (also png.py:117, 119); used by Filters.UnfilterSub, Filters.UnfilterAverage and Filters.UnfilterPaeth |
| Filters.Prediction | png.py:101-120 | definition of the value each filter type adds to a byte; Filters.UnfilterAt and Filters.PredictionPrefix state how reconstruction uses it |
| Filters.Recon | png.py:101-120 | n bytes are reconstructed |
| Filters.Unfilter | png.py:97-121 | the row keeps its length |
| Filters.ReconPrefix | png.py:101-120 | a byte once reconstructed is never revisited |
| Filters.UnfilterAt | png.py:101-120 | each reconstructed byte is the filtered byte plus the prediction from the already reconstructed bytes, mod 256 |
| Filters.UnfilterNone | png.py:97-99 | type 0, and any type outside 1..4, returns the row unchanged |
| Filters.UnfilterSub | png.py:101-103 | Sub: the first three bytes are unchanged, later bytes add the reconstructed byte three back, mod 256 |
| Filters.UnfilterUp | png.py:105-107 | Up: every byte adds the byte above, mod 256 |
| Filters.UnfilterAverage | png.py:109-113 | Average: every byte adds the floored mean of the reconstructed left byte (0 in the first pixel) and the byte above, mod 256 |
| Filters.UnfilterPaeth | png.py:115-120 | Paeth: every byte adds the Paeth predictor of left, above and upper-left (0 outside the row), mod 256 |
| Filters.FilterRow | png.py:97-121 | the filtered row keeps its length |
| Filters.UnfilterFilterRow | png.py:97-121 | reconstruction undoes filtering, for every filter type |
| Filters.FilterRowUnfilter | png.py:97-121 | filtering a reconstructed row gives the stored row back, so reconstruction is one-to-one |
| Filters.FilterRowAt | png.py:101-120 | adding the prediction back to a filtered byte restores the raw byte |
| Filters.ReconFiltered | png.py:101-120 | the first n reconstructed bytes of a filtered row are the raw row's |
| Filters.ReconFilteredStep | png.py:101-120 | once the first n - 1 bytes of a filtered row are reconstructed to the raw row's, so are the first n |
| Filters.ReconStep | png.py:101-120 | one step of that induction |
| Filters.ModAddBack | png.py:103 | adding and subtracting the same value mod 256 cancel |
| Filters.PredictionPrefix | png.py:111-119 | the prediction at i reads only the first i bytes of the row |
| PngFile.Png.ApplyFilter | png.py:97-121 | the array afterwards holds Unfilter of its old contents |
| PngFile.Png.UndoSub | png.py:101-103 | the Sub loop leaves the reconstruction of the whole row |
| PngFile.Png.UndoUp | png.py:105-107 | the Up loop leaves the reconstruction of the whole row |
| PngFile.Png.UndoAverage | png.py:109-113 | the Average loop leaves the reconstruction of the whole row |
| PngFile.Png.UndoPaeth | png.py:115-120 | the Paeth loop leaves the reconstruction of the whole row |
| PngFile.ReconSubHead | png.py:102 | Sub leaves the first three bytes as they are |
| PngFile.ReconStepAt | png.py:101-120 | one loop step: byte i is still the filtered byte, and writing filtered byte plus prediction extends the reconstruction by one |
| PngFile.UpdatedAt | png.py:103 | writing one element of the row changes nothing else |
| PngFile.Png.UnfilterScanline | png.py:86-88 | the reconstructed bytes of one scanline are Unfilter of the bytes after its filter byte, under that byte's filter type |
| PngFile.ToArray | png.py:87 | list(row[1:]) is a fresh array with the same bytes |
| Raster.MaskPixel | png.py:155-162 | three bytes: the selected channel kept, the other two 0 |
| Raster.MaskRow | png.py:155-164 | one masked 3-byte pixel per pixel |
| Raster.ValidOption | png.py:143 | definition of the accepted rgb_option values 1, 2 and 3; Writer.SavedPng raises InvalidRgbOption for any other value |
| Raster.MaskImage | png.py:151-164 | definition of the raster with each pixel masked; Raster.DecodeChannelBuffer states that decoding the saved buffer gives it back |
| Raster.EncodeRow | png.py:152-164 | definition of one written scanline; Raster.EncodeRowShape states its length and where each pixel's bytes sit |
| Raster.EncodeRowShape | png.py:151-164 | a scanline of a row of width pixels has 3 * width + 1 bytes: byte 0 is the filter byte 0 and pixel j's bytes are at 1 + 3j |
| Raster.EncodedRowsUniform | png.py:146-164 | every encoded scanline has 3 * width + 1 bytes |
| Raster.ConcatZeroRows | png.py:148 | zero scanlines concatenate to zero bytes |
| Raster.ChannelBuffer | png.py:146-164 | definition of the filled buffer: written rows, then zeros; Raster.ChannelBufferLayout and PngFile.ChannelBufferFill state its layout and that SaveRgb fills exactly it |
| Raster.ChannelBufferLayout | png.py:146-164 | the buffer has height * (3 * width + 1) bytes and splits into the encoded rows followed by zero scanlines |
| Raster.ReconstructUnfiltered | png.py:83-95 | scanlines with filter type 0 reconstruct to exactly their pixels |
| Raster.DecodeUnfiltered | png.py:76-95 | such a buffer decodes to exactly its pixels |
| Raster.ZeroRowPixels | png.py:83-95 | an all-zero scanline is width black pixels |
| Raster.DecodeChannelBuffer | png.py:76-95 | decoding the buffer save_rgb fills appends the masked raster and then black rows up to height |
| PngFile.FilterByte | png.py:152-153 | writing the filter byte 0 over a zero extends the written prefix by 0 |
| PngFile.RowStart | png.py:152-155 | before any pixel, a scanline is its filter byte alone |
| PngFile.PixelStep | png.py:155-164 | writing one masked pixel at the running index extends the written prefix by that pixel |
| PngFile.EncodeRowSnoc | png.py:155-164 | one more pixel extends the row's scanline by its masked triple |
| PngFile.MaskRowSnoc | png.py:155-162 | one more pixel extends the masked row by its masked pixel |
| PngFile.WriteTriple | png.py:157-164 | writing three bytes just after the written prefix extends the prefix by them |
| PngFile.PutTriple | png.py:157-163 | the slice assignment of three bytes changes exactly those three |
| PngFile.FillRow | png.py:151-164 | fails exactly when row k lacks the selected channel; otherwise the index advances by 3 * width + 1 and the buffer holds the scanlines of rows 0..k followed by zeros |
| PngFile.FillChannelBuffer | png.py:146-164 | fails exactly when the raster is not encodable (more rows than height, or a pixel without the selected channel); otherwise the fresh buffer is exactly the channel buffer |
| PngFile.FillPixels | png.py:155-164 | fails exactly when some pixel lacks the selected channel; otherwise the index has advanced 3 per pixel and the buffer holds the row's scanline after the earlier ones |
| PngFile.EncodedRowsSnoc | png.py:151-164 | one more row extends the encoded rows by its scanline |
| PngFile.ChannelBufferFill | png.py:146-164 | the written rows followed by the remaining zeros are the channel buffer |
| PngFile.Png.SaveRgb | png.py:142-176 | the bytes handed to the file write, or the error raised, are SavedPng of the stored raster and header |
| Writer.SavedPng | png.py:142-176 | an option outside {1, 2, 3} raises the option error; more rows than height or a pixel without the channel raises IndexError; success only for an encodable raster |
| Writer.AssemblePng | png.py:170-176 | fails exactly when the compressed data does not fit a 4-byte length; otherwise signature + IHDR (25 bytes) + IDAT + IEND (12 bytes) |
| Writer.AssemblePngReadBack | png.py:170-176 | the assembled file has the signature, its header parses to the written fields, and the walk sees exactly IHDR and the single IDAT chunk |
| Writer.AssembledHeader | png.py:170-174 | the assembled header parses back |
| Writer.AssembledChunks | png.py:170-176 | the walk over the assembled file sees IHDR and IDAT |
| Writer.FrameTwo | png.py:171-175 | IHDR and IDAT are well framed and written one after the other |
| Writer.IdatsOfTwo | png.py:67-74 | of IHDR and IDAT only the IDAT payload is gathered |
| Writer.SavedPngDecodes | png.py:142-176 | round trip: when inflate undoes deflate, reading the saved file appends the masked raster padded with black rows to height, and the header parses to the stored one |
| Header.IhdrPayload | png.py:172-174 | the IHDR payload is 13 bytes |
| Header.ParseHeaderRoundTrip | png.py:170-174 | a stream starting with the signature and an IHDR chunk made by create_chunk parses back to the same header |
| Chunks.CreateChunk | png.py:182-190 | succeeds exactly when the length fits 4 bytes, otherwise LengthOverflow; the chunk has 12 + len(data) bytes |
| Chunks.ChunkAtCreated | png.py:182-190 | a created chunk reads back as its length, type and payload, its last 4 bytes hold the CRC of type and data, and the walk goes on right after it |
| Chunks.FourParts | png.py:190 | each of the four parts of a chunk sits at its own offset |
| Chunks.SliceSplit | png.py:190 | a window holding a + b holds a then b |
| Chunks.ScanFramed | png.py:182-190 | chunks framed by create_chunk and closed by IEND are read back exactly, in order |
| Chunks.ScanFramedAt | png.py:182-190 | the same, for a window starting at any offset |
| Chunks.FramedHead | png.py:182-190 | the first framed chunk reads back, and the rest starts where the walk goes next |
| Chunks.FrameAllCons | png.py:182-190 | the frame of a list is its first chunk's frame followed by the frame of the rest |
| Chunks.ScanCons | png.py:61-74 | a walk step followed by the remaining walk |

## Left out

- File I/O: `load_file` takes the file's contents (or None when it is missing) as a parameter. The `open(...).write` at the end of `save_rgb` is replaced by returning the bytes.
- zlib: `zlib.decompress`, `zlib.compress` and `zlib.crc32` are function parameters. The compression level and the codec itself are not modelled, and a decompression error is `inflate` returning None.
- The CRC of a chunk is never checked when reading. The model reads it nowhere either.
- The unused `import math`.
- Exception messages: each exception is an `Error` value that carries the counts it names, not the message text.
- Writer.SavedPng: requires every row of `img` to hold `width` pixels (`RowsOfWidth`). With longer rows, the bytearray slice assignment of the source grows or shifts the buffer, and this is not modelled. With shorter rows, the later rows drift. Rows as `read_chunks` leaves them always satisfy this (`Raster.RunDecodesShape`).
- PngFile.Png.SaveRgb: requires every row of `img` to hold `width` pixels. With longer rows, the bytearray slice assignment of the source grows or shifts the buffer, and this is not modelled. With shorter rows, the later rows drift. Rows as `read_chunks` leaves them always satisfy this (`Raster.RunDecodesShape`).
- PngFile.Png.SaveRgb: pixel channel values are bytes by type. The ValueError that a value outside 0..255 would raise in the bytearray is not modelled.
- PngFile.Png.ApplyFilter: requires that the previous row be at least as long as the row for the Up, Average and Paeth filters. A shorter one makes the source raise IndexError. `read_chunks` never passes one, since the previous row is either `3 * width` zeros or a full reconstructed scanline.
- Python's list-of-lists raster is a `seq<seq<seq<byte>>>`. Aliasing between `img` and rows handed to a caller is not modelled.
