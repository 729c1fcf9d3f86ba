/** The file save_rgb produces: the signature, an IHDR chunk carrying the
    stored header fields, one IDAT chunk holding the compressed channel
    buffer and an empty IEND chunk. */
module Writer {
  import opened Bytes
  import opened Chunks
  import opened Header
  import opened Raster

  /** The bytes of the file: four pieces joined in order. Only the IDAT
      payload can be too long for its 4-byte length field. */
  function AssemblePng(h: ImageHeader, compressed: seq<byte>, crc32: seq<byte> -> uint32): (r: Result<seq<byte>>)
    ensures r.Ok? <==> |compressed| < 0x1_0000_0000
    ensures r.Err? ==> r.error == LengthOverflow
    ensures r.Ok? ==> |r.value| == 8 + 25 + (12 + |compressed|) + 12 && r.value[..8] == SIGNATURE
  {
    var ihdr := CreateChunk(IHDR, IhdrPayload(h), crc32);
    var idat := CreateChunk(IDAT, compressed, crc32);
    var iend := CreateChunk(IEND, [], crc32);
    if idat.Err? then Err(LengthOverflow)
    else Ok(SIGNATURE + ihdr.value + idat.value + iend.value)
  }

  /** What save_rgb hands to the file write, or the exception it raises:
      an option outside {1, 2, 3} is refused before anything is written; a
      raster with more rows than the header's height, or a pixel without
      the selected channel, raises an IndexError while the buffer is
      filled. The rows are assumed to hold width pixels each. */
  function SavedPng(img: seq<Row>, h: ImageHeader, option: int,
                    deflate: seq<byte> -> seq<byte>, crc32: seq<byte> -> uint32): (r: Result<seq<byte>>)
    requires RowsOfWidth(img, h.width)
    ensures !ValidOption(option) ==> r == Err(InvalidRgbOption)
    ensures ValidOption(option) && (|img| > h.height || !ChannelsPresent(img, option)) ==> r == Err(IndexOutOfRange)
    ensures r.Ok? ==> Encodable(img, h.width, h.height, option)
  {
    if !ValidOption(option) then Err(InvalidRgbOption)
    else if !Encodable(img, h.width, h.height, option) then Err(IndexOutOfRange)
    else AssemblePng(h, deflate(ChannelBuffer(img, h.width, h.height, option)), crc32)
  }

  /** Reading the assembled file back: the signature is valid, the header
      parses to the fields that were written, and the chunk walk sees
      exactly the IHDR and IDAT chunks, so the only IDAT payload is the
      compressed buffer. */
  lemma AssemblePngReadBack(h: ImageHeader, compressed: seq<byte>, crc32: seq<byte> -> uint32)
    requires |compressed| < 0x1_0000_0000
    ensures var out := AssemblePng(h, compressed, crc32).value;
      && HasSignature(out)
      && ParseHeader(out) == Ok(h)
      && ScanChunks(out, 8) == [Chunk(13, IHDR, IhdrPayload(h)), Chunk(|compressed|, IDAT, compressed)]
      && Idats(ScanChunks(out, 8)) == [compressed]
  {
    AssembledHeader(h, compressed, crc32);
    AssembledChunks(h, compressed, crc32);
    IdatsOfTwo(Chunk(13, IHDR, IhdrPayload(h)), Chunk(|compressed|, IDAT, compressed));
  }

  lemma AssembledHeader(h: ImageHeader, compressed: seq<byte>, crc32: seq<byte> -> uint32)
    requires |compressed| < 0x1_0000_0000
    ensures ParseHeader(AssemblePng(h, compressed, crc32).value) == Ok(h)
  {
    var idat := CreateChunk(IDAT, compressed, crc32).value;
    var iend := CreateChunk(IEND, [], crc32).value;
    assert AssemblePng(h, compressed, crc32).value
        == SIGNATURE + CreateChunk(IHDR, IhdrPayload(h), crc32).value + (idat + iend);
    ParseHeaderRoundTrip(h, crc32, idat + iend);
  }

  lemma AssembledChunks(h: ImageHeader, compressed: seq<byte>, crc32: seq<byte> -> uint32)
    requires |compressed| < 0x1_0000_0000
    ensures ScanChunks(AssemblePng(h, compressed, crc32).value, 8)
         == [Chunk(13, IHDR, IhdrPayload(h)), Chunk(|compressed|, IDAT, compressed)]
  {
    var c0 := Chunk(13, IHDR, IhdrPayload(h));
    var c1 := Chunk(|compressed|, IDAT, compressed);
    var iend := CreateChunk(IEND, [], crc32).value;
    FrameTwo(c0, c1, crc32);
    assert AssemblePng(h, compressed, crc32).value == SIGNATURE + FrameAll([c0, c1], crc32) + iend + [];
    ScanFramed(SIGNATURE, [c0, c1], crc32, []);
  }

  /** The IHDR and IDAT chunks save_rgb writes are well framed and are
      written one after the other. */
  lemma FrameTwo(c0: Chunk, c1: Chunk, crc32: seq<byte> -> uint32)
    requires c0.chunkType == IHDR && c1.chunkType == IDAT
    requires c0.length == |c0.payload| < 0x1_0000_0000 && c1.length == |c1.payload| < 0x1_0000_0000
    ensures WellFramed(c0) && WellFramed(c1)
    ensures FrameAll([c0, c1], crc32)
         == CreateChunk(IHDR, c0.payload, crc32).value + CreateChunk(IDAT, c1.payload, crc32).value
  {
    assert IHDR[1] != IEND[1] && IDAT[1] != IEND[1];
    var cs := [c0, c1];
    assert cs[1..] == [c1] && cs[1..][1..] == [];
    var second := CreateChunk(IDAT, c1.payload, crc32).value;
    assert FrameAll([c1], crc32) == second + FrameAll([], crc32);
    assert FrameAll([c1], crc32) == second;
  }

  lemma IdatsOfTwo(c0: Chunk, c1: Chunk)
    requires c0.chunkType == IHDR && c1.chunkType == IDAT
    ensures Idats([c0, c1]) == [c1.payload]
  {
    assert IHDR[1] != IDAT[1];
    assert [c0][..0] == [];
    assert Idats([c0]) == [];
    assert [c0, c1][..1] == [c0];
  }

  /** The round trip of save_rgb and read_chunks: when the compressor's
      output decompresses to its input, reading the saved file back
      appends the masked raster once, padded with black rows up to the
      header's height. */
  lemma SavedPngDecodes(img: seq<Row>, h: ImageHeader, option: int, acc: seq<Row>,
                        deflate: seq<byte> -> seq<byte>, crc32: seq<byte> -> uint32,
                        inflate: seq<byte> -> Option<seq<byte>>)
    requires Encodable(img, h.width, h.height, option)
    requires var buf := ChannelBuffer(img, h.width, h.height, option);
      |deflate(buf)| < 0x1_0000_0000 && inflate(deflate(buf)) == Some(buf)
    ensures SavedPng(img, h, option, deflate, crc32).Ok?
    ensures var out := SavedPng(img, h, option, deflate, crc32).value;
      && ParseHeader(out) == Ok(h)
      && RunDecodes(Idats(ScanChunks(out, 8)), acc, h.width, h.height, inflate)
         == (Pass, acc + MaskImage(img, option) + BlackRows(h.height - |img|, h.width))
  {
    var compressed := deflate(ChannelBuffer(img, h.width, h.height, option));
    var out := SavedPng(img, h, option, deflate, crc32).value;
    assert out == AssemblePng(h, compressed, crc32).value;
    assert ParseHeader(out) == Ok(h) && Idats(ScanChunks(out, 8)) == [compressed] by {
      AssemblePngReadBack(h, compressed, crc32);
    }
    assert RunDecodes([compressed], acc, h.width, h.height, inflate) == DecodeImage(compressed, acc, h.width, h.height, inflate) by {
      RunDecodesSingle(compressed, acc, h.width, h.height, inflate);
    }
    DecodeChannelBuffer(img, h.width, h.height, option, acc, compressed, inflate);
  }
}
