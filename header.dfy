/** The IHDR chunk: read from a fixed 25-byte window at offset 8 (its
    length field is not consulted), written as a 13-byte payload. */
module Header {
  import opened Bytes
  import opened Chunks

  datatype ImageHeader = ImageHeader(width: uint32, height: uint32, bitDepth: byte, colorType: byte,
                                     compress: byte, filter: byte, interlace: byte)

  /** What read_header stores on success, or the exception it raises. The
      IHDR tag is compared at bytes 12..16; width and height are the
      big-endian values of bytes 16..20 and 20..24, the five single-byte
      fields are bytes 24..28, and a stream too short to hold byte 28
      fails with an IndexError. */
  function ParseHeader(data: seq<byte>): (r: Result<ImageHeader>)
    ensures r.Ok? <==> HasSignature(data) && |data| >= 29 && data[12..16] == IHDR
    ensures !HasSignature(data) ==> r == Err(NotPng)
    ensures HasSignature(data) && Slice(data, 12, 16) != IHDR ==> r == Err(NoIhdr)
    ensures HasSignature(data) && Slice(data, 12, 16) == IHDR && |data| < 29 ==> r == Err(HeaderTruncated)
    ensures r.Ok? ==>
      && r.value.width == BeValue(data[16..20]) && r.value.height == BeValue(data[20..24])
      && [r.value.bitDepth, r.value.colorType, r.value.compress, r.value.filter, r.value.interlace] == data[24..29]
  {
    if !HasSignature(data) then Err(NotPng)
    else if Slice(data, 12, 16) != IHDR then Err(NoIhdr)
    else if |data| < 29 then Err(HeaderTruncated)
    else
      BeValueFits(data[16..20]);
      BeValueFits(data[20..24]);
      Ok(ImageHeader(BeValue(data[16..20]), BeValue(data[20..24]),
                     data[24], data[25], data[26], data[27], data[28]))
  }

  /** The outcome of read_header and the fields it leaves behind,
      starting from the header h stored before the call. The 25 bytes from
      offset 8 are taken as the IHDR chunk; width and height are stored
      before the single-byte fields are indexed, and an index past the end
      of the data raises IndexError with the earlier fields already
      stored. */
  function ReadHeaderFields(data: seq<byte>, h: ImageHeader): (r: (Outcome, ImageHeader))
    ensures r.0.Fail? && r.0.error != HeaderTruncated ==> r.1 == h
  {
    if !HasSignature(data) then (Fail(NotPng), h)
    else
      var ihdr := Slice(data, 8, 33);
      if Slice(ihdr, 4, 8) != IHDR then (Fail(NoIhdr), h)
      else
        BeValueFits(Slice(ihdr, 8, 12));
        BeValueFits(Slice(ihdr, 12, 16));
        var h1 := h.(width := BeValue(Slice(ihdr, 8, 12)), height := BeValue(Slice(ihdr, 12, 16)));
        if |ihdr| <= 16 then (Fail(HeaderTruncated), h1)
        else
          var h2 := h1.(bitDepth := ihdr[16]);
          if |ihdr| <= 17 then (Fail(HeaderTruncated), h2)
          else
            var h3 := h2.(colorType := ihdr[17]);
            if |ihdr| <= 18 then (Fail(HeaderTruncated), h3)
            else
              var h4 := h3.(compress := ihdr[18]);
              if |ihdr| <= 19 then (Fail(HeaderTruncated), h4)
              else
                var h5 := h4.(filter := ihdr[19]);
                if |ihdr| <= 20 then (Fail(HeaderTruncated), h5)
                else (Pass, h5.(interlace := ihdr[20]))
  }

  /** read_header succeeds exactly when ParseHeader does and then stores
      what ParseHeader reads; otherwise it raises the same exception. On an
      IndexError, width and height hold the values of whatever is left of
      bytes 16..20 and 20..24, each single-byte field the data reaches
      holds its byte, and the rest keep their old values. */
  lemma ReadHeaderParses(data: seq<byte>, h: ImageHeader)
    ensures var r := ReadHeaderFields(data, h);
      && (r.0.Pass? <==> ParseHeader(data).Ok?)
      && (r.0.Pass? ==> r.1 == ParseHeader(data).value)
      && (r.0.Fail? ==> r.0.error == ParseHeader(data).error)
    ensures var r := ReadHeaderFields(data, h);
      r.0 == Fail(HeaderTruncated) ==>
        && r.1.width == BeValue(Slice(data, 16, 20)) && r.1.height == BeValue(Slice(data, 20, 24))
        && r.1.bitDepth == (if |data| > 24 then data[24] else h.bitDepth)
        && r.1.colorType == (if |data| > 25 then data[25] else h.colorType)
        && r.1.compress == (if |data| > 26 then data[26] else h.compress)
        && r.1.filter == (if |data| > 27 then data[27] else h.filter)
        && r.1.interlace == h.interlace
  {
    SliceOfSlice(data, 8, 33, 4, 8);
    SliceOfSlice(data, 8, 33, 8, 12);
    SliceOfSlice(data, 8, 33, 12, 16);
    if |data| >= 29 {
      assert data[16..20] == Slice(data, 16, 20) && data[20..24] == Slice(data, 20, 24);
    }
  }

  /** The IHDR payload save_rgb writes: width and height as four big-endian
      bytes each, then the five single-byte fields. */
  function IhdrPayload(h: ImageHeader): (r: seq<byte>)
    ensures |r| == 13
  {
    Be4(h.width) + Be4(h.height) + [h.bitDepth, h.colorType, h.compress, h.filter, h.interlace]
  }

  /** A stream that starts with the signature and an IHDR chunk written by
      CreateChunk parses back to the same header. */
  lemma ParseHeaderRoundTrip(h: ImageHeader, crc32: seq<byte> -> uint32, rest: seq<byte>)
    ensures ParseHeader(SIGNATURE + CreateChunk(IHDR, IhdrPayload(h), crc32).value + rest) == Ok(h)
  {
    var payload := IhdrPayload(h);
    var data := SIGNATURE + CreateChunk(IHDR, payload, crc32).value + rest;
    assert data[..8] == SIGNATURE;
    assert data[12..16] == IHDR;
    assert data[16..20] == Be4(h.width);
    assert data[20..24] == Be4(h.height);
    BeValueBe4(h.width);
    BeValueBe4(h.height);
    assert data[24..29] == payload[8..13];
  }
}
