/** The PNG object of png.py: the raw bytes of a file, the IHDR fields
    read from it and the decoded raster, with the operations that fill
    them in and the one that writes a single-channel copy back. */
module PngFile {
  import opened Bytes
  import opened Filters
  import opened Chunks
  import opened Header
  import opened Raster
  import opened Writer

  class Png {
    var data: seq<byte>
    var info: string
    var width: uint32
    var height: uint32
    var bitDepth: byte
    var colorType: byte
    var compress: byte
    var filter: byte
    var interlace: byte
    var img: seq<Row>

    /** An empty object: no bytes, every header field 0, no rows. */
    constructor ()
      ensures data == [] && info == ""
      ensures width == 0 && height == 0
      ensures bitDepth == 0 && colorType == 0 && compress == 0 && filter == 0 && interlace == 0
      ensures img == []
    {
      data := [];
      info := "";
      width := 0;
      height := 0;
      bitDepth := 0;
      colorType := 0;
      compress := 0;
      filter := 0;
      interlace := 0;
      img := [];
    }

    /** load_file, with the file system replaced by its answer: the bytes
        of the file, or None when it does not exist. */
    method LoadFile(fileName: string, contents: Option<seq<byte>>)
      modifies this`data, this`info
      ensures contents.Some? ==> data == contents.value && info == fileName
      ensures contents.None? ==> data == old(data) && info == "file not found"
    {
      if contents.Some? {
        data := contents.value;
        info := fileName;
      } else {
        info := "file not found";
      }
    }

    /** The header fields as they are stored now. */
    function CurrentHeader(): (h: ImageHeader)
      reads this
    {
      ImageHeader(width, height, bitDepth, colorType, compress, filter, interlace)
    }

    /** read_header: the outcome and the stored fields are those of
        ReadHeaderFields (see ReadHeaderParses for what they mean). */
    method ReadHeader() returns (res: Outcome)
      modifies this`width, this`height, this`bitDepth, this`colorType, this`compress, this`filter, this`interlace
      ensures (res, CurrentHeader()) == ReadHeaderFields(data, old(CurrentHeader()))
    {
      if !HasSignature(data) {
        return Fail(NotPng);
      }
      var ihdr := Slice(data, 8, 33);
      if Slice(ihdr, 4, 8) != IHDR {
        return Fail(NoIhdr);
      }
      BeValueFits(Slice(ihdr, 8, 12));
      BeValueFits(Slice(ihdr, 12, 16));
      width := BeValue(Slice(ihdr, 8, 12));
      height := BeValue(Slice(ihdr, 12, 16));
      if |ihdr| <= 16 {
        return Fail(HeaderTruncated);
      }
      bitDepth := ihdr[16];
      if |ihdr| <= 17 {
        return Fail(HeaderTruncated);
      }
      colorType := ihdr[17];
      if |ihdr| <= 18 {
        return Fail(HeaderTruncated);
      }
      compress := ihdr[18];
      if |ihdr| <= 19 {
        return Fail(HeaderTruncated);
      }
      filter := ihdr[19];
      if |ihdr| <= 20 {
        return Fail(HeaderTruncated);
      }
      interlace := ihdr[20];
      return Pass;
    }

    /** read_chunks: walks the chunks from offset 8 until IEND or the end
        of the data, gathering IDAT payloads; after each IDAT chunk the
        whole gathered data is decoded again and its rows appended to img.
        The outcome and the rows appended are those of RunDecodes over the
        IDAT payloads the walk visits. */
    method ReadChunks(inflate: seq<byte> -> Option<seq<byte>>) returns (res: Outcome)
      modifies this`img
      ensures !HasSignature(data) ==> res == Fail(NotPng) && img == old(img)
      ensures HasSignature(data) ==>
        (res, img) == RunDecodes(Idats(ScanChunks(data, 8)), old(img), width, height, inflate)
    {
      if !HasSignature(data) {
        return Fail(NotPng);
      }
      var bytes := data;
      ghost var start, w, h := img, width, height;
      var pointer := 8;
      var idatData := [];
      ghost var visited: seq<Chunk> := [];
      while pointer < |bytes|
        invariant data == bytes && width == w && height == h
        invariant ScanChunks(bytes, 8) == visited + ScanChunks(bytes, pointer)
        invariant idatData == Concat(Idats(visited))
        invariant (Pass, img) == RunDecodes(Idats(visited), start, w, h, inflate)
        decreases |bytes| - pointer
      {
        var chunk := ChunkAt(bytes, pointer);
        var chunkLength, chunkType, chunkData := chunk.length, chunk.chunkType, chunk.payload;
        ghost var here := pointer;
        pointer := pointer + 12 + chunkLength;
        if chunkType == IDAT {
          idatData := idatData + chunkData;
        } else if chunkType == IEND {
          assert ScanChunks(bytes, here) == [];
          assert ScanChunks(bytes, 8) == visited + [] == visited;
          break;
        } else {
          assert NextChunk(bytes, here) == pointer;
          OtherVisit(bytes, here, pointer, visited, chunk);
          visited := visited + [chunk];
          continue;
        }
        assert NextChunk(bytes, here) == pointer;
        IdatVisit(bytes, here, pointer, visited, chunk, start, w, h, inflate);
        visited := visited + [chunk];
        var decoded := DecodeIdatData(idatData, inflate);
        if decoded.Fail? {
          WalkStops(bytes, visited, pointer, start, w, h, inflate);
          return decoded;
        }
      }
      assert ScanChunks(bytes, 8) == visited + [] == visited;
      return Pass;
    }

    /** The body of read_chunks after an IDAT chunk: decompress all the
        IDAT data gathered so far, split it into scanlines, check their
        number, then reconstruct each against the previous one and append
        its pixels to img. */
    method DecodeIdatData(idatData: seq<byte>, inflate: seq<byte> -> Option<seq<byte>>) returns (res: Outcome)
      modifies this`img
      ensures (res, img) == DecodeImage(idatData, old(img), width, height, inflate)
    {
      var w: nat, h: nat := width, height;
      ghost var goal := DecodeImage(idatData, img, w, h, inflate);
      var decompressed := inflate(idatData);
      if decompressed.None? {
        return Fail(InflateFailed);
      }
      var rowLength := w * 3 + 1;
      var rows := SplitRows(decompressed.value, rowLength);
      if |rows| != h {
        return Fail(RowMismatch(h, |rows|));
      }
      var previous := Zeros(w * 3);
      assert goal == ReconstructRows(rows[0..], previous, img, w);
      var k := 0;
      while k < |rows|
        invariant width == w && height == h
        invariant 0 <= k <= |rows|
        invariant k < |rows| ==> |previous| == 3 * w
        invariant goal == ReconstructRows(rows[k..], previous, img, w)
      {
        var filtered := UnfilterScanline(rows[k], previous);
        var pixels := SplitRows(filtered, 3);
        ReconstructRowsAt(rows, k, previous, img, w);
        if |pixels| != w {
          return Fail(PixelMismatch(w, |pixels|));
        }
        img := img + [pixels];
        previous := filtered;
        k := k + 1;
      }
      assert rows[k..] == [];
      return Pass;
    }

    /** save_rgb, up to the file write: the buffer of height scanlines is
        filled row by row (filter byte 0, then each pixel with only the
        selected channel kept), compressed, and framed as a PNG stream.
        The result is SavedPng of the stored raster and header. */
    method SaveRgb(rgbOption: int, deflate: seq<byte> -> seq<byte>, crc32: seq<byte> -> uint32)
      returns (res: Result<seq<byte>>)
      requires RowsOfWidth(img, width)
      ensures res == SavedPng(img, CurrentHeader(), rgbOption, deflate, crc32)
    {
      if !(rgbOption == 1 || rgbOption == 2 || rgbOption == 3) {
        return Err(InvalidRgbOption);
      }
      var ok, filtered := FillChannelBuffer(img, width, height, rgbOption);
      if !ok {
        return Err(IndexOutOfRange);
      }
      var compressed := deflate(filtered[..]);
      res := AssemblePng(CurrentHeader(), compressed, crc32);
    }

    /** One scanline of read_chunks: its first byte is the filter type,
        and list(row[1:]) is reconstructed in place by apply_filter. */
    method UnfilterScanline(row: seq<byte>, previous: seq<byte>) returns (filtered: seq<byte>)
      requires |row| > 0 && |row| - 1 <= |previous|
      ensures filtered == Unfilter(row[0], row[1..], previous)
    {
      var filterType := row[0];
      var rowData := ToArray(row[1..]);
      ApplyFilter(filterType, rowData, previous);
      filtered := rowData[..];
    }

    /** apply_filter: reconstructs the filtered row in place against the
        previous reconstructed row. Types 1 to 4 undo Sub, Up, Average and
        Paeth; any other type leaves the row as it is. */
    method ApplyFilter(filterType: byte, row: array<byte>, previous: seq<byte>)
      requires UsesPrevious(filterType) ==> row.Length <= |previous|
      modifies row
      ensures row[..] == Unfilter(filterType, old(row[..]), previous)
    {
      if filterType == 1 {
        UndoSub(row, previous);
      } else if filterType == 2 {
        UndoUp(row, previous);
      } else if filterType == 3 {
        UndoAverage(row, previous);
      } else if filterType == 4 {
        UndoPaeth(row, previous);
      }
    }

    /** The Sub branch: every byte from the fourth on gets the
        reconstructed byte three positions back added. */
    method UndoSub(row: array<byte>, previous: seq<byte>)
      modifies row
      ensures row[..] == Recon(1, old(row[..]), previous, row.Length)
    {
      ghost var cur := row[..];
      ReconSubHead(cur, previous, if row.Length < 3 then row.Length else 3);
      var i := 3;
      while i < row.Length
        invariant row.Length < 3 ==> row[..] == cur
        invariant row.Length >= 3 ==> 3 <= i <= row.Length
        invariant row.Length >= 3 ==> row[..i] == Recon(1, cur, previous, i) && row[i..] == cur[i..]
      {
        ReconStepAt(1, cur, previous, row[..], i);
        ghost var before := row[..];
        row[i] := (row[i] as int + row[i - 3]) % 256;
        UpdatedAt(before, row[..], i);
        i := i + 1;
      }
      assert row[..] == row[..row.Length];
    }

    /** The Up branch: every byte gets the byte above it added. */
    method UndoUp(row: array<byte>, previous: seq<byte>)
      requires row.Length <= |previous|
      modifies row
      ensures row[..] == Recon(2, old(row[..]), previous, row.Length)
    {
      ghost var cur := row[..];
      var i := 0;
      while i < row.Length
        invariant 0 <= i <= row.Length
        invariant row[..i] == Recon(2, cur, previous, i) && row[i..] == cur[i..]
      {
        ReconStepAt(2, cur, previous, row[..], i);
        ghost var before := row[..];
        row[i] := (row[i] as int + previous[i]) % 256;
        UpdatedAt(before, row[..], i);
        i := i + 1;
      }
      assert row[..] == row[..row.Length];
    }

    /** The Average branch: every byte gets the floored mean of the
        reconstructed byte to its left (0 in the first pixel) and the byte
        above it added. */
    method UndoAverage(row: array<byte>, previous: seq<byte>)
      requires row.Length <= |previous|
      modifies row
      ensures row[..] == Recon(3, old(row[..]), previous, row.Length)
    {
      ghost var cur := row[..];
      var i := 0;
      while i < row.Length
        invariant 0 <= i <= row.Length
        invariant row[..i] == Recon(3, cur, previous, i) && row[i..] == cur[i..]
      {
        ReconStepAt(3, cur, previous, row[..], i);
        var a: int := if i >= 3 then row[i - 3] else 0;
        var b: int := previous[i];
        ghost var before := row[..];
        row[i] := (row[i] as int + (a + b) / 2) % 256;
        UpdatedAt(before, row[..], i);
        i := i + 1;
      }
      assert row[..] == row[..row.Length];
    }

    /** The Paeth branch: every byte gets the Paeth predictor of its left,
        upper and upper-left neighbours added (0 outside the row). */
    method UndoPaeth(row: array<byte>, previous: seq<byte>)
      requires row.Length <= |previous|
      modifies row
      ensures row[..] == Recon(4, old(row[..]), previous, row.Length)
    {
      ghost var cur := row[..];
      var i := 0;
      while i < row.Length
        invariant 0 <= i <= row.Length
        invariant row[..i] == Recon(4, cur, previous, i) && row[i..] == cur[i..]
      {
        ReconStepAt(4, cur, previous, row[..], i);
        var a: int := if i >= 3 then row[i - 3] else 0;
        var b: int := previous[i];
        var c: int := if i >= 3 then previous[i - 3] else 0;
        assert PaethPredictor(a, b, c) == Prediction(4, row[..], previous, i);
        ghost var before := row[..];
        row[i] := (row[i] as int + PaethPredictor(a, b, c)) % 256;
        UpdatedAt(before, row[..], i);
        i := i + 1;
      }
      assert row[..] == row[..row.Length];
    }
  }

  /** list(s): a fresh array holding the elements of s. */
  method ToArray(s: seq<byte>) returns (a: array<byte>)
    ensures fresh(a) && a[..] == s
  {
    a := new byte[|s|](i requires 0 <= i < |s| => s[i]);
  }

  /** The buffer-filling loop of save_rgb: a zeroed buffer of
      h * (3 * w + 1) bytes, then for each row the filter byte 0 and the
      masked pixels through a running index. An IndexError (more rows
      than h, or a pixel without the selected channel) makes it fail. */
  method FillChannelBuffer(image: seq<Row>, w: nat, h: nat, rgbOption: int) returns (ok: bool, filtered: array<byte>)
    requires ValidOption(rgbOption) && RowsOfWidth(image, w)
    ensures fresh(filtered)
    ensures ok <==> Encodable(image, w, h, rgbOption)
    ensures ok ==> filtered[..] == ChannelBuffer(image, w, h, rgbOption)
  {
    var rowLength := w * 3 + 1;
    filtered := new byte[rowLength * h](_ => 0);
    assert filtered.Length == h * rowLength;
    assert Filled(filtered[..], []);
    var index := 0;
    var k := 0;
    ghost var written: seq<byte> := [];
    while k < |image|
      invariant 0 <= k <= |image| && k <= h && index == k * rowLength
      invariant ChannelsPresent(image[..k], rgbOption)
      invariant written == Concat(EncodedRows(image[..k], rgbOption))
      invariant |written| == index && Filled(filtered[..], written)
    {
      RowBounds(k, h, rowLength);
      if index >= filtered.Length {
        assert !Encodable(image, w, h, rgbOption);
        return false, filtered;
      }
      var filled;
      filled, index := FillRow(filtered, index, image, k, w, rgbOption, written);
      if !filled {
        return false, filtered;
      }
      written := Concat(EncodedRows(image[..k + 1], rgbOption));
      k := k + 1;
    }
    assert image[..k] == image;
    ChannelBufferFill(image, w, h, rgbOption, filtered.Length);
    ok := true;
  }

  /** One row of save_rgb's outer loop: the filter byte 0 at the running
      index, then the row's masked pixels. It fails at the first pixel
      without the selected channel. */
  method FillRow(filtered: array<byte>, index: nat, image: seq<Row>, k: nat, w: nat, rgbOption: int, ghost written: seq<byte>)
    returns (ok: bool, next: nat)
    requires ValidOption(rgbOption) && k < |image| && |image[k]| == w && ChannelsPresent(image[..k], rgbOption)
    requires written == Concat(EncodedRows(image[..k], rgbOption))
    requires index == |written| && index + 3 * w + 1 <= filtered.Length
    requires Filled(filtered[..], written)
    modifies filtered
    ensures ok <==> HasChannel(image[k], rgbOption)
    ensures ok ==> ChannelsPresent(image[..k + 1], rgbOption)
    ensures ok ==> next == index + 3 * w + 1 == |Concat(EncodedRows(image[..k + 1], rgbOption))|
    ensures ok ==> Filled(filtered[..], Concat(EncodedRows(image[..k + 1], rgbOption)))
  {
    ghost var before := filtered[..];
    filtered[index] := 0;
    assert filtered[..] == before;
    FilterByte(before, written);
    ok, next := FillPixels(filtered, index + 1, image[k], rgbOption, written);
    if ok {
      EncodedRowsSnoc(image, k, rgbOption);
    }
  }

  /** The slice assignment filtered_data[index:index + 3] = (a, b, c)
      inside the buffer. */
  method PutTriple(buf: array<byte>, index: nat, a: byte, b: byte, c: byte)
    requires index + 3 <= buf.Length
    modifies buf
    ensures buf[..] == old(buf[..])[index := a][index + 1 := b][index + 2 := c]
  {
    buf[index], buf[index + 1], buf[index + 2] := a, b, c;
  }

  /** The inner loop of save_rgb: each pixel of the row, masked to the
      selected channel, is written three bytes at a time after the row's
      filter byte. It fails, as the IndexError of pixel[option - 1] does,
      at the first pixel without that channel. */
  method FillPixels(filtered: array<byte>, start: nat, row: Row, rgbOption: int, ghost rowStart: seq<byte>)
    returns (ok: bool, next: nat)
    requires ValidOption(rgbOption) && start == |rowStart| + 1 && start + 3 * |row| <= filtered.Length
    requires Filled(filtered[..], rowStart + [0])
    modifies filtered
    ensures ok <==> HasChannel(row, rgbOption)
    ensures ok ==> next == start + 3 * |row| == |rowStart + EncodeRow(row, rgbOption)|
    ensures ok ==> Filled(filtered[..], rowStart + EncodeRow(row, rgbOption))
  {
    RowStart(rowStart, row, rgbOption);
    var index := start;
    var j := 0;
    while j < |row|
      invariant 0 <= j <= |row| && index == start + 3 * j
      invariant HasChannel(row[..j], rgbOption)
      invariant |rowStart + EncodeRow(row[..j], rgbOption)| == index
      invariant Filled(filtered[..], rowStart + EncodeRow(row[..j], rgbOption))
    {
      var pixel := row[j];
      ghost var before := filtered[..];
      if rgbOption == 1 {
        if |pixel| < 1 {
          return false, index;
        }
        PutTriple(filtered, index, pixel[0], 0, 0);
      } else if rgbOption == 2 {
        if |pixel| < 2 {
          return false, index;
        }
        PutTriple(filtered, index, 0, pixel[1], 0);
      } else if rgbOption == 3 {
        if |pixel| < 3 {
          return false, index;
        }
        PutTriple(filtered, index, 0, 0, pixel[2]);
      }
      ghost var v := MaskPixel(pixel, rgbOption);
      assert filtered[..] == before[index := v[0]][index + 1 := v[1]][index + 2 := v[2]];
      PixelStep(before, filtered[..], rowStart, row, j, rgbOption);
      index := index + 3;
      j := j + 1;
    }
    assert row[..j] == row;
    return true, index;
  }

  /** Row k of a buffer of h rows of n bytes starts inside the buffer
      exactly when k < h, and then ends inside it. */
  lemma RowBounds(k: nat, h: nat, n: nat)
    requires n > 0
    ensures k * n < h * n <==> k < h
    ensures k < h ==> k * n + n == (k + 1) * n <= h * n
  {
    MulCancel(k, h, n);
    if k < h {
      MulMono(k + 1, h, n);
    }
  }

  /** The buffer holds prefix, followed by the zeros it was created with. */
  ghost predicate Filled(buf: seq<byte>, prefix: seq<byte>)
  {
    |prefix| <= |buf| && buf == prefix + Zeros(|buf| - |prefix|)
  }

  /** The filter byte 0 that starts a scanline is already in place in a
      zero-filled buffer. */
  lemma FilterByte(buf: seq<byte>, rowStart: seq<byte>)
    requires Filled(buf, rowStart) && |rowStart| < |buf|
    ensures Filled(buf, rowStart + [0])
  {
    assert Zeros(|buf| - |rowStart|) == [0] + Zeros(|buf| - |rowStart| - 1);
  }

  /** Before any pixel, a row's encoding is its filter byte alone. */
  lemma RowStart(rowStart: seq<byte>, row: Row, option: int)
    requires ValidOption(option)
    ensures HasChannel(row[..0], option)
    ensures rowStart + EncodeRow(row[..0], option) == rowStart + [0]
  {
    assert row[..0] == [];
    assert MaskRow(row[..0], option) == [];
  }

  /** Writing pixel j of a row, masked, at the end of the filled prefix
      extends the prefix by that pixel's three bytes. */
  lemma PixelStep(before: seq<byte>, after: seq<byte>, rowStart: seq<byte>, row: Row, j: nat, option: int)
    requires j < |row| && ValidOption(option) && HasChannel(row[..j], option) && option <= |row[j]|
    requires var prefix := rowStart + EncodeRow(row[..j], option);
      Filled(before, prefix) && |prefix| + 3 <= |before|
      && after == before[|prefix| := MaskPixel(row[j], option)[0]]
                        [|prefix| + 1 := MaskPixel(row[j], option)[1]]
                        [|prefix| + 2 := MaskPixel(row[j], option)[2]]
    ensures HasChannel(row[..j + 1], option)
    ensures |EncodeRow(row[..j + 1], option)| == |EncodeRow(row[..j], option)| + 3
    ensures Filled(after, rowStart + EncodeRow(row[..j + 1], option))
  {
    var v := MaskPixel(row[j], option);
    EncodeRowSnoc(row, j, option);
    WriteTriple(before, after, rowStart + EncodeRow(row[..j], option), v);
  }

  /** One more pixel extends the row's encoding by its masked triple. */
  lemma EncodeRowSnoc(row: Row, j: nat, option: int)
    requires j < |row| && ValidOption(option) && HasChannel(row[..j], option) && option <= |row[j]|
    ensures HasChannel(row[..j + 1], option)
    ensures EncodeRow(row[..j + 1], option) == EncodeRow(row[..j], option) + MaskPixel(row[j], option)
  {
    MaskRowSnoc(row, j, option);
    ConcatSnoc(MaskRow(row[..j], option), MaskPixel(row[j], option));
  }

  /** Masking one more pixel appends its masked triple to the masked row. */
  lemma MaskRowSnoc(row: Row, j: nat, option: int)
    requires j < |row| && ValidOption(option) && HasChannel(row[..j], option) && option <= |row[j]|
    ensures HasChannel(row[..j + 1], option)
    ensures MaskRow(row[..j + 1], option) == MaskRow(row[..j], option) + [MaskPixel(row[j], option)]
  {
    assert row[..j + 1] == row[..j] + [row[j]];
  }

  /** Writing three bytes just after the filled prefix extends it by them. */
  lemma WriteTriple(before: seq<byte>, after: seq<byte>, prefix: seq<byte>, v: seq<byte>)
    requires |v| == 3 && Filled(before, prefix) && |prefix| + 3 <= |before|
    requires after == before[|prefix| := v[0]][|prefix| + 1 := v[1]][|prefix| + 2 := v[2]]
    ensures Filled(after, prefix + v)
  {
    var expected := (prefix + v) + Zeros(|before| - |prefix| - 3);
    forall i | 0 <= i < |after|
      ensures after[i] == expected[i]
    {
      if i < |prefix| {
        assert after[i] == before[i];
      } else if i >= |prefix| + 3 {
        assert after[i] == before[i];
      }
    }
  }


  /** One more row of the raster, encoded, extends the encoded rows. */
  lemma EncodedRowsSnoc(img: seq<Row>, k: nat, option: int)
    requires k < |img| && ValidOption(option) && ChannelsPresent(img[..k], option) && HasChannel(img[k], option)
    ensures ChannelsPresent(img[..k + 1], option)
    ensures Concat(EncodedRows(img[..k + 1], option)) == Concat(EncodedRows(img[..k], option)) + EncodeRow(img[k], option)
  {
    assert img[..k + 1] == img[..k] + [img[k]];
    assert EncodedRows(img[..k + 1], option) == EncodedRows(img[..k], option) + [EncodeRow(img[k], option)];
    ConcatSnoc(EncodedRows(img[..k], option), EncodeRow(img[k], option));
  }

  /** The filled buffer is the channel buffer: the encoded rows, then
      zeros up to height scanlines. */
  lemma ChannelBufferFill(img: seq<Row>, width: nat, height: nat, option: int, size: nat)
    requires Encodable(img, width, height, option) && size == (width * 3 + 1) * height
    ensures |img| * (width * 3 + 1) <= size
    ensures Concat(EncodedRows(img, option)) + Zeros(size - |img| * (width * 3 + 1))
         == ChannelBuffer(img, width, height, option)
  {
    var n := width * 3 + 1;
    MulMono(|img|, height, n);
    assert size - |img| * n == (height - |img|) * n;
  }

  /** One step of the walk: a chunk other than IEND at p is the next
      chunk visited, and adds its payload to the IDAT payloads when it is
      an IDAT chunk. */
  lemma VisitChunk(data: seq<byte>, p: nat, visited: seq<Chunk>, chunk: Chunk)
    requires p < |data| && chunk == ChunkAt(data, p) && chunk.chunkType != IEND
    requires ScanChunks(data, 8) == visited + ScanChunks(data, p)
    ensures ScanChunks(data, 8) == (visited + [chunk]) + ScanChunks(data, NextChunk(data, p))
    ensures Idats(visited + [chunk])
         == Idats(visited) + if chunk.chunkType == IDAT then [chunk.payload] else []
  {
    ScanStep(data, p);
    IdatsSnoc(visited, chunk);
  }

  /** Visiting a chunk other than IDAT and IEND: the walk goes on past it
      and the IDAT payloads gathered stay the same. */
  lemma OtherVisit(data: seq<byte>, p: nat, q: nat, visited: seq<Chunk>, chunk: Chunk)
    requires p < |data| && chunk == ChunkAt(data, p) && chunk.chunkType != IDAT && chunk.chunkType != IEND
    requires q == NextChunk(data, p) && ScanChunks(data, 8) == visited + ScanChunks(data, p)
    ensures ScanChunks(data, 8) == (visited + [chunk]) + ScanChunks(data, q)
    ensures Idats(visited + [chunk]) == Idats(visited)
  {
    VisitChunk(data, p, visited, chunk);
  }

  /** Visiting an IDAT chunk: the walk goes on past it, its payload is
      appended to the gathered data, and the decode that follows is the
      next step of RunDecodes. */
  lemma IdatVisit(data: seq<byte>, p: nat, q: nat, visited: seq<Chunk>, c: Chunk, acc: seq<Row>, width: nat, height: nat,
                  inflate: seq<byte> -> Option<seq<byte>>)
    requires p < |data| && c == ChunkAt(data, p) && c.chunkType == IDAT
    requires q == NextChunk(data, p) && ScanChunks(data, 8) == visited + ScanChunks(data, p)
    requires RunDecodes(Idats(visited), acc, width, height, inflate).0.Pass?
    ensures && ScanChunks(data, 8) == (visited + [c]) + ScanChunks(data, q)
      && Concat(Idats(visited + [c])) == Concat(Idats(visited)) + c.payload
      && RunDecodes(Idats(visited + [c]), acc, width, height, inflate)
         == DecodeImage(Concat(Idats(visited)) + c.payload, RunDecodes(Idats(visited), acc, width, height, inflate).1,
                        width, height, inflate)
  {
    assert IDAT[1] != IEND[1];
    VisitChunk(data, p, visited, c);
    ConcatSnoc(Idats(visited), c.payload);
    RunDecodesSnoc(Idats(visited), c.payload, acc, width, height, inflate);
  }

  /** Once a decode has failed, read_chunks returns, and RunDecodes over
      every IDAT chunk of the walk gives that same failure. */
  lemma WalkStops(data: seq<byte>, visited: seq<Chunk>, q: nat, acc: seq<Row>, width: nat, height: nat,
                  inflate: seq<byte> -> Option<seq<byte>>)
    requires ScanChunks(data, 8) == visited + ScanChunks(data, q)
    requires RunDecodes(Idats(visited), acc, width, height, inflate).0.Fail?
    ensures RunDecodes(Idats(ScanChunks(data, 8)), acc, width, height, inflate)
         == RunDecodes(Idats(visited), acc, width, height, inflate)
  {
    IdatsAppend(visited, ScanChunks(data, q));
    RunDecodesStops(Idats(visited), Idats(ScanChunks(data, q)), acc, width, height, inflate);
  }

  /** Writing element i changes only position i. */
  lemma UpdatedAt(before: seq<byte>, after: seq<byte>, i: nat)
    requires i < |before| == |after|
    requires forall j :: 0 <= j < |before| && j != i ==> after[j] == before[j]
    ensures after[..i + 1] == before[..i] + [after[i]]
    ensures after[i + 1..] == before[i + 1..]
  {
  }

  /** Sub adds nothing to the first three bytes of a row. */
  lemma {:induction false} ReconSubHead(current: seq<byte>, previous: seq<byte>, k: nat)
    requires k <= 3 && k <= |current|
    ensures Recon(1, current, previous, k) == current[..k]
  {
    if k > 0 {
      ReconSubHead(current, previous, k - 1);
      assert current[..k] == current[..k - 1] + [current[k - 1]];
    }
  }

  /** One step of the reconstruction loops: with the first i bytes of the
      row reconstructed and the rest untouched, byte i becomes the filtered
      byte plus the prediction from the reconstructed bytes. */
  lemma ReconStepAt(filterType: int, current: seq<byte>, previous: seq<byte>, row: seq<byte>, i: nat)
    requires Reconstructs(filterType) && i < |current| == |row|
    requires UsesPrevious(filterType) ==> |current| <= |previous|
    requires row[..i] == Recon(filterType, current, previous, i) && row[i..] == current[i..]
    ensures row[i] == current[i] && row[i + 1..] == current[i + 1..]
    ensures Prediction(filterType, row[..i], previous, i)
         == Prediction(filterType, row, previous, i)
    ensures Recon(filterType, current, previous, i + 1)
         == row[..i] + [(current[i] + Prediction(filterType, row, previous, i)) % 256]
  {
    assert row[i] == row[i..][0];
    assert row[i + 1..] == row[i..][1..];
    PredictionPrefix(filterType, row[..i], row, previous, i);
  }
}
