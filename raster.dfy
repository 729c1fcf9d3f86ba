/** The raster: splitting decompressed IDAT data into scanlines of
    3 * width + 1 bytes, reconstructing each against the previous one and
    grouping the result into RGB pixels; and, in the other direction, the
    unfiltered single-channel buffer save_rgb compresses. */
module Raster {
  import opened Bytes
  import opened Filters

  /** A pixel as read_chunks stores it: the list of its channel bytes
      (three, except possibly in a truncated final row). */
  type Pixel = seq<byte>
  type Row = seq<Pixel>

  /** [s[i:i + n] for i in range(0, len(s), n)]: consecutive slices of n
      elements, the last one possibly shorter. */
  function SplitRows<T>(s: seq<T>, n: nat): (rows: seq<seq<T>>)
    requires n > 0
    ensures |rows| == (|s| + n - 1) / n
    ensures forall k :: 0 <= k < |rows| ==> 0 < |rows[k]| <= n
    ensures forall k :: 0 <= k < |rows| - 1 ==> |rows[k]| == n
    decreases |s|
  {
    if |s| == 0 then
      DivUnique(n - 1, n, 0, n - 1);
      []
    else if |s| <= n then
      DivUnique(|s| + n - 1, n, 1, |s| - 1);
      [s]
    else
      DivPlusOne(|s| - 1, n);
      [s[..n]] + SplitRows(s[n..], n)
  }

  /** Splitting loses and reorders nothing. */
  lemma {:induction false} ConcatSplitRows<T>(s: seq<T>, n: nat)
    requires n > 0
    ensures Concat(SplitRows(s, n)) == s
    decreases |s|
  {
    if |s| > n {
      ConcatSplitRows(s[n..], n);
      ConcatCons(s[..n], SplitRows(s[n..], n));
      assert s == s[..n] + s[n..];
    } else if |s| > 0 {
      assert [s][..0] == [];
    }
  }

  /** Splitting pieces of length n that were concatenated gives the pieces back. */
  lemma {:induction false} SplitRowsConcat<T>(xs: seq<seq<T>>, n: nat)
    requires n > 0
    requires forall k :: 0 <= k < |xs| ==> |xs[k]| == n
    ensures SplitRows(Concat(xs), n) == xs
    decreases |xs|
  {
    if xs != [] {
      ConcatCons(xs[0], xs[1..]);
      assert xs == [xs[0]] + xs[1..];
      var rest := Concat(xs[1..]);
      assert Concat(xs) == xs[0] + rest;
      SplitRowsConcat(xs[1..], n);
      if rest == [] {
        assert Concat(xs) == xs[0];
        ConcatUniformLength(xs[1..], n);
        assert |xs[1..]| == 0;
      } else {
        assert (xs[0] + rest)[..n] == xs[0];
        assert (xs[0] + rest)[n..] == rest;
      }
    }
  }

  /** The rows of one decompressed IDAT buffer, reconstructed in order
      against the previous reconstructed row and appended to img as lists
      of pixels; stops at the first row whose pixel count is not width.
      Only the last row can be shorter than 3 * width + 1 bytes. */
  function ReconstructRows(rows: seq<seq<byte>>, previous: seq<byte>, img: seq<Row>, width: nat): (r: (Outcome, seq<Row>))
    requires forall k :: 0 <= k < |rows| ==> 0 < |rows[k]| <= 3 * width + 1
    requires forall k :: 0 <= k < |rows| - 1 ==> |rows[k]| == 3 * width + 1
    requires rows != [] ==> |previous| == 3 * width
    ensures img <= r.1 && |r.1| <= |img| + |rows|
    ensures forall k :: |img| <= k < |r.1| ==> |r.1[k]| == width
    ensures r.0.Pass? <==> |r.1| == |img| + |rows|
    ensures r.0.Fail? ==> r.0.error.PixelMismatch? && r.0.error.expected == width && r.0.error.actual != width
    decreases |rows|
  {
    if rows == [] then (Pass, img)
    else
      var out := Unfilter(rows[0][0], rows[0][1..], previous);
      var pixels := SplitRows(out, 3);
      if |pixels| != width then (Fail(PixelMismatch(width, |pixels|)), img)
      else ReconstructRows(rows[1..], out, img + [pixels], width)
  }

  /** Reconstructing the rows from index k: row k is unfiltered against
      the previous row and split into pixels; a wrong pixel count stops
      the reconstruction, otherwise the remaining rows follow. */
  lemma ReconstructRowsAt(rows: seq<seq<byte>>, k: nat, previous: seq<byte>, img: seq<Row>, width: nat)
    requires forall j :: 0 <= j < |rows| ==> 0 < |rows[j]| <= 3 * width + 1
    requires forall j :: 0 <= j < |rows| - 1 ==> |rows[j]| == 3 * width + 1
    requires k < |rows| && |previous| == 3 * width
    ensures var out := Unfilter(rows[k][0], rows[k][1..], previous);
      && |out| == |rows[k]| - 1
      && (k + 1 < |rows| ==> |out| == 3 * width)
      && ReconstructRows(rows[k..], previous, img, width)
         == if |SplitRows(out, 3)| != width then (Fail(PixelMismatch(width, |SplitRows(out, 3)|)), img)
            else ReconstructRows(rows[k + 1..], out, img + [SplitRows(out, 3)], width)
  {
    assert rows[k..][0] == rows[k];
    assert rows[k..][1..] == rows[k + 1..];
  }

  /** Appending the head of xs, then its tail, appends xs. */
  lemma AppendHead<T>(acc: seq<T>, xs: seq<T>)
    requires xs != []
    ensures acc + [xs[0]] + xs[1..] == acc + xs
  {
  }

  /** The body of read_chunks run on the IDAT data gathered so far:
      decompress, split into rows of 3 * width + 1 bytes, check the row
      count, then reconstruct and append every row. */
  function DecodeImage(idatData: seq<byte>, img: seq<Row>, width: nat, height: nat,
                       inflate: seq<byte> -> Option<seq<byte>>): (r: (Outcome, seq<Row>))
    ensures img <= r.1
    ensures forall k :: |img| <= k < |r.1| ==> |r.1[k]| == width
    ensures r.0.Pass? ==> |r.1| == |img| + height
    ensures inflate(idatData).None? ==> r == (Fail(InflateFailed), img)
    ensures inflate(idatData).Some? ==>
      var rowCount := (|inflate(idatData).value| + 3 * width) / (3 * width + 1);
      rowCount != height ==> r == (Fail(RowMismatch(height, rowCount)), img)
  {
    match inflate(idatData)
    case None => (Fail(InflateFailed), img)
    case Some(decompressed) =>
      var rows := SplitRows(decompressed, 3 * width + 1);
      if |rows| != height then (Fail(RowMismatch(height, |rows|)), img)
      else ReconstructRows(rows, Zeros(3 * width), img, width)
  }

  /** When the data splits into height scanlines, decoding it is the
      reconstruction of those scanlines from a row of zeros. */
  lemma DecodeImageRows(idatData: seq<byte>, rows: seq<seq<byte>>, img: seq<Row>, width: nat, height: nat,
                        inflate: seq<byte> -> Option<seq<byte>>)
    requires inflate(idatData).Some? && SplitRows(inflate(idatData).value, 3 * width + 1) == rows
    requires |rows| == height
    ensures DecodeImage(idatData, img, width, height, inflate) == ReconstructRows(rows, Zeros(3 * width), img, width)
  {
  }

  /** When the data decompresses to height full scanlines whose
      reconstruction from a row of zeros succeeds, decoding it gives that
      reconstruction. */
  lemma DecodeReconstructed(idatData: seq<byte>, rows: seq<seq<byte>>, acc: seq<Row>, out: seq<Row>,
                            width: nat, height: nat, inflate: seq<byte> -> Option<seq<byte>>)
    requires inflate(idatData) == Some(Concat(rows)) && |rows| == height
    requires forall k :: 0 <= k < |rows| ==> |rows[k]| == 3 * width + 1
    requires ReconstructRows(rows, Zeros(3 * width), acc, width) == (Pass, out)
    ensures DecodeImage(idatData, acc, width, height, inflate) == (Pass, out)
  {
    SplitRowsConcat(rows, 3 * width + 1);
  }

  /** The loop of read_chunks over the IDAT payloads in file order: after
      each one the accumulated data is decoded again and its rows appended
      again; the first failure ends the walk. */
  function RunDecodes(idats: seq<seq<byte>>, img: seq<Row>, width: nat, height: nat,
                      inflate: seq<byte> -> Option<seq<byte>>): (r: (Outcome, seq<Row>))
    ensures img <= r.1
    decreases |idats|
  {
    if idats == [] then (Pass, img)
    else
      var m := |idats| - 1;
      var prior := RunDecodes(idats[..m], img, width, height, inflate);
      if prior.0.Fail? then prior
      else DecodeImage(Concat(idats), prior.1, width, height, inflate)
  }

  /** Every row the walk appends has width pixels, and a walk that ends
      without failure has appended height rows once per IDAT chunk. */
  lemma {:induction false} RunDecodesShape(idats: seq<seq<byte>>, img: seq<Row>, width: nat, height: nat,
                                           inflate: seq<byte> -> Option<seq<byte>>)
    ensures var r := RunDecodes(idats, img, width, height, inflate);
      && (forall k :: |img| <= k < |r.1| ==> |r.1[k]| == width)
      && (r.0.Pass? ==> |r.1| == |img| + |idats| * height)
    decreases |idats|
  {
    if idats != [] {
      var m := |idats| - 1;
      RunDecodesShape(idats[..m], img, width, height, inflate);
      var prior := RunDecodes(idats[..m], img, width, height, inflate);
      if prior.0.Pass? {
        var r := DecodeImage(Concat(idats), prior.1, width, height, inflate);
        MulSucc(m, height);
        assert forall k :: |img| <= k < |prior.1| ==> r.1[k] == prior.1[k];
      }
    }
  }

  /** One more IDAT payload after a successful walk: the gathered data,
      now ending with that payload, is decoded onto the rows so far. */
  lemma RunDecodesSnoc(idats: seq<seq<byte>>, payload: seq<byte>, img: seq<Row>, width: nat, height: nat,
                       inflate: seq<byte> -> Option<seq<byte>>)
    requires RunDecodes(idats, img, width, height, inflate).0.Pass?
    ensures RunDecodes(idats + [payload], img, width, height, inflate)
         == DecodeImage(Concat(idats) + payload, RunDecodes(idats, img, width, height, inflate).1, width, height, inflate)
  {
    assert (idats + [payload])[..|idats|] == idats;
    ConcatSnoc(idats, payload);
  }

  /** Once a decode has failed, later IDAT chunks change nothing. */
  lemma {:induction false} RunDecodesStops(idats: seq<seq<byte>>, more: seq<seq<byte>>, img: seq<Row>,
                                           width: nat, height: nat, inflate: seq<byte> -> Option<seq<byte>>)
    requires RunDecodes(idats, img, width, height, inflate).0.Fail?
    ensures RunDecodes(idats + more, img, width, height, inflate) == RunDecodes(idats, img, width, height, inflate)
    decreases |more|
  {
    if more == [] {
      assert idats + more == idats;
    } else {
      var init := more[..|more| - 1];
      RunDecodesStops(idats, init, img, width, height, inflate);
      assert (idats + more)[..|idats + more| - 1] == idats + init;
    }
  }

  /** With a single IDAT chunk the walk decodes its payload exactly once. */
  lemma RunDecodesSingle(payload: seq<byte>, img: seq<Row>, width: nat, height: nat,
                         inflate: seq<byte> -> Option<seq<byte>>)
    ensures RunDecodes([payload], img, width, height, inflate) == DecodeImage(payload, img, width, height, inflate)
  {
    assert [payload][..0] == [];
    assert RunDecodes([payload][..0], img, width, height, inflate) == (Pass, img);
    assert Concat([payload]) == payload;
  }

  /** A raster save_rgb can encode with the given option without raising:
      at most height rows, each of width pixels, and every pixel has the
      channel the option selects. */
  predicate Encodable(img: seq<Row>, width: nat, height: nat, option: int)
  {
    ValidOption(option) && |img| <= height && RowsOfWidth(img, width) && ChannelsPresent(img, option)
  }

  predicate RowsOfWidth(img: seq<Row>, width: nat)
  {
    forall k :: 0 <= k < |img| ==> |img[k]| == width
  }

  /** Every pixel of the row has at least `option` channels, so the
      channel at index option - 1 exists. */
  predicate HasChannel(row: Row, option: int)
  {
    forall j :: 0 <= j < |row| ==> option <= |row[j]|
  }

  predicate ChannelsPresent(img: seq<Row>, option: int)
  {
    forall k :: 0 <= k < |img| ==> HasChannel(img[k], option)
  }

  /** Every pixel of the row has three channels. */
  predicate RgbRow(row: Row)
  {
    forall j :: 0 <= j < |row| ==> |row[j]| == 3
  }

  predicate ValidOption(option: int)
  {
    option == 1 || option == 2 || option == 3
  }

  /** The pixel save_rgb writes: option 1 keeps red, 2 green, 3 blue, and
      the other two channels become 0. */
  function MaskPixel(px: Pixel, option: int): (r: Pixel)
    requires ValidOption(option) && option <= |px|
    ensures |r| == 3 && forall c :: 0 <= c < 3 ==> r[c] == if c == option - 1 then px[c] else 0
  {
    if option == 1 then [px[0], 0, 0]
    else if option == 2 then [0, px[1], 0]
    else [0, 0, px[2]]
  }

  function MaskRow(row: Row, option: int): (r: Row)
    requires HasChannel(row, option) && ValidOption(option)
    ensures |r| == |row| && RgbRow(r)
  {
    seq(|row|, j requires 0 <= j < |row| => MaskPixel(row[j], option))
  }

  function MaskImage(img: seq<Row>, option: int): seq<Row>
    requires ChannelsPresent(img, option) && ValidOption(option)
  {
    seq(|img|, k requires 0 <= k < |img| => MaskRow(img[k], option))
  }

  /** One scanline as save_rgb writes it: filter byte 0, then the masked pixels. */
  function EncodeRow(row: Row, option: int): (r: seq<byte>)
    requires HasChannel(row, option) && ValidOption(option)
  {
    [0] + Concat(MaskRow(row, option))
  }

  function EncodedRows(img: seq<Row>, option: int): seq<seq<byte>>
    requires ChannelsPresent(img, option) && ValidOption(option)
  {
    seq(|img|, k requires 0 <= k < |img| => EncodeRow(img[k], option))
  }

  /** The preallocated buffer of height * (3 * width + 1) bytes after
      save_rgb has written every row of img into it; rows it has no pixels
      for stay zero. */
  function ChannelBuffer(img: seq<Row>, width: nat, height: nat, option: int): seq<byte>
    requires Encodable(img, width, height, option)
  {
    Concat(EncodedRows(img, option)) + Zeros((height - |img|) * (3 * width + 1))
  }

  lemma EncodeRowShape(row: Row, width: nat, option: int)
    requires |row| == width && HasChannel(row, option) && ValidOption(option)
    ensures |EncodeRow(row, option)| == 3 * width + 1
    ensures EncodeRow(row, option)[0] == 0
    ensures forall j, c :: 0 <= j < width && 0 <= c < 3 ==>
      EncodeRow(row, option)[1 + 3 * j + c] == MaskPixel(row[j], option)[c]
  {
    var pixels := MaskRow(row, option);
    ConcatUniformLength(pixels, 3);
    forall j, c | 0 <= j < width && 0 <= c < 3
      ensures EncodeRow(row, option)[1 + 3 * j + c] == MaskPixel(row[j], option)[c]
    {
      ConcatUniformAt(pixels, 3, j, c);
    }
  }

  lemma EncodedRowsUniform(img: seq<Row>, width: nat, height: nat, option: int)
    requires Encodable(img, width, height, option)
    ensures forall k :: 0 <= k < |img| ==> |EncodedRows(img, option)[k]| == 3 * width + 1
  {
    forall k | 0 <= k < |img|
      ensures |EncodedRows(img, option)[k]| == 3 * width + 1
    {
      EncodeRowShape(img[k], width, option);
    }
  }

  /** An all-zero scanline of n bytes: what the buffer holds for a row
      the raster has no pixels for. */
  function ZeroRows(count: nat, n: nat): seq<seq<byte>>
  {
    seq(count, _ => Zeros(n))
  }

  /** Rows of width black pixels: what an all-zero scanline decodes to. */
  function BlackRows(count: nat, width: nat): seq<Row>
  {
    seq(count, _ => seq(width, _ => Zeros(3)))
  }

  /** count zero pieces of n bytes concatenate to count * n zero bytes. */
  lemma {:induction false} ConcatZeroRows(count: nat, n: nat)
    ensures Concat(ZeroRows(count, n)) == Zeros(count * n)
    decreases count
  {
    if count > 0 {
      assert ZeroRows(count, n)[..count - 1] == ZeroRows(count - 1, n);
      ConcatZeroRows(count - 1, n);
      MulSucc(count - 1, n);
      assert Zeros((count - 1) * n) + Zeros(n) == Zeros(count * n);
    }
  }

  /** The layout of the buffer: split into scanlines of 3 * width + 1
      bytes, as read_chunks splits it, it is the raster's rows as
      EncodeRow writes them followed by all-zero rows up to height. */
  lemma ChannelBufferLayout(img: seq<Row>, width: nat, height: nat, option: int)
    requires Encodable(img, width, height, option)
    ensures var buf := ChannelBuffer(img, width, height, option); var n := 3 * width + 1;
      && |buf| == height * n
      && SplitRows(buf, n) == EncodedRows(img, option) + ZeroRows(height - |img|, n)
  {
    var n := 3 * width + 1;
    var rows := EncodedRows(img, option);
    var blank := ZeroRows(height - |img|, n);
    assert ChannelBuffer(img, width, height, option) == Concat(rows + blank) by {
      ConcatZeroRows(height - |img|, n);
      ConcatAppend(rows, blank);
    }
    assert forall j :: 0 <= j < |rows + blank| ==> |(rows + blank)[j]| == n by {
      EncodedRowsUniform(img, width, height, option);
    }
    ConcatUniformLength(rows + blank, n);
    SplitRowsConcat(rows + blank, n);
  }

  /** Rows stored with filter type 0 in front of the bytes of width RGB
      pixels reconstruct to exactly those pixels, appended in order. */
  lemma {:induction false} ReconstructUnfiltered(rows: seq<seq<byte>>, pix: seq<Row>, previous: seq<byte>,
                                                 acc: seq<Row>, width: nat)
    requires |rows| == |pix|
    requires forall k :: 0 <= k < |rows| ==> |pix[k]| == width && RgbRow(pix[k]) && rows[k] == [0] + Concat(pix[k])
    requires rows != [] ==> |previous| == 3 * width
    ensures forall k :: 0 <= k < |rows| ==> |rows[k]| == 3 * width + 1
    ensures ReconstructRows(rows, previous, acc, width) == (Pass, acc + pix)
    decreases |rows|
  {
    forall k | 0 <= k < |rows|
      ensures |rows[k]| == 3 * width + 1
    {
      ConcatUniformLength(pix[k], 3);
    }
    if rows != [] {
      var out := Concat(pix[0]);
      assert rows[0][1..] == out && rows[0][0] == 0;
      assert SplitRows(out, 3) == pix[0] by {
        SplitRowsConcat(pix[0], 3);
      }
      ReconstructUnfiltered(rows[1..], pix[1..], out, acc + [pix[0]], width);
      AppendHead(acc, pix);
    } else {
      assert acc + pix == acc;
    }
  }

  /** Decoding a buffer made of height rows stored with filter type 0
      appends exactly their pixels. */
  lemma DecodeUnfiltered(idatData: seq<byte>, rows: seq<seq<byte>>, pix: seq<Row>, acc: seq<Row>,
                         width: nat, height: nat, inflate: seq<byte> -> Option<seq<byte>>)
    requires |rows| == |pix| == height
    requires forall k :: 0 <= k < |rows| ==> |pix[k]| == width && RgbRow(pix[k]) && rows[k] == [0] + Concat(pix[k])
    requires inflate(idatData) == Some(Concat(rows))
    ensures DecodeImage(idatData, acc, width, height, inflate) == (Pass, acc + pix)
  {
    ReconstructUnfiltered(rows, pix, Zeros(3 * width), acc, width);
    DecodeReconstructed(idatData, rows, acc, acc + pix, width, height, inflate);
  }

  /** The pixels of an all-zero scanline (filter type 0 and 3 * width zero
      bytes) are width black pixels. */
  lemma ZeroRowPixels(width: nat)
    ensures Zeros(3 * width + 1) == [0] + Concat(seq(width, _ => Zeros(3)))
  {
    var pixels: seq<Pixel> := seq(width, _ => Zeros(3));
    assert pixels == ZeroRows(width, 3);
    ConcatZeroRows(width, 3);
  }

  /** Round trip of the raster: when the compressed data decompresses to
      the buffer save_rgb built, decoding it appends the masked raster,
      followed by black rows for the rows the raster did not have. */
  lemma DecodeChannelBuffer(img: seq<Row>, width: nat, height: nat, option: int, acc: seq<Row>,
                            idatData: seq<byte>, inflate: seq<byte> -> Option<seq<byte>>)
    requires Encodable(img, width, height, option)
    requires inflate(idatData) == Some(ChannelBuffer(img, width, height, option))
    ensures DecodeImage(idatData, acc, width, height, inflate)
         == (Pass, acc + MaskImage(img, option) + BlackRows(height - |img|, width))
  {
    var n := 3 * width + 1;
    var rows := EncodedRows(img, option) + ZeroRows(height - |img|, n);
    var pix := MaskImage(img, option) + BlackRows(height - |img|, width);
    assert ChannelBuffer(img, width, height, option) == Concat(rows) by {
      ConcatZeroRows(height - |img|, n);
      ConcatAppend(EncodedRows(img, option), ZeroRows(height - |img|, n));
    }
    forall k | 0 <= k < |rows|
      ensures |pix[k]| == width && RgbRow(pix[k]) && rows[k] == [0] + Concat(pix[k])
    {
      if k >= |img| {
        ZeroRowPixels(width);
      }
    }
    DecodeUnfiltered(idatData, rows, pix, acc, width, height, inflate);
    assert acc + pix == acc + MaskImage(img, option) + BlackRows(height - |img|, width);
  }

  /** The bytes of each row of 3-byte pixels, 3 * width bytes per row. */
  function RowBytes(pix: seq<Row>, width: nat): (raws: seq<seq<byte>>)
    requires forall k :: 0 <= k < |pix| ==> |pix[k]| == width && RgbRow(pix[k])
    ensures |raws| == |pix| && forall k :: 0 <= k < |raws| ==> |raws[k]| == 3 * width
  {
    forall k | 0 <= k < |pix|
      ensures |Concat(pix[k])| == |pix[k]| * 3
    {
      assert RgbRow(pix[k]);
      ConcatUniformLength(pix[k], 3);
    }
    seq(|pix|, k requires 0 <= k < |pix| => Concat(pix[k]))
  }

  /** The encoder side of the row loop: each row of raw bytes is stored as
      its filter type followed by the row filtered against the raw row
      before it (against `previous` for the first row). */
  function FilterScanlines(types: seq<byte>, raws: seq<seq<byte>>, previous: seq<byte>): (rows: seq<seq<byte>>)
    requires |types| == |raws|
    requires forall k :: 0 <= k < |raws| ==> |raws[k]| == |previous|
    ensures |rows| == |raws| && forall k :: 0 <= k < |rows| ==> |rows[k]| == |previous| + 1
    decreases |raws|
  {
    if raws == [] then []
    else [[types[0]] + FilterRow(types[0], raws[0], previous)] + FilterScanlines(types[1..], raws[1..], raws[0])
  }

  /** The first stored row reconstructs to its raw bytes, which become the
      previous row of the rest. */
  lemma ReconstructFilteredHead(t: byte, px: Row, previous: seq<byte>, rest: seq<seq<byte>>, acc: seq<Row>, width: nat)
    requires |px| == width && RgbRow(px) && |Concat(px)| == 3 * width == |previous|
    requires forall k :: 0 <= k < |rest| ==> |rest[k]| == 3 * width + 1
    ensures ReconstructRows([[t] + FilterRow(t, Concat(px), previous)] + rest, previous, acc, width)
         == ReconstructRows(rest, Concat(px), acc + [px], width)
  {
    var rows := [[t] + FilterRow(t, Concat(px), previous)] + rest;
    assert rows[0][0] == t && rows[0][1..] == FilterRow(t, Concat(px), previous);
    UnfilterFilterRow(t, Concat(px), previous);
    SplitRowsConcat(px, 3);
    assert rows[1..] == rest;
  }

  /** The first of several stored rows reconstructs to its pixels, and
      the others follow against its raw bytes. */
  lemma ReconstructFilteredStep(types: seq<byte>, pix: seq<Row>, previous: seq<byte>, acc: seq<Row>, width: nat)
    requires |types| == |pix| > 0 && |previous| == 3 * width
    requires forall k :: 0 <= k < |pix| ==> |pix[k]| == width && RgbRow(pix[k])
    ensures |Concat(pix[0])| == 3 * width
    ensures ReconstructRows(FilterScanlines(types, RowBytes(pix, width), previous), previous, acc, width)
         == ReconstructRows(FilterScanlines(types[1..], RowBytes(pix[1..], width), Concat(pix[0])), Concat(pix[0]), acc + [pix[0]], width)
  {
    var raws := RowBytes(pix, width);
    assert raws[0] == Concat(pix[0]);
    assert raws[1..] == RowBytes(pix[1..], width);
    var rest := FilterScanlines(types[1..], raws[1..], raws[0]);
    assert FilterScanlines(types, raws, previous) == [[types[0]] + FilterRow(types[0], raws[0], previous)] + rest;
    ReconstructFilteredHead(types[0], pix[0], previous, rest, acc, width);
  }

  /** Rows filtered with any filter types, each against the row above it,
      reconstruct to exactly their pixels: every row is unfiltered against
      the reconstructed row before it, not against the stored bytes. */
  lemma {:induction false} ReconstructFiltered(types: seq<byte>, pix: seq<Row>, previous: seq<byte>, acc: seq<Row>, width: nat)
    requires |types| == |pix| && |previous| == 3 * width
    requires forall k :: 0 <= k < |pix| ==> |pix[k]| == width && RgbRow(pix[k])
    ensures ReconstructRows(FilterScanlines(types, RowBytes(pix, width), previous), previous, acc, width) == (Pass, acc + pix)
    decreases |pix|
  {
    if pix == [] {
      assert acc + pix == acc;
    } else {
      ReconstructFilteredStep(types, pix, previous, acc, width);
      ReconstructFiltered(types[1..], pix[1..], Concat(pix[0]), acc + [pix[0]], width);
      AppendHead(acc, pix);
    }
  }

  /** Decoding height rows filtered with any filter types, the first
      against a row of zeros, appends exactly their pixels. */
  lemma DecodeFiltered(idatData: seq<byte>, types: seq<byte>, pix: seq<Row>, acc: seq<Row>,
                       width: nat, height: nat, inflate: seq<byte> -> Option<seq<byte>>)
    requires |types| == |pix| == height
    requires forall k :: 0 <= k < |pix| ==> |pix[k]| == width && RgbRow(pix[k])
    requires inflate(idatData) == Some(Concat(FilterScanlines(types, RowBytes(pix, width), Zeros(3 * width))))
    ensures DecodeImage(idatData, acc, width, height, inflate) == (Pass, acc + pix)
  {
    ReconstructFiltered(types, pix, Zeros(3 * width), acc, width);
    DecodeReconstructed(idatData, FilterScanlines(types, RowBytes(pix, width), Zeros(3 * width)), acc, acc + pix,
                        width, height, inflate);
  }

  /** The last piece of a concatenation whose other pieces have n elements
      holds what the others leave over. */
  lemma LastPieceLength<T>(xs: seq<seq<T>>, n: nat)
    requires xs != [] && forall k :: 0 <= k < |xs| - 1 ==> |xs[k]| == n
    ensures |xs[|xs| - 1]| == |Concat(xs)| - (|xs| - 1) * n
  {
    var m := |xs| - 1;
    assert forall k :: 0 <= k < m ==> |xs[..m][k]| == n;
    ConcatUniformLength(xs[..m], n);
  }

  /** Scanlines of at least 3 * width - 1 bytes, filter byte included,
      always give width pixels, so the pixel check never fails on them. */
  lemma {:induction false} ReconstructRowsLong(rows: seq<seq<byte>>, previous: seq<byte>, img: seq<Row>, width: nat)
    requires width > 0
    requires forall k :: 0 <= k < |rows| ==> 3 * width - 1 <= |rows[k]| <= 3 * width + 1
    requires forall k :: 0 <= k < |rows| - 1 ==> |rows[k]| == 3 * width + 1
    requires rows != [] ==> |previous| == 3 * width
    ensures ReconstructRows(rows, previous, img, width).0.Pass?
    decreases |rows|
  {
    if rows != [] {
      var out := Unfilter(rows[0][0], rows[0][1..], previous);
      DivUnique(|out| + 2, 3, width, |out| + 2 - 3 * width);
      ReconstructRowsLong(rows[1..], out, img + [SplitRows(out, 3)], width);
    }
  }

  /** Each appended row holds the bytes of its scanline after the filter
      byte, in pixels of three bytes except possibly the last. */
  lemma {:induction false} ReconstructRowsPixels(rows: seq<seq<byte>>, previous: seq<byte>, img: seq<Row>, width: nat)
    requires forall k :: 0 <= k < |rows| ==> 0 < |rows[k]| <= 3 * width + 1
    requires forall k :: 0 <= k < |rows| - 1 ==> |rows[k]| == 3 * width + 1
    requires rows != [] ==> |previous| == 3 * width
    ensures var r := ReconstructRows(rows, previous, img, width);
      && (forall k :: |img| <= k < |r.1| ==> |Concat(r.1[k])| == |rows[k - |img|]| - 1)
      && (forall k, j :: |img| <= k < |r.1| && 0 <= j < |r.1[k]| - 1 ==> |r.1[k][j]| == 3)
    decreases |rows|
  {
    if rows != [] {
      var out := Unfilter(rows[0][0], rows[0][1..], previous);
      var pixels := SplitRows(out, 3);
      if |pixels| == width {
        var next := img + [pixels];
        ReconstructRowsPixels(rows[1..], out, next, width);
        var r := ReconstructRows(rows, previous, img, width);
        assert r == ReconstructRows(rows[1..], out, next, width);
        assert r.1[|img|] == pixels;
        ConcatSplitRows(out, 3);
        forall k | |img| + 1 <= k < |r.1|
          ensures |Concat(r.1[k])| == |rows[k - |img|]| - 1
        {
          assert rows[1..][k - |next|] == rows[k - |img|];
        }
      }
    }
  }

  /** Data of height * (3 * width + 1) - 1 or - 2 bytes splits into height
      scanlines, the last one holding 3 * width - 1 or 3 * width bytes. */
  lemma ShortSplit(d: seq<byte>, width: nat, height: nat)
    requires width > 0 && height > 0
    requires height * (3 * width + 1) - 2 <= |d| < height * (3 * width + 1)
    ensures var rows := SplitRows(d, 3 * width + 1);
      |rows| == height && 3 * width - 1 <= |rows[height - 1]| <= 3 * width
  {
    var n := 3 * width + 1;
    var rows := SplitRows(d, n);
    MulSucc(height - 1, n);
    DivUnique(|d| + n - 1, n, height, |d| + n - 1 - height * n);
    ConcatSplitRows(d, n);
    LastPieceLength(rows, n);
  }

  /** The source accepts a final scanline one or two bytes short: decoded
      data of height * (3 * width + 1) - 1 or - 2 bytes passes the row count
      check and the pixel check, and the last pixel stored has fewer than
      three channels. */
  lemma ShortFinalRowAccepted(idatData: seq<byte>, acc: seq<Row>, width: nat, height: nat,
                              inflate: seq<byte> -> Option<seq<byte>>)
    requires width > 0 && height > 0 && inflate(idatData).Some?
    requires height * (3 * width + 1) - 2 <= |inflate(idatData).value| < height * (3 * width + 1)
    ensures var r := DecodeImage(idatData, acc, width, height, inflate);
      && r.0.Pass? && |r.1| == |acc| + height
      && |r.1[|r.1| - 1]| == width && |r.1[|r.1| - 1][width - 1]| < 3
  {
    var d := inflate(idatData).value;
    var rows := SplitRows(d, 3 * width + 1);
    ShortSplit(d, width, height);
    ReconstructRowsLong(rows, Zeros(3 * width), acc, width);
    ReconstructRowsPixels(rows, Zeros(3 * width), acc, width);
    DecodeImageRows(idatData, rows, acc, width, height, inflate);
    var r := DecodeImage(idatData, acc, width, height, inflate);
    var last := r.1[|r.1| - 1];
    assert |Concat(last)| == |rows[height - 1]| - 1;
    LastPieceLength(last, 3);
  }
}
