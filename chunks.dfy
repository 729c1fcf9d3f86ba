/** The PNG byte stream: the 8-byte signature, and chunks framed as
    length (4 bytes, big-endian) ++ type (4 bytes) ++ payload ++ CRC-32
    (4 bytes, big-endian), read by a walk that skips 12 + length bytes
    per chunk. */
module Chunks {
  import opened Bytes

  const SIGNATURE: seq<byte> := [0x89, 0x50, 0x4E, 0x47, 0x0D, 0x0A, 0x1A, 0x0A]
  const IHDR: seq<byte> := [0x49, 0x48, 0x44, 0x52]
  const IDAT: seq<byte> := [0x49, 0x44, 0x41, 0x54]
  const IEND: seq<byte> := [0x49, 0x45, 0x4E, 0x44]

  /** valid_png: the first eight bytes are the PNG signature (a shorter
      input compares unequal). */
  function HasSignature(data: seq<byte>): (ok: bool)
    ensures ok <==> |data| >= 8 && data[..8] == SIGNATURE
  {
    Slice(data, 0, 8) == SIGNATURE
  }

  /** A chunk as the walk sees it: the declared length, and type and
      payload as read by clamped slices (so a payload may be shorter than
      its declared length at the end of the data). */
  datatype Chunk = Chunk(length: nat, chunkType: seq<byte>, payload: seq<byte>)

  function ChunkAt(data: seq<byte>, p: nat): (c: Chunk)
    ensures |c.payload| <= c.length
  {
    var length := BeValue(Slice(data, p, p + 4));
    Chunk(length, Slice(data, p + 4, p + 8), Slice(data, p + 8, p + 8 + length))
  }

  /** Where the walk goes after the chunk at p: past length, type, payload and CRC. */
  function NextChunk(data: seq<byte>, p: nat): nat
  {
    p + 12 + ChunkAt(data, p).length
  }

  /** The chunks the walk visits from offset p, in file order, stopping
      before the first IEND or when p reaches the end of the data. */
  function ScanChunks(data: seq<byte>, p: nat): (cs: seq<Chunk>)
    ensures forall k :: 0 <= k < |cs| ==> cs[k].chunkType != IEND
    decreases |data| - p
  {
    if p >= |data| then []
    else
      var c := ChunkAt(data, p);
      if c.chunkType == IEND then [] else [c] + ScanChunks(data, NextChunk(data, p))
  }

  /** The payloads of the IDAT chunks among cs, in order. */
  function Idats(cs: seq<Chunk>): seq<seq<byte>>
    decreases |cs|
  {
    if cs == [] then []
    else
      var last := cs[|cs| - 1];
      Idats(cs[..|cs| - 1]) + if last.chunkType == IDAT then [last.payload] else []
  }

  /** The walk from p, when it does not stop there. */
  lemma ScanStep(data: seq<byte>, p: nat)
    requires p < |data| && ChunkAt(data, p).chunkType != IEND
    ensures ScanChunks(data, p) == [ChunkAt(data, p)] + ScanChunks(data, NextChunk(data, p))
  {
  }

  /** One more chunk adds its payload when it is an IDAT chunk. */
  lemma IdatsSnoc(cs: seq<Chunk>, c: Chunk)
    ensures Idats(cs + [c]) == Idats(cs) + if c.chunkType == IDAT then [c.payload] else []
  {
    assert (cs + [c])[..|cs|] == cs;
  }

  /** The IDAT payloads of two consecutive stretches of chunks. */
  lemma {:induction false} IdatsAppend(xs: seq<Chunk>, ys: seq<Chunk>)
    ensures Idats(xs + ys) == Idats(xs) + Idats(ys)
    decreases |ys|
  {
    if ys == [] {
      assert xs + ys == xs;
    } else {
      var init := ys[..|ys| - 1];
      assert (xs + ys)[..|xs + ys| - 1] == xs + init;
      IdatsAppend(xs, init);
    }
  }

  /** create_chunk; int.to_bytes raises when the payload length does not fit
      in four bytes. */
  function CreateChunk(chunkType: seq<byte>, payload: seq<byte>, crc32: seq<byte> -> uint32): (r: Result<seq<byte>>)
    ensures r.Ok? <==> |payload| < 0x1_0000_0000
    ensures r.Err? ==> r.error == LengthOverflow
    ensures r.Ok? ==> |r.value| == 8 + |chunkType| + |payload|
  {
    if |payload| < 0x1_0000_0000 then
      Ok(Be4(|payload|) + chunkType + payload + Be4(crc32(chunkType + payload)))
    else Err(LengthOverflow)
  }

  /** A chunk written by CreateChunk, found at offset p of a larger
      stream, reads back as its length, type and payload, its last four
      bytes hold the CRC-32 of type and payload, and the walk continues
      just after them. */
  lemma ChunkAtCreated(data: seq<byte>, p: nat, chunkType: seq<byte>, payload: seq<byte>, crc32: seq<byte> -> uint32)
    requires |chunkType| == 4 && |payload| < 0x1_0000_0000
    requires p + 12 + |payload| <= |data| && data[p..p + 12 + |payload|] == CreateChunk(chunkType, payload, crc32).value
    ensures ChunkAt(data, p) == Chunk(|payload|, chunkType, payload)
    ensures NextChunk(data, p) == p + 12 + |payload|
    ensures BeValue(data[p + 8 + |payload|..p + 12 + |payload|]) == crc32(chunkType + payload)
  {
    var n := |payload|;
    var crc := crc32(chunkType + payload);
    FourParts(data, p, Be4(n), chunkType, payload, Be4(crc));
    BeValueBe4(n);
    BeValueBe4(crc);
  }

  /** A window of the data holding a + b + c + d holds each piece at its
      own offset. */
  lemma FourParts(data: seq<byte>, p: nat, a: seq<byte>, b: seq<byte>, c: seq<byte>, d: seq<byte>)
    requires p + |a + b + c + d| <= |data| && data[p..p + |a + b + c + d|] == a + b + c + d
    ensures data[p..p + |a|] == a
    ensures data[p + |a|..p + |a| + |b|] == b
    ensures data[p + |a| + |b|..p + |a| + |b| + |c|] == c
    ensures data[p + |a| + |b| + |c|..p + |a| + |b| + |c| + |d|] == d
  {
    SliceSplit(data, p, a + b + c, d);
    SliceSplit(data, p, a + b, c);
    SliceSplit(data, p, a, b);
  }

  /** A well-formed chunk: a 4-byte type that is not IEND, and a payload
      whose declared length is its real length. */
  predicate WellFramed(c: Chunk)
  {
    |c.chunkType| == 4 && c.chunkType != IEND && c.length == |c.payload| < 0x1_0000_0000
  }

  /** The bytes CreateChunk writes for each chunk of cs, one after the other. */
  function FrameAll(cs: seq<Chunk>, crc32: seq<byte> -> uint32): (r: seq<byte>)
    requires forall k :: 0 <= k < |cs| ==> WellFramed(cs[k])
    decreases |cs|
  {
    if cs == [] then []
    else
      assert WellFramed(cs[0]);
      CreateChunk(cs[0].chunkType, cs[0].payload, crc32).value + FrameAll(cs[1..], crc32)
  }

  /** The walk inverts the writer: chunks framed by CreateChunk and closed
      by an IEND chunk are read back exactly, in order. */
  lemma ScanFramed(before: seq<byte>, cs: seq<Chunk>, crc32: seq<byte> -> uint32, after: seq<byte>)
    requires forall k :: 0 <= k < |cs| ==> WellFramed(cs[k])
    ensures ScanChunks(before + FrameAll(cs, crc32) + CreateChunk(IEND, [], crc32).value + after, |before|) == cs
  {
    var window := FrameAll(cs, crc32) + CreateChunk(IEND, [], crc32).value;
    var data := before + FrameAll(cs, crc32) + CreateChunk(IEND, [], crc32).value + after;
    assert data[|before|..|before| + |window|] == window;
    ScanFramedAt(data, |before|, cs, crc32);
  }

  /** The same, for a window of the data starting at p. */
  lemma {:induction false} ScanFramedAt(data: seq<byte>, p: nat, cs: seq<Chunk>, crc32: seq<byte> -> uint32)
    requires forall k :: 0 <= k < |cs| ==> WellFramed(cs[k])
    requires var window := FrameAll(cs, crc32) + CreateChunk(IEND, [], crc32).value;
      p + |window| <= |data| && data[p..p + |window|] == window
    ensures ScanChunks(data, p) == cs
    decreases |cs|
  {
    var iend := CreateChunk(IEND, [], crc32).value;
    var window := FrameAll(cs, crc32) + iend;
    if cs == [] {
      assert data[p..p + 12] == iend;
      ChunkAtCreated(data, p, IEND, [], crc32);
    } else {
      var q := p + 12 + |cs[0].payload|;
      var rest := FrameAll(cs[1..], crc32) + iend;
      FrameAllCons(cs, crc32);
      FramedHead(data, p, cs[0], rest, crc32);
      ScanFramedAt(data, q, cs[1..], crc32);
      ScanCons(data, p, q, cs);
    }
  }

  /** A well-framed chunk written at p, followed by rest, reads back, and
      rest starts where the walk goes next. */
  lemma FramedHead(data: seq<byte>, p: nat, c: Chunk, rest: seq<byte>, crc32: seq<byte> -> uint32)
    requires WellFramed(c)
    requires var framed := CreateChunk(c.chunkType, c.payload, crc32).value;
      p + |framed| + |rest| <= |data| && data[p..p + |framed| + |rest|] == framed + rest
    ensures p < |data| && ChunkAt(data, p) == c && NextChunk(data, p) == p + 12 + |c.payload|
    ensures data[p + 12 + |c.payload|..p + 12 + |c.payload| + |rest|] == rest
  {
    var framed := CreateChunk(c.chunkType, c.payload, crc32).value;
    SliceSplit(data, p, framed, rest);
    ChunkAtCreated(data, p, c.chunkType, c.payload, crc32);
  }

  /** The frame of a non-empty list, closed by IEND, is the first chunk's
      frame followed by the closed frame of the others. */
  lemma FrameAllCons(cs: seq<Chunk>, crc32: seq<byte> -> uint32)
    requires cs != [] && forall k :: 0 <= k < |cs| ==> WellFramed(cs[k])
    ensures WellFramed(cs[0]) && forall k :: 0 <= k < |cs[1..]| ==> WellFramed(cs[1..][k])
    ensures |CreateChunk(cs[0].chunkType, cs[0].payload, crc32).value| == 12 + |cs[0].payload|
    ensures FrameAll(cs, crc32) + CreateChunk(IEND, [], crc32).value
         == CreateChunk(cs[0].chunkType, cs[0].payload, crc32).value
          + (FrameAll(cs[1..], crc32) + CreateChunk(IEND, [], crc32).value)
  {
    assert WellFramed(cs[0]);
  }

  /** A window holding a + b holds a at its start and b right after. */
  lemma SliceSplit(data: seq<byte>, p: nat, a: seq<byte>, b: seq<byte>)
    requires p + |a| + |b| <= |data| && data[p..p + |a| + |b|] == a + b
    ensures data[p..p + |a|] == a && data[p + |a|..p + |a| + |b|] == b
  {
    assert data[p..p + |a|] == data[p..p + |a| + |b|][..|a|];
    assert data[p + |a|..p + |a| + |b|] == data[p..p + |a| + |b|][|a|..];
  }

  /** One step of the walk: a chunk other than IEND at p is followed by the
      chunks found from NextChunk. */
  lemma ScanCons(data: seq<byte>, p: nat, q: nat, cs: seq<Chunk>)
    requires cs != [] && p < |data| && ChunkAt(data, p) == cs[0] && cs[0].chunkType != IEND
    requires NextChunk(data, p) == q && ScanChunks(data, q) == cs[1..]
    ensures ScanChunks(data, p) == cs
  {
    assert cs == [cs[0]] + cs[1..];
  }
}
