/** The chunk level of a PNG file: what the two walks read, and the whole path from a
    file to the statistics of its image. */
module PngFiles {
  import opened LuaValues
  import opened PngFilters
  import opened PngStats

  type Bytes = seq<Byte>

  const SIGNATURE: Bytes := [0x89, 0x50, 0x4E, 0x47, 0x0D, 0x0A, 0x1A, 0x0A]
  const IHDR: Bytes := [0x49, 0x48, 0x44, 0x52]
  const IDAT: Bytes := [0x49, 0x44, 0x41, 0x54]
  const IEND: Bytes := [0x49, 0x45, 0x4E, 0x44]

  datatype Chunk = Chunk(kind: Bytes, data: Bytes, crc: Bytes)

  /** The last header seen and the concatenated image data. */
  datatype Walked = Walked(header: Option<Bytes>, compressed: Bytes)

  // ----------------------------------------------------------------------------- integers

  function Join(high: nat, low: nat): nat {
    high * 256 + low
  }

  /** Four bytes, most significant first. */
  function Unpack(b: Bytes): nat
    requires |b| == 4
  {
    Join(Join(Join(b[0], b[1]), b[2]), b[3])
  }

  function Pack(n: nat): (b: Bytes)
    requires n < 0x1_0000_0000
    ensures |b| == 4
  {
    TopByte(n);
    [n / 256 / 256 / 256, n / 256 / 256 % 256, n / 256 % 256, n % 256]
  }

  lemma TopByte(n: nat)
    requires n < 0x1_0000_0000
    ensures n / 256 / 256 / 256 < 256
  {
  }

  /** The number four bytes stand for, the most significant first. */
  lemma UnpackIsBigEndian(b: Bytes)
    requires |b| == 4
    ensures var w: int, x: int, y: int, z: int := b[0], b[1], b[2], b[3];
            Unpack(b) == w * 16777216 + x * 65536 + y * 256 + z
  {
  }

  lemma UnpackPack(n: nat)
    requires n < 0x1_0000_0000
    ensures Unpack(Pack(n)) == n
  {
    var a := n / 256;
    var b := a / 256;
    assert n == a * 256 + n % 256 && a == b * 256 + a % 256 && b == (b / 256) * 256 + b % 256;
  }

  lemma PackUnpack(b: Bytes)
    requires |b| == 4
    ensures Unpack(b) < 0x1_0000_0000 && Pack(Unpack(b)) == b
  {
    var high := Join(b[0], b[1]);
    var mid := Join(high, b[2]);
    assert Unpack(b) / 256 == mid && Unpack(b) % 256 == b[3];
    assert mid / 256 == high && mid % 256 == b[2];
    assert high / 256 == b[0] && high % 256 == b[1];
  }

  // ------------------------------------------------------------------------------- chunks

  ghost predicate ChunkOk(c: Chunk) {
    |c.kind| == 4 && |c.crc| == 4 && |c.data| < 0x1_0000_0000
  }

  ghost predicate ChunksOk(chunks: seq<Chunk>) {
    forall i | 0 <= i < |chunks| :: ChunkOk(chunks[i])
  }

  function Encoded(c: Chunk): Bytes
    requires |c.data| < 0x1_0000_0000
  {
    Pack(|c.data|) + c.kind + c.data + c.crc
  }

  function EncodedAll(chunks: seq<Chunk>): Bytes
    requires forall i | 0 <= i < |chunks| :: |chunks[i].data| < 0x1_0000_0000
  {
    if chunks == [] then [] else Encoded(chunks[0]) + EncodedAll(chunks[1..])
  }

  /** The length, type and data fields at the front of the bytes. */
  lemma FieldsOf(c: Chunk, rest: Bytes)
    requires ChunkOk(c)
    ensures var bytes := Encoded(c) + rest;
            && |bytes| >= 12 + |c.data|
            && Unpack(bytes[..4]) == |c.data| && bytes[4..8] == c.kind
            && bytes[8..8 + |c.data|] == c.data && bytes[8 + |c.data|..12 + |c.data|] == c.crc
            && bytes[12 + |c.data|..] == rest
  {
    UnpackPack(|c.data|);
    Pieces(Pack(|c.data|), c.kind, c.data, c.crc, rest);
  }

  lemma Pieces(a: Bytes, b: Bytes, c: Bytes, d: Bytes, e: Bytes)
    requires |a| == |b| == |d| == 4
    ensures var bytes := a + b + c + d + e;
            && bytes[..4] == a && bytes[4..8] == b && bytes[8..8 + |c|] == c
            && bytes[8 + |c|..12 + |c|] == d && bytes[12 + |c|..] == e
  {
  }

  lemma CutAt(bytes: Bytes, from: nat, to: nat)
    requires from <= to <= |bytes|
    ensures bytes[..from] + bytes[from..to] == bytes[..to]
    ensures bytes[..to] + bytes[to..] == bytes
  {
  }

  /** Bytes that hold a whole chunk at their front are its encoding and the rest. */
  lemma FrontChunk(bytes: Bytes)
    requires |bytes| >= 12 && |bytes| >= 12 + Unpack(bytes[..4])
    ensures var n := Unpack(bytes[..4]);
            var c := Chunk(bytes[4..8], bytes[8..8 + n], bytes[8 + n..12 + n]);
            ChunkOk(c) && bytes == Encoded(c) + bytes[12 + n..]
  {
    PackUnpack(bytes[..4]);
    var n := Unpack(bytes[..4]);
    CutAt(bytes, 4, 8);
    CutAt(bytes, 8, 8 + n);
    CutAt(bytes, 8 + n, 12 + n);
    assert bytes == bytes[..4] + bytes[4..];
  }

  // ------------------------------------------------------------------- the statistics walk

  /** What the walk makes of a chunk list: the last header, all image data up to the end
      chunk; a header of the wrong size fails it. */
  function ReadChunks(chunks: seq<Chunk>, w: Walked): Option<Walked> {
    if chunks == [] then Some(w)
    else
      var c, later := chunks[0], chunks[1..];
      if c.kind == IHDR then (if |c.data| != 13 then None else ReadChunks(later, w.(header := Some(c.data))))
      else if c.kind == IDAT then ReadChunks(later, w.(compressed := w.compressed + c.data))
      else if c.kind == IEND then Some(w)
      else ReadChunks(later, w)
  }

  /** The chunk loop of `png_rgba_alpha_stats` on the bytes still ahead. */
  function WalkFrom(rest: Bytes, w: Walked): Option<Walked>
    decreases |rest|
  {
    if |rest| < 12 then Some(w)
    else
      var n := Unpack(rest[..4]);
      if 12 + n > |rest| then None
      else
        var kind, data, later := rest[4..8], rest[8..8 + n], rest[12 + n..];
        if kind == IHDR then (if n != 13 then None else WalkFrom(later, w.(header := Some(data))))
        else if kind == IDAT then WalkFrom(later, w.(compressed := w.compressed + data))
        else if kind == IEND then Some(w)
        else WalkFrom(later, w)
  }

  /** The walk reads back any chunk list, whatever follows its end chunk. */
  lemma {:induction false} WalkReadsChunks(chunks: seq<Chunk>, tail: Bytes, w: Walked)
    requires ChunksOk(chunks)
    requires |tail| < 12 || exists i :: 0 <= i < |chunks| && chunks[i].kind == IEND
    ensures WalkFrom(EncodedAll(chunks) + tail, w) == ReadChunks(chunks, w)
    decreases |chunks|
  {
    if chunks == [] {
      assert EncodedAll(chunks) + tail == tail;
    } else {
      var c, later := chunks[0], chunks[1..];
      var rest := EncodedAll(later) + tail;
      assert EncodedAll(chunks) + tail == Encoded(c) + rest;
      FieldsOf(c, rest);
      if c.kind != IEND {
        assert |tail| < 12 || exists i :: 0 <= i < |later| && later[i].kind == IEND by {
          if i :| 0 <= i < |chunks| && chunks[i].kind == IEND {
            assert later[i - 1] == chunks[i];
          }
        }
        forall next: Walked ensures WalkFrom(rest, next) == ReadChunks(later, next) {
          WalkReadsChunks(later, tail, next);
        }
      }
    }
  }

  method Walk(payload: Bytes) returns (r: Option<Walked>)
    requires |payload| >= 8
    ensures r == WalkFrom(payload[8..], Walked(None, []))
  {
    var offset := 8;
    var w := Walked(None, []);
    while offset + 12 <= |payload|
      invariant 8 <= offset <= |payload|
      invariant WalkFrom(payload[offset..], w) == WalkFrom(payload[8..], Walked(None, []))
      decreases |payload| - offset
    {
      ghost var rest := payload[offset..];
      var length := Unpack(payload[offset..offset + 4]);
      assert rest[..4] == payload[offset..offset + 4];
      var chunkEnd := offset + 12 + length;
      if chunkEnd > |payload| {
        return None;
      }
      var kind := payload[offset + 4..offset + 8];
      var chunk := payload[offset + 8..offset + 8 + length];
      assert rest[4..8] == kind && rest[8..8 + length] == chunk && rest[12 + length..] == payload[chunkEnd..];
      if kind == IHDR {
        if length != 13 {
          return None;
        }
        w := w.(header := Some(chunk));
      } else if kind == IDAT {
        w := w.(compressed := w.compressed + chunk);
      } else if kind == IEND {
        return Some(w);
      }
      offset := chunkEnd;
    }
    r := Some(w);
  }

  // -------------------------------------------------------------------- the chunk type walk

  /** `png_chunk_types` past the signature. */
  function TypesFrom(rest: Bytes): Option<seq<Bytes>>
    decreases |rest|
  {
    if |rest| < 8 || |rest| < 12 + Unpack(rest[..4]) then None
    else if rest[4..8] == IEND then Some([IEND])
    else
      var later := TypesFrom(rest[12 + Unpack(rest[..4])..]);
      if later.None? then None else Some([rest[4..8]] + later.value)
  }

  function Kinds(chunks: seq<Chunk>): seq<Bytes> {
    seq(|chunks|, i requires 0 <= i < |chunks| => chunks[i].kind)
  }

  /** The list ends with its only end chunk. */
  ghost predicate EndsOnce(chunks: seq<Chunk>) {
    && chunks != [] && chunks[|chunks| - 1].kind == IEND
    && forall i | 0 <= i < |chunks| - 1 :: chunks[i].kind != IEND
  }

  lemma EncodedFirst(c: Chunk, later: seq<Chunk>, tail: Bytes)
    requires ChunkOk(c) && ChunksOk(later)
    ensures EncodedAll([c] + later) + tail == Encoded(c) + (EncodedAll(later) + tail)
    ensures Kinds([c] + later) == [c.kind] + Kinds(later)
  {
    assert ([c] + later)[1..] == later;
  }

  lemma EndsOnceFirst(c: Chunk, later: seq<Chunk>)
    ensures EndsOnce([c] + later) <==> if later == [] then c.kind == IEND else c.kind != IEND && EndsOnce(later)
  {
    var chunks := [c] + later;
    if later != [] {
      assert chunks[|chunks| - 1] == later[|later| - 1];
      if EndsOnce(chunks) {
        assert chunks[0].kind != IEND;
        assert forall i | 0 <= i < |later| - 1 :: later[i] == chunks[i + 1];
      }
      if c.kind != IEND && EndsOnce(later) {
        assert forall i | 0 < i < |chunks| - 1 :: chunks[i] == later[i - 1];
      }
    }
  }

  /** What the walk over types makes of the chunk in front. */
  lemma TypesOfFirst(c: Chunk, rest: Bytes)
    requires ChunkOk(c)
    ensures var later := TypesFrom(rest);
            TypesFrom(Encoded(c) + rest)
            == if c.kind == IEND then Some([IEND]) else if later.None? then None else Some([c.kind] + later.value)
  {
    FieldsOf(c, rest);
  }

  lemma {:induction false} TypesOfChunks(chunks: seq<Chunk>, tail: Bytes)
    requires ChunksOk(chunks) && EndsOnce(chunks)
    ensures TypesFrom(EncodedAll(chunks) + tail) == Some(Kinds(chunks))
  {
    var c, later := chunks[0], chunks[1..];
    assert chunks == [c] + later;
    EncodedFirst(c, later, tail);
    EndsOnceFirst(c, later);
    TypesOfFirst(c, EncodedAll(later) + tail);
    if later == [] {
      assert Kinds(chunks) == [IEND];
    } else {
      TypesOfChunks(later, tail);
    }
  }

  lemma {:induction false} ChunksOfTypes(rest: Bytes) returns (chunks: seq<Chunk>, tail: Bytes)
    requires TypesFrom(rest).Some?
    ensures ChunksOk(chunks) && EndsOnce(chunks) && rest == EncodedAll(chunks) + tail
    decreases |rest|
  {
    var n := Unpack(rest[..4]);
    var c := Chunk(rest[4..8], rest[8..8 + n], rest[8 + n..12 + n]);
    var later: seq<Chunk>;
    FrontChunk(rest);
    if c.kind == IEND {
      later, tail := [], rest[12 + n..];
      assert EncodedAll(later) + tail == tail;
    } else {
      later, tail := ChunksOfTypes(rest[12 + n..]);
    }
    chunks := [c] + later;
    EncodedFirst(c, later, tail);
    EndsOnceFirst(c, later);
  }

  /** The chunk types are reported exactly for the bytes that start with a sequence of
      whole chunks closed by its first end chunk. */
  lemma TypesExactly(rest: Bytes)
    ensures TypesFrom(rest).Some? <==>
            exists chunks, tail :: ChunksOk(chunks) && EndsOnce(chunks) && rest == EncodedAll(chunks) + tail
  {
    if TypesFrom(rest).Some? {
      var chunks, tail := ChunksOfTypes(rest);
    }
    if chunks, tail :| ChunksOk(chunks) && EndsOnce(chunks) && rest == EncodedAll(chunks) + tail {
      TypesOfChunks(chunks, tail);
    }
  }

  /** The types read so far, followed by those still to come, are all of them. */
  ghost predicate Continues(whole: Option<seq<Bytes>>, done: seq<Bytes>, later: Option<seq<Bytes>>) {
    whole == if later.None? then None else Some(done + later.value)
  }

  lemma ContinuesStep(whole: Option<seq<Bytes>>, done: seq<Bytes>, kind: Bytes, later: Option<seq<Bytes>>)
    requires Continues(whole, done, if later.None? then None else Some([kind] + later.value))
    ensures Continues(whole, done + [kind], later)
  {
    if later.Some? {
      assert done + ([kind] + later.value) == done + [kind] + later.value;
    }
  }

  /** `png_chunk_types`. */
  method ChunkTypes(payload: Bytes) returns (r: Option<seq<Bytes>>)
    ensures r == if |payload| < 8 || payload[..8] != SIGNATURE then None else TypesFrom(payload[8..])
  {
    if |payload| < 8 || payload[..8] != SIGNATURE {
      return None;
    }
    var rest := payload[8..];
    var chunks: seq<Bytes> := [];
    assert TypesFrom(rest).Some? ==> [] + TypesFrom(rest).value == TypesFrom(rest).value;
    while true
      invariant Continues(TypesFrom(payload[8..]), chunks, TypesFrom(rest))
      decreases |rest|
    {
      if |rest| < 8 {
        return None;
      }
      var length, kind := Unpack(rest[..4]), rest[4..8];
      if |rest| < 12 + length {
        return None;
      }
      if kind == IEND {
        return Some(chunks + [kind]);
      }
      ContinuesStep(TypesFrom(payload[8..]), chunks, kind, TypesFrom(rest[12 + length..]));
      chunks := chunks + [kind];
      rest := rest[12 + length..];
    }
  }

  // ------------------------------------------------------------------------- the whole path

  type Inflate = Bytes -> Option<Bytes>

  /** The thirteen bytes of an 8-bit, non-interlaced RGBA header. */
  function Header(width: nat, height: nat): Bytes
    requires width < 0x1_0000_0000 && height < 0x1_0000_0000
  {
    Pack(width) + Pack(height) + [8, 6, 0, 0, 0]
  }

  predicate HeaderAccepted(h: Bytes)
    requires |h| == 13
  {
    Unpack(h[..4]) != 0 && Unpack(h[4..8]) != 0 && h[8..] == [8, 6, 0, 0, 0]
  }

  function PixelsIn(width: nat, height: nat, raw: Option<Bytes>): Option<(nat, Image)> {
    if raw.None? || |raw.value| != height * (BYTES_PER_PIXEL * width + 1) then None
    else
      var rows := Decoded(raw.value, height, Zeros(BYTES_PER_PIXEL * width));
      if rows.None? then None else Some((width, rows.value))
  }

  /** The image a file holds, if it is one this reader takes. */
  function ImageIn(payload: Bytes, inflate: Inflate): Option<(nat, Image)> {
    if |payload| < 8 || payload[..8] != SIGNATURE then None
    else
      var w := WalkFrom(payload[8..], Walked(None, []));
      if w.None? || w.value.header.None? || |w.value.header.value| != 13 || !HeaderAccepted(w.value.header.value) then None
      else
        var header := w.value.header.value;
        PixelsIn(Unpack(header[..4]), Unpack(header[4..8]), inflate(w.value.compressed))
  }

  lemma {:induction false} HeadersAreThirteen(rest: Bytes, w: Walked)
    requires w.header.Some? ==> |w.header.value| == 13
    ensures var r := WalkFrom(rest, w); r.Some? && r.value.header.Some? ==> |r.value.header.value| == 13
    decreases |rest|
  {
    if |rest| >= 12 && 12 + Unpack(rest[..4]) <= |rest| {
      var n := Unpack(rest[..4]);
      var kind, data, later := rest[4..8], rest[8..8 + n], rest[12 + n..];
      if kind == IHDR {
        if n == 13 {
          HeadersAreThirteen(later, w.(header := Some(data)));
        }
      } else if kind == IDAT {
        HeadersAreThirteen(later, w.(compressed := w.compressed + data));
      } else if kind != IEND {
        HeadersAreThirteen(later, w);
      }
    }
  }

  /** `png_rgba_alpha_stats`. */
  method RgbaAlphaStats(payload: Bytes, inflate: Inflate) returns (r: Option<Stats>)
    ensures r.None? <==> ImageIn(payload, inflate).None?
    ensures r.Some? ==>
              var (width, rows) := ImageIn(payload, inflate).value;
              width > 0 && rows != [] && Sized(rows, width) && Describes(r.value, rows, width)
  {
    if |payload| < 8 || payload[..8] != SIGNATURE {
      return None;
    }
    var walked := Walk(payload);
    HeadersAreThirteen(payload[8..], Walked(None, []));
    if walked.None? || walked.value.header.None? {
      return None;
    }
    var header := walked.value.header.value;
    if !HeaderAccepted(header) {
      return None;
    }
    var width, height := Unpack(header[..4]), Unpack(header[4..8]);
    var raw := inflate(walked.value.compressed);
    if raw.None? || |raw.value| != height * (BYTES_PER_PIXEL * width + 1) {
      return None;
    }
    r := AlphaStats(raw.value, width, height);
  }

  /** Any image, with any filter per row and its data split over any chunks, is read back
      from its file row for row. */
  lemma FileRoundTrip(rows: Image, width: nat, kinds: seq<nat>, chunks: seq<Chunk>, compressed: Bytes, tail: Bytes, inflate: Inflate)
    requires 0 < width < 0x1_0000_0000 && 0 < |rows| < 0x1_0000_0000 && Sized(rows, width)
    requires |kinds| == |rows| && forall i | 0 <= i < |kinds| :: kinds[i] <= 4
    requires ChunksOk(chunks) && (|tail| < 12 || exists i :: 0 <= i < |chunks| && chunks[i].kind == IEND)
    requires ReadChunks(chunks, Walked(None, [])) == Some(Walked(Some(Pack(width) + Pack(|rows|) + [8, 6, 0, 0, 0]), compressed))
    requires inflate(compressed) == Some(Raw(rows, kinds, Zeros(BYTES_PER_PIXEL * width)))
    ensures ImageIn([137, 80, 78, 71, 13, 10, 26, 10] + EncodedAll(chunks) + tail, inflate) == Some((width, rows))
  {
    SignedPayload(EncodedAll(chunks) + tail);
    assert SIGNATURE + EncodedAll(chunks) + tail == SIGNATURE + (EncodedAll(chunks) + tail);
    WalkReadsChunks(chunks, tail, Walked(None, []));
    ImageFromWalk(SIGNATURE + (EncodedAll(chunks) + tail), rows, width, kinds, compressed, inflate);
  }

  lemma SignedPayload(rest: Bytes)
    ensures |SIGNATURE + rest| >= 8 && (SIGNATURE + rest)[..8] == SIGNATURE && (SIGNATURE + rest)[8..] == rest
  {
  }

  lemma ImageFromWalk(payload: Bytes, rows: Image, width: nat, kinds: seq<nat>, compressed: Bytes, inflate: Inflate)
    requires 0 < width < 0x1_0000_0000 && 0 < |rows| < 0x1_0000_0000 && Sized(rows, width)
    requires |kinds| == |rows| && forall i | 0 <= i < |kinds| :: kinds[i] <= 4
    requires |payload| >= 8 && payload[..8] == SIGNATURE
    requires WalkFrom(payload[8..], Walked(None, [])) == Some(Walked(Some(Header(width, |rows|)), compressed))
    requires inflate(compressed) == Some(Raw(rows, kinds, Zeros(BYTES_PER_PIXEL * width)))
    ensures ImageIn(payload, inflate) == Some((width, rows))
  {
    HeaderFields(width, |rows|);
    PixelsRoundTrip(rows, width, kinds);
  }

  lemma PixelsRoundTrip(rows: Image, width: nat, kinds: seq<nat>)
    requires Sized(rows, width)
    requires |kinds| == |rows| && forall i | 0 <= i < |kinds| :: kinds[i] <= 4
    ensures PixelsIn(width, |rows|, Some(Raw(rows, kinds, Zeros(BYTES_PER_PIXEL * width)))) == Some((width, rows))
  {
    DecodeInvertsEncode(rows, kinds, Zeros(BYTES_PER_PIXEL * width));
  }

  lemma HeaderFields(width: nat, height: nat)
    requires 0 < width < 0x1_0000_0000 && 0 < height < 0x1_0000_0000
    ensures var h := Header(width, height);
            |h| == 13 && Unpack(h[..4]) == width && Unpack(h[4..8]) == height && HeaderAccepted(h)
  {
    var h := Header(width, height);
    UnpackPack(width);
    UnpackPack(height);
    assert h[..4] == Pack(width) && h[4..8] == Pack(height) && h[8..] == [8, 6, 0, 0, 0];
  }
}
