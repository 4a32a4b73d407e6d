/** The Snappy framing format, sections 3 and 4 of its description: what a stream delivers to its
    reader, and what the writer of golang/snappy/encode.go makes a stream of. */
module SnappyFraming {
  import opened Bytes
  import opened Sequences
  import Decoder = SnappyDecode

  type uint32 = x: int | 0 <= x < 0x1_0000_0000

  const MAX_BLOCK_SIZE: nat := 65536
  /** MaxEncodedLen(65536) */
  const MAX_ENCODED_LEN: nat := 76490
  const CHECKSUM_SIZE: nat := 4
  const BUF_LEN: nat := MAX_ENCODED_LEN + CHECKSUM_SIZE
  /** "sNaPpY" */
  const MAGIC_BODY: seq<byte> := [0x73, 0x4e, 0x61, 0x50, 0x70, 0x59]
  const MAGIC_CHUNK: seq<byte> := [0xff, 0x06, 0x00, 0x00] + MAGIC_BODY

  datatype Error = NoError | EOF | ErrCorrupt | ErrUnsupported | ErrTooLarge | ErrUnsupportedLiteralLength

  /** The masked checksum of section 3 for a CRC-32C: rotated right by 15 bits, plus a constant. */
  function Masked(c: uint32): uint32 {
    (c / 0x8000 + c % 0x8000 * 0x2_0000 + 0xa282_ead8) % 0x1_0000_0000
  }

  /** What a reader still delivers, and the error it ends with. */
  datatype Delivery = Delivery(data: seq<byte>, err: Error)

  function Behind(data: seq<byte>, d: Delivery): Delivery {
    Delivery(data + d.data, d.err)
  }

  function Number3(s: seq<byte>): nat
    requires |s| >= 4
  {
    s[1] + (s[2] as int) * 0x100 + (s[3] as int) * 0x1_0000
  }

  function Number4(s: seq<byte>): nat
    requires |s| >= 4
  {
    s[0] + (s[1] as int) * 0x100 + (s[2] as int) * 0x1_0000 + (s[3] as int) * 0x100_0000
  }

  function ErrorOf(e: Decoder.Error): Error {
    match e
    case NoError => NoError
    case ErrCorrupt => Error.ErrCorrupt
    case ErrTooLarge => Error.ErrTooLarge
    case ErrUnsupportedLiteralLength => Error.ErrUnsupportedLiteralLength
  }

  /** The data of a compressed chunk: checksum and block. */
  function Compressed(w: Word, crc32: seq<byte> -> uint32, body: seq<byte>): Delivery
    requires |body| >= CHECKSUM_SIZE
  {
    var block := body[CHECKSUM_SIZE..];
    var (n, k, err) := Decoder.DecodedLen(w, block);
    if err != Decoder.NoError then Delivery([], ErrorOf(err))
    else if n > MAX_BLOCK_SIZE then Delivery([], ErrCorrupt)
    else
      match Decoder.DecodeFrom(w, block[k..], [], n)
      case Done(out) => if Masked(crc32(out)) != Number4(body) then Delivery([], ErrCorrupt) else Delivery(out, NoError)
      case Corrupt => Delivery([], ErrCorrupt)
      case UnsupportedLiteralLength => Delivery([], ErrUnsupportedLiteralLength)
  }

  /** The data of an uncompressed chunk: checksum and data. */
  function Uncompressed(crc32: seq<byte> -> uint32, body: seq<byte>): Delivery
    requires |body| >= CHECKSUM_SIZE
  {
    var data := body[CHECKSUM_SIZE..];
    if |data| > MAX_BLOCK_SIZE || Masked(crc32(data)) != Number4(body) then Delivery([], ErrCorrupt)
    else Delivery(data, NoError)
  }

  /** One chunk of the given type that is there in full: its data, or an error. */
  function ChunkData(w: Word, crc32: seq<byte> -> uint32, chunkType: byte, body: seq<byte>): Delivery {
    if chunkType == 0x00 then
      if |body| < CHECKSUM_SIZE then Delivery([], ErrCorrupt) else Compressed(w, crc32, body)
    else if chunkType == 0x01 then
      if |body| < CHECKSUM_SIZE then Delivery([], ErrCorrupt) else Uncompressed(crc32, body)
    else if chunkType == 0xff then
      if body != MAGIC_BODY then Delivery([], ErrCorrupt) else Delivery([], NoError)
    else if chunkType <= 0x7f then Delivery([], ErrUnsupported)
    else Delivery([], NoError)
  }

  /** An error that is found before the body of a chunk is read. */
  function HeadError(s: seq<byte>, header: bool): Error
    requires |s| >= 4
  {
    if !header && s[0] != 0xff then ErrCorrupt
    else if Number3(s) > BUF_LEN then ErrUnsupported
    else if 0x02 <= s[0] <= 0x7f then ErrUnsupported
    else NoError
  }

  /** The whole of a stream: everything it delivers, and the error or end of file behind it. */
  function Deliver(w: Word, crc32: seq<byte> -> uint32, s: seq<byte>, header: bool): Delivery
    decreases |s|
  {
    if s == [] then Delivery([], EOF)
    else if |s| < 4 then Delivery([], ErrCorrupt)
    else if HeadError(s, header) != NoError then Delivery([], HeadError(s, header))
    else if |s| < 4 + Number3(s) then Delivery([], ErrCorrupt)
    else
      var end := 4 + Number3(s);
      var d := ChunkData(w, crc32, s[0], s[4..end]);
      if d.err != NoError then d else Behind(d.data, Deliver(w, crc32, s[end..], true))
  }

  /** The specification behind a chunk header that is no error by itself. */
  lemma DeliverStep(w: Word, crc32: seq<byte> -> uint32, s: seq<byte>, header: bool, chunkLen: nat)
    requires |s| >= 4 && HeadError(s, header) == NoError && chunkLen == Number3(s)
    ensures var rest := s[4..];
            if chunkLen > |rest| then Deliver(w, crc32, s, header) == Delivery([], ErrCorrupt)
            else
              var d := ChunkData(w, crc32, s[0], rest[..chunkLen]);
              Deliver(w, crc32, s, header) == if d.err != NoError then Delivery([], d.err)
                                              else Behind(d.data, Deliver(w, crc32, rest[chunkLen..], true))
  {
    if 4 + chunkLen <= |s| {
      assert s[4..][..chunkLen] == s[4..4 + chunkLen] && s[4..][chunkLen..] == s[4 + chunkLen..];
    }
  }

  // ---- What the writer makes ----

  function Bytes4(n: nat): seq<byte> {
    [n % 256, n / 0x100 % 256, n / 0x1_0000 % 256, n / 0x100_0000 % 256]
  }

  /** Chunk header and checksum for `size` bytes of body that stand for `data`. */
  function Head(crc32: seq<byte> -> uint32, chunkType: byte, size: nat, data: seq<byte>): (h: seq<byte>)
    ensures |h| == 8
  {
    var n := CHECKSUM_SIZE + size;
    [chunkType, n % 256, n / 0x100 % 256, n / 0x1_0000 % 256] + Bytes4(Masked(crc32(data)))
  }

  /** `s` is one chunk for `data`: compressed, which must save an eighth, or uncompressed. */
  ghost predicate IsChunk(w: Word, crc32: seq<byte> -> uint32, s: seq<byte>, data: seq<byte>) {
    && 1 <= |data| <= MAX_BLOCK_SIZE && |s| >= 8
    && (|| (s == Head(crc32, 0x00, |s| - 8, data) + s[8..] && Decoder.IsBlock(s[8..], data)
        && |s| - 8 < |data| - |data| / 8)
        || (s == Head(crc32, 0x01, |data|, data) + data))
  }

  /** A chunk the writer has written, and the data it stands for. */
  datatype Piece = Piece(wire: seq<byte>, data: seq<byte>)

  function PieceWire(p: Piece): seq<byte> {
    p.wire
  }

  function PieceData(p: Piece): seq<byte> {
    p.data
  }

  ghost predicate AreChunks(w: Word, crc32: seq<byte> -> uint32, ps: seq<Piece>) {
    forall p :: p in ps ==> IsChunk(w, crc32, p.wire, p.data)
  }

  /** The bytes of a stream: nothing, or one stream identifier and then the chunks. */
  function StreamOf(ps: seq<Piece>): seq<byte> {
    if ps == [] then [] else MAGIC_CHUNK + FlatMap(PieceWire, ps)
  }

  function DataOf(ps: seq<Piece>): seq<byte> {
    FlatMap(PieceData, ps)
  }

  /** No stream for `n` bytes of data is longer: every chunk holds a byte and has a header of eight. */
  function StreamBound(n: nat): nat {
    10 + 9 * n
  }

  lemma {:induction false} ChunksSize(w: Word, crc32: seq<byte> -> uint32, ps: seq<Piece>)
    requires AreChunks(w, crc32, ps)
    ensures |FlatMap(PieceWire, ps)| <= 9 * |DataOf(ps)|
  {
    if ps != [] {
      assert IsChunk(w, crc32, ps[0].wire, ps[0].data);
      ChunksSize(w, crc32, ps[1..]);
    }
  }

  lemma StreamSize(w: Word, crc32: seq<byte> -> uint32, ps: seq<Piece>)
    requires AreChunks(w, crc32, ps)
    ensures |StreamOf(ps)| <= (if ps == [] then 0 else 10) + 9 * |DataOf(ps)|
  {
    ChunksSize(w, crc32, ps);
  }

  /** One more chunk, behind the stream identifier if it is the first. */
  lemma StreamExtends(ps: seq<Piece>, p: Piece)
    ensures StreamOf(ps + [p]) == StreamOf(ps) + ((if ps == [] then MAGIC_CHUNK else []) + p.wire)
    ensures DataOf(ps + [p]) == DataOf(ps) + p.data
  {
    FlatMapConcat(PieceWire, ps, [p]);
    FlatMapConcat(PieceData, ps, [p]);
    FlatMapOne(PieceWire, p);
    FlatMapOne(PieceData, p);
    if ps == [] {
      assert [] + (MAGIC_CHUNK + p.wire) == MAGIC_CHUNK + p.wire && [] + p.wire == p.wire;
    } else {
      assert StreamOf(ps) + ([] + p.wire) == MAGIC_CHUNK + (FlatMap(PieceWire, ps) + p.wire);
    }
  }

  lemma HeadReads(crc32: seq<byte> -> uint32, chunkType: byte, body: seq<byte>, data: seq<byte>, rest: seq<byte>)
    requires |body| <= MAX_ENCODED_LEN
    ensures var s := Head(crc32, chunkType, |body|, data) + body + rest;
            && s[0] == chunkType && Number3(s) == CHECKSUM_SIZE + |body|
            && s[4..8 + |body|] == Bytes4(Masked(crc32(data))) + body && s[8 + |body|..] == rest
    ensures Number4(Bytes4(Masked(crc32(data))) + body) == Masked(crc32(data))
    ensures (Bytes4(Masked(crc32(data))) + body)[CHECKSUM_SIZE..] == body
  {
    var n := CHECKSUM_SIZE + |body|;
    assert n == n % 256 + n / 0x100 % 256 * 0x100 + n / 0x1_0000 % 256 * 0x1_0000;
    Bytes4Reads(Masked(crc32(data)));
    assert Number4(Bytes4(Masked(crc32(data))) + body) == Number4(Bytes4(Masked(crc32(data))));
  }

  lemma Bytes4Reads(n: nat)
    requires n < 0x1_0000_0000
    ensures Number4(Bytes4(n)) == n
  {
    assert n / 0x100 / 0x100 == n / 0x1_0000 && n / 0x1_0000 / 0x100 == n / 0x100_0000;
  }

  /** A compressed chunk delivers its data. */
  lemma CompressedDelivers(w: Word, crc32: seq<byte> -> uint32, block: seq<byte>, data: seq<byte>)
    requires Decoder.IsBlock(block, data) && |data| <= MAX_BLOCK_SIZE
    ensures Compressed(w, crc32, Bytes4(Masked(crc32(data))) + block) == Delivery(data, NoError)
  {
    HeadReads(crc32, 0x00, [], data, []);
    var body := Bytes4(Masked(crc32(data))) + block;
    assert body[CHECKSUM_SIZE..] == block && Number4(body) == Number4(Bytes4(Masked(crc32(data))));
    Bytes4Reads(Masked(crc32(data)));
    assert Decoder.IsDecodable(w, block, data);
    Decoder.DecodableIff(w, block, data);
  }

  /** One of the writer's chunks, read behind the stream identifier. */
  lemma ChunkDelivers(w: Word, crc32: seq<byte> -> uint32, c: seq<byte>, data: seq<byte>, rest: seq<byte>)
    requires IsChunk(w, crc32, c, data)
    ensures Deliver(w, crc32, c + rest, true) == Behind(data, Deliver(w, crc32, rest, true))
  {
    var s, n := c + rest, |c| - 4;
    assert s[4..][..n] == s[4..4 + n] && s[4..][n..] == s[4 + n..];
    ChunkReads(w, crc32, c, data, rest);
    DeliverStep(w, crc32, s, true, n);
  }

  /** Its head is no error, its length is right, and its body stands for the data. */
  lemma ChunkReads(w: Word, crc32: seq<byte> -> uint32, c: seq<byte>, data: seq<byte>, rest: seq<byte>)
    requires IsChunk(w, crc32, c, data)
    ensures var s, n := c + rest, |c| - 4;
            && HeadError(s, true) == NoError && Number3(s) == n && s[4 + n..] == rest
            && ChunkData(w, crc32, s[0], s[4..4 + n]) == Delivery(data, NoError)
  {
    if c == Head(crc32, 0x01, |data|, data) + data {
      HeadReads(crc32, 0x01, data, data, rest);
    } else {
      var block := c[8..];
      HeadReads(crc32, 0x00, block, data, rest);
      CompressedDelivers(w, crc32, block, data);
    }
  }

  lemma {:induction false} ChunksDeliver(w: Word, crc32: seq<byte> -> uint32, ps: seq<Piece>)
    requires AreChunks(w, crc32, ps)
    ensures Deliver(w, crc32, FlatMap(PieceWire, ps), true) == Delivery(DataOf(ps), EOF)
  {
    if ps != [] {
      ChunksDeliver(w, crc32, ps[1..]);
      ChunkDelivers(w, crc32, ps[0].wire, ps[0].data, FlatMap(PieceWire, ps[1..]));
    }
  }

  /** The framing round trip: a stream delivers exactly the data it was made for, then end of file. */
  lemma StreamDelivers(w: Word, crc32: seq<byte> -> uint32, ps: seq<Piece>)
    requires AreChunks(w, crc32, ps)
    ensures Deliver(w, crc32, StreamOf(ps), false) == Delivery(DataOf(ps), EOF)
  {
    if ps != [] {
      var chunks := FlatMap(PieceWire, ps);
      var s := MAGIC_CHUNK + chunks;
      assert s[4..10] == MAGIC_BODY && s[10..] == chunks;
      ChunksDeliver(w, crc32, ps);
      assert [] + DataOf(ps) == DataOf(ps);
    }
  }
}
