/** The framed reader of golang/snappy/decode.go: reads of any size hand out, piece by piece, exactly
    what the stream delivers. */
module SnappyReader {
  import opened Bytes
  import opened Sequences
  import opened SnappyFraming
  import Decoder = SnappyDecode

  datatype Status = Full | AtEOF | Short

  /** The underlying io.Reader, seen through io.ReadFull: bytes, and then end of file. */
  class Source {
    const data: seq<byte>
    var pos: nat

    constructor (data: seq<byte>)
      ensures this.data == data && pos == 0
    {
      this.data, pos := data, 0;
    }

    ghost predicate Valid()
      reads this
    {
      pos <= |data|
    }

    ghost function Rest(): seq<byte>
      reads this
      requires Valid()
    {
      data[pos..]
    }

    method ReadFull(dst: array<byte>, n: nat) returns (status: Status)
      requires Valid() && n <= dst.Length
      modifies this, dst
      ensures Valid() && pos >= old(pos)
      ensures status == if n <= |old(Rest())| then Full else if old(Rest()) == [] then AtEOF else Short
      ensures status == Full ==> dst[..n] == old(Rest())[..n] && Rest() == old(Rest())[n..] && pos == old(pos) + n
    {
      var k := if n <= |data| - pos then n else |data| - pos;
      status := if k == n then Full else if k == 0 then AtEOF else Short;
      var chunk := data[pos..pos + k];
      CopyInto(dst, 0, chunk);
      SpliceIs(old(dst[..]), 0, chunk);
      assert dst[..k] == dst[..][..k];
      pos := pos + k;
    }
  }

  class Reader {
    const word: Word
    const crc32: seq<byte> -> uint32
    const source: Source
    const decoded: array<byte>
    const buf: array<byte>
    var err: Error
    var i: nat
    var j: nat
    var readHeader: bool

    constructor (word: Word, crc32: seq<byte> -> uint32, source: Source)
      requires source.Valid()
      ensures Valid() && this.source == source && fresh(decoded) && fresh(buf)
      ensures Pending() == Deliver(word, crc32, source.Rest(), false)
    {
      this.word, this.crc32, this.source := word, crc32, source;
      decoded, buf := new byte[MAX_BLOCK_SIZE], new byte[BUF_LEN];
      err, i, j, readHeader := NoError, 0, 0, false;
      new;
      BehindNothing(Deliver(word, crc32, source.Rest(), false));
    }

    ghost predicate Valid()
      reads this, source
    {
      && decoded.Length == MAX_BLOCK_SIZE && buf.Length == BUF_LEN && decoded != buf
      && i <= j <= MAX_BLOCK_SIZE && source.Valid()
    }

    /** Everything the reader will still hand out, and the error it will end with. */
    ghost function Pending(): Delivery
      reads this, source, decoded
      requires Valid()
    {
      if err != NoError then Delivery([], err)
      else Behind(decoded[i..j], Deliver(word, crc32, source.Rest(), readHeader))
    }

    /** `readFull`: a stream that ends too early is corrupt, unless it may end here. */
    method ReadFull(p: array<byte>, n: nat, allowEOF: bool) returns (ok: bool)
      requires Valid() && (p == decoded || p == buf) && n <= p.Length && err == NoError
      modifies this`err, source, p
      ensures Valid() && source.pos >= old(source.pos)
      ensures ok == (n <= |old(source.Rest())|)
      ensures ok ==> err == NoError && p[..n] == old(source.Rest())[..n] && source.Rest() == old(source.Rest())[n..]
                     && source.pos == old(source.pos) + n
      ensures !ok ==> err == if old(source.Rest()) == [] && allowEOF then EOF else ErrCorrupt
    {
      var status := source.ReadFull(p, n);
      ok := status == Full;
      if !ok {
        err := if status == Short || !allowEOF then ErrCorrupt else EOF;
      }
    }

    /** What reading the body of a chunk leaves behind: its data as decoded bytes, or its error. */
    twostate predicate BodyRead(chunkType: byte, chunkLen: nat)
      reads this, source, decoded
      requires old(Valid())
    {
      var rest := old(source.Rest());
      && Valid()
      && if chunkLen > |rest| then err == ErrCorrupt
         else
           var d := ChunkData(word, crc32, chunkType, rest[..chunkLen]);
           && err == d.err
           && (err == NoError ==> decoded[i..j] == d.data && source.Rest() == rest[chunkLen..])
    }

    /** Section 4.2. Compressed data. */
    method ReadCompressed(chunkLen: nat)
      requires Valid() && err == NoError && chunkLen <= BUF_LEN
      modifies this`err, this`i, this`j, source, decoded, buf
      ensures BodyRead(0x00, chunkLen)
    {
      if chunkLen < CHECKSUM_SIZE {
        err := ErrCorrupt;
        return;
      }
      ghost var rest := source.Rest();
      var ok := ReadFull(buf, chunkLen, false);
      if !ok { return; }
      var body := buf[..chunkLen];
      assert body == rest[..chunkLen];
      var n;
      n, err := Decompress(body);
      if err != NoError { return; }
      i, j := 0, n;
    }

    /** What follows the checksum in `body` is decoded and compared with it. */
    method Decompress(body: seq<byte>) returns (n: nat, e: Error)
      requires decoded.Length == MAX_BLOCK_SIZE && |body| >= CHECKSUM_SIZE
      modifies decoded
      ensures e == Compressed(word, crc32, body).err
      ensures e == NoError ==> n <= decoded.Length && decoded[..n] == Compressed(word, crc32, body).data
    {
      var checksum := Number4(body);
      var block := body[CHECKSUM_SIZE..];
      var (length, k, fault) := Decoder.DecodedLen(word, block);
      n := length;
      if fault != Decoder.NoError { return n, ErrorOf(fault); }
      if n > decoded.Length { return n, ErrCorrupt; }
      var fault', out, m := Decoder.Decode(word, decoded, block);
      if fault' != Decoder.NoError { return n, ErrorOf(fault'); }
      Decoder.DecodableIff(word, block, out[..m]);
      e := if Masked(crc32(decoded[..n])) == checksum then NoError else ErrCorrupt;
    }

    /** Section 4.3. Uncompressed data, read directly into the decoded bytes. */
    method ReadUncompressed(chunkLen: nat)
      requires Valid() && err == NoError && chunkLen <= BUF_LEN
      modifies this`err, this`i, this`j, source, decoded, buf
      ensures BodyRead(0x01, chunkLen)
    {
      if chunkLen < CHECKSUM_SIZE {
        err := ErrCorrupt;
        return;
      }
      ghost var rest := source.Rest();
      var ok := ReadFull(buf, CHECKSUM_SIZE, false);
      if !ok { return; }
      var checksum := Number4(buf[..CHECKSUM_SIZE]);
      var n := chunkLen - CHECKSUM_SIZE;
      if n > decoded.Length {
        err := ErrCorrupt;
        return;
      }
      ok := ReadFull(decoded, n, false);
      if !ok { return; }
      ghost var body := rest[..chunkLen];
      assert decoded[..n] == body[CHECKSUM_SIZE..] && Number4(body) == checksum;
      assert source.Rest() == rest[chunkLen..];
      if Masked(crc32(decoded[..n])) != checksum {
        err := ErrCorrupt;
        return;
      }
      i, j := 0, n;
    }

    /** Section 4.1. Stream identifier. */
    method ReadIdentifier(chunkLen: nat)
      requires Valid() && err == NoError && i == j && chunkLen <= BUF_LEN
      modifies this`err, source, buf
      ensures BodyRead(0xff, chunkLen)
    {
      if chunkLen != |MAGIC_BODY| {
        err := ErrCorrupt;
        return;
      }
      ghost var rest := source.Rest();
      var ok := ReadFull(buf, |MAGIC_BODY|, false);
      if !ok { return; }
      var k := 0;
      while k < |MAGIC_BODY|
        invariant k <= |MAGIC_BODY| && buf[..k] == MAGIC_BODY[..k]
      {
        if buf[k] != MAGIC_BODY[k] {
          assert buf[..6][k] != MAGIC_BODY[k];
          err := ErrCorrupt;
          return;
        }
        assert buf[..k + 1] == buf[..k] + [buf[k]];
        k := k + 1;
      }
      assert MAGIC_BODY[..6] == MAGIC_BODY;
    }

    /** Sections 4.4 and 4.6. Padding and reserved skippable chunks. */
    method SkipChunk(chunkType: byte, chunkLen: nat)
      requires Valid() && err == NoError && i == j && chunkLen <= BUF_LEN && 0x80 <= chunkType < 0xff
      modifies this`err, source, buf
      ensures BodyRead(chunkType, chunkLen)
    {
      var ok := ReadFull(buf, chunkLen, false);
    }

    /** The switch over the chunk type; `chunkType` is not one that stops the reader by itself. */
    method ReadBody(chunkType: byte, chunkLen: nat)
      requires Valid() && err == NoError && i == j && chunkLen <= BUF_LEN && !(0x02 <= chunkType <= 0x7f)
      modifies this`err, this`i, this`j, source, decoded, buf
      ensures BodyRead(chunkType, chunkLen)
    {
      if chunkType == 0x00 {
        ReadCompressed(chunkLen);
      } else if chunkType == 0x01 {
        ReadUncompressed(chunkLen);
      } else if chunkType == 0xff {
        ReadIdentifier(chunkLen);
      } else {
        SkipChunk(chunkType, chunkLen);
      }
    }

    /** One pass of the loop of `Read`, when no decoded bytes are left: reads one chunk. */
    method NextChunk()
      requires Valid() && err == NoError && i == j
      modifies this`err, this`i, this`j, this`readHeader, source, decoded, buf
      ensures Valid() && Pending() == old(Pending())
      ensures err == NoError ==> source.pos > old(source.pos)
    {
      ghost var s := source.Rest();
      BehindNothing(Deliver(word, crc32, s, readHeader));
      assert decoded[i..j] == [];
      var ok := ReadFull(buf, 4, true);
      if !ok { return; }
      var h := buf[..4];
      ghost var rest := source.Rest();
      assert h == s[..4] && rest == s[4..];
      var chunkType := h[0];
      if !readHeader {
        if chunkType != 0xff {
          err := ErrCorrupt;
          return;
        }
        readHeader := true;
      }
      var chunkLen := Number3(h);
      if chunkLen > BUF_LEN {
        err := ErrUnsupported;
        return;
      }
      if 0x02 <= chunkType <= 0x7f {
        err := ErrUnsupported;
        return;
      }
      DeliverStep(word, crc32, s, old(readHeader), chunkLen);
      ReadBody(chunkType, chunkLen);
    }

    /** Hands out decoded bytes. */
    method HandOutDecoded(p: array<byte>) returns (n: nat)
      requires Valid() && err == NoError && i < j && p != decoded
      modifies this`i, p
      ensures Valid() && n <= p.Length && (p.Length > 0 ==> n > 0)
      ensures old(Pending()) == Behind(p[..n], Pending())
    {
      ghost var left := decoded[i..j];
      n := if p.Length < j - i then p.Length else j - i;
      var part := decoded[i..i + n];
      CopyInto(p, 0, part);
      SpliceIs(old(p[..]), 0, part);
      assert p[..n] == p[..][..n] == part == left[..n];
      i := i + n;
      assert decoded[i..j] == left[n..];
      HandOut(left, n, Deliver(word, crc32, source.Rest(), readHeader));
    }

    /** Hands out at most `p.Length` bytes of what is pending, in order, or reports its error. */
    method Read(p: array<byte>) returns (n: nat, e: Error)
      requires Valid() && p != decoded && p != buf
      modifies this`err, this`i, this`j, this`readHeader, source, decoded, buf, p
      ensures Valid() && n <= p.Length
      ensures e == NoError ==> old(Pending()) == Behind(p[..n], Pending()) && (p.Length > 0 ==> n > 0)
      ensures e != NoError ==> n == 0 && old(Pending()) == Delivery([], e) == Pending()
    {
      if err != NoError { return 0, err; }
      while true
        invariant Valid() && err == NoError && Pending() == old(Pending())
        decreases |source.data| - source.pos
      {
        if i < j {
          n := HandOutDecoded(p);
          return n, NoError;
        }
        NextChunk();
        if err != NoError { return 0, err; }
      }
    }
  }

  lemma HandOut(left: seq<byte>, n: nat, more: Delivery)
    requires n <= |left|
    ensures Behind(left, more) == Behind(left[..n], Behind(left[n..], more))
  {
    assert left + more.data == left[..n] + (left[n..] + more.data);
  }

  lemma BehindNothing(d: Delivery)
    ensures Behind([], d) == d
  {
  }

  /** Reads until the end with a buffer of the given size for every read. */
  method ReadAll(r: Reader, size: nat -> nat) returns (data: seq<byte>, e: Error)
    requires r.Valid() && forall k :: size(k) > 0
    modifies r, r.source, r.decoded, r.buf
    ensures old(r.Pending()) == Delivery(data, e) && e != NoError
  {
    data := [];
    var k := 0;
    ghost var all := r.Pending();
    BehindNothing(r.Pending());
    while true
      invariant r.Valid() && all == Behind(data, r.Pending())
      decreases |r.Pending().data|
    {
      var p := new byte[size(k)];
      var n;
      ghost var before := r.Pending();
      n, e := r.Read(p);
      if e != NoError {
        assert data + [] == data;
        return;
      }
      Associate(data, p[..n], r.Pending().data);
      data := data + p[..n];
      k := k + 1;
    }
  }
}
