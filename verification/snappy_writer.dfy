/** The framed writer of golang/snappy/encode.go: whatever is written and flushed, the bytes it has
    passed on are a stream for the data it has accepted, less what is still buffered. */
module SnappyWriter {
  import opened Bytes
  import opened Sequences
  import opened SnappyFraming
  import Decoder = SnappyDecode
  import Encoder = SnappyEncode

  const OBUF_HEADER_LEN: nat := |MAGIC_CHUNK| + 4 + 4
  const OBUF_LEN: nat := OBUF_HEADER_LEN + MAX_ENCODED_LEN

  datatype WriterError = NoFault | Failed | Closed

  /** The underlying io.Writer: it takes `capacity` bytes and then fails. */
  class Sink {
    const capacity: nat
    var written: seq<byte>
    var failed: bool

    constructor (capacity: nat)
      ensures Valid() && written == [] && this.capacity == capacity && !failed
    {
      this.capacity, written, failed := capacity, [], false;
    }

    ghost predicate Valid()
      reads this
    {
      |written| <= capacity && (failed ==> |written| == capacity)
    }

    method Write(p: seq<byte>) returns (ok: bool)
      requires Valid()
      modifies this
      ensures Valid() && ok == (|old(written)| + |p| <= capacity) && failed == (old(failed) || !ok)
      ensures ok ==> written == old(written) + p
    {
      var room := capacity - |written|;
      ok := |p| <= room;
      written := written + p[..if ok then |p| else room];
      failed := failed || !ok;
    }
  }

  class Writer {
    const word: Word
    const crc32: seq<byte> -> uint32
    const sink: Sink
    const buffered: bool
    const ibuf: array<byte>
    const obuf: array<byte>
    var err: WriterError
    var ilen: nat
    var wroteStreamHeader: bool
    ghost var pieces: seq<Piece>
    /** How much data there was when the sink failed. */
    ghost var taken: nat

    /** NewWriter and, when `buffered`, NewBufferedWriter. */
    constructor (word: Word, crc32: seq<byte> -> uint32, sink: Sink, buffered: bool)
      requires sink.Valid() && sink.written == [] && !sink.failed
      ensures Valid() && err == NoFault && Accepted() == []
      ensures this.word == word && this.crc32 == crc32 && this.sink == sink && this.buffered == buffered
      ensures fresh(ibuf) && fresh(obuf)
    {
      this.word, this.crc32, this.sink, this.buffered := word, crc32, sink, buffered;
      ibuf := new byte[if buffered then MAX_BLOCK_SIZE else 0];
      obuf := new byte[OBUF_LEN];
      err, ilen, wroteStreamHeader, pieces, taken := NoFault, 0, false, [], 0;
    }

    ghost predicate Valid()
      reads this, sink
    {
      && obuf.Length == OBUF_LEN && obuf != ibuf
      && ibuf.Length == (if buffered then MAX_BLOCK_SIZE else 0) && ilen <= ibuf.Length
      && AreChunks(word, crc32, pieces)
      && (err != Failed ==> sink.written == StreamOf(pieces))
      && sink.Valid() && (err == Failed <==> sink.failed)
      && (err == Failed ==> sink.capacity < StreamBound(taken))
      && (err == NoFault ==> (wroteStreamHeader <==> pieces != []))
    }

    /** If the sink has failed, it has done so on no more than `n` bytes of data. */
    twostate predicate FailsWithin(n: nat)
      reads this
    {
      err == Failed ==> taken <= if old(err) == NoFault then n else old(taken)
    }

    /** All the data the writer has taken and not lost. */
    ghost function Accepted(): seq<byte>
      reads this, sink, ibuf
      requires Valid()
    {
      DataOf(pieces) + ibuf[..ilen]
    }

    /** The chunk header and checksum go between the stream identifier and the compressed bytes. */
    method FillHead(chunkType: byte, size: nat, data: seq<byte>, ghost start: nat, ghost front: seq<byte>,
        ghost rest: seq<byte>)
      requires obuf.Length == OBUF_LEN && size <= MAX_ENCODED_LEN
      requires start <= 10 && obuf[start..10] == front && 18 + |rest| <= OBUF_LEN && obuf[18..18 + |rest|] == rest
      modifies obuf
      ensures obuf[start..18 + |rest|] == front + Head(crc32, chunkType, size, data) + rest
    {
      var n := CHECKSUM_SIZE + size;
      var checksum := Masked(crc32(data));
      obuf[10], obuf[11], obuf[12], obuf[13] := chunkType, n % 256, n / 0x100 % 256, n / 0x1_0000 % 256;
      obuf[14], obuf[15], obuf[16], obuf[17] := checksum % 256, checksum / 0x100 % 256, checksum / 0x1_0000 % 256,
          checksum / 0x100_0000 % 256;
      assert obuf[10..18] == Head(crc32, chunkType, size, data);
      assert obuf[start..10] == front && obuf[18..18 + |rest|] == rest;
      Joined(obuf[..], start, 10, 18, 18 + |rest|, front, Head(crc32, chunkType, size, data), rest);
    }

    /** Compresses into the output buffer, which always has room, behind the chunk header. */
    method Compress(data: seq<byte>, ghost start: nat, ghost front: seq<byte>) returns (d: nat)
      requires obuf.Length == OBUF_LEN && |data| <= MAX_BLOCK_SIZE && start <= 10 && obuf[start..10] == front
      modifies obuf
      ensures d <= MAX_ENCODED_LEN && Decoder.IsBlock(obuf[18..18 + d], data) && obuf[start..10] == front
    {
      BlockFitsBuffer(word, |data|);
      var panics, buf, lo;
      panics, buf, lo, d := Encoder.Encode(word, obuf, OBUF_HEADER_LEN, data);
      SpliceIs(old(obuf[..]), 18, obuf[18..18 + d]);
      assert obuf[start..10] == obuf[..][start..10] == old(obuf[..])[start..10];
    }

    /** Puts the chunk for `data` together: all of it in the output buffer, but for uncompressed data. */
    method Prepare(data: seq<byte>) returns (chunkType: byte, obufStart: nat, obufEnd: nat, ghost wire: seq<byte>)
      requires obuf.Length == OBUF_LEN && 1 <= |data| <= MAX_BLOCK_SIZE
      modifies this`wroteStreamHeader, obuf
      ensures wroteStreamHeader && obufStart <= obufEnd <= obuf.Length
      ensures IsChunk(word, crc32, wire, data)
      ensures obuf[obufStart..obufEnd] + (if chunkType == 0x01 then data else [])
              == (if old(wroteStreamHeader) then [] else MAGIC_CHUNK) + wire
    {
      obufStart := |MAGIC_CHUNK|;
      ghost var front: seq<byte> := [];
      if !wroteStreamHeader {
        wroteStreamHeader := true;
        CopyInto(obuf, 0, MAGIC_CHUNK);
        SpliceIs(old(obuf[..]), 0, MAGIC_CHUNK);
        obufStart, front := 0, MAGIC_CHUNK;
      }
      assert obuf[obufStart..10] == front;
      var d := Compress(data, obufStart, front);
      ghost var block := obuf[18..18 + d];
      var size;
      chunkType, size, obufEnd := 0x00, d, OBUF_HEADER_LEN + d;
      if d >= |data| - |data| / 8 {
        chunkType, size, obufEnd := 0x01, |data|, OBUF_HEADER_LEN;
      }
      FillHead(chunkType, size, data, obufStart, front, if chunkType == 0x01 then [] else block);
      wire := Head(crc32, chunkType, size, data) + (if chunkType == 0x01 then data else block);
      PieceIsChunk(word, crc32, chunkType, block, data, wire);
      PutTogether(front, Head(crc32, chunkType, size, data), block, data, chunkType == 0x01);
    }

    /** Passes on what is in the output buffer and, for an uncompressed chunk, the data. */
    method PassOn(first: seq<byte>, plain: bool, data: seq<byte>) returns (ok: bool)
      requires sink.Valid()
      modifies sink
      ensures sink.Valid() && sink.failed == (old(sink.failed) || !ok)
      ensures var all := first + (if plain then data else []);
              if ok then sink.written == old(sink.written) + all else sink.capacity < |old(sink.written)| + |all|
    {
      ghost var stream := sink.written;
      ok := sink.Write(first);
      if ok && plain {
        ok := sink.Write(data);
        Associate(stream, first, data);
      }
      assert first + [] == first;
    }

    /** One pass of the loop of `write`: compresses and passes on at most 65536 bytes. */
    method WriteChunk(data: seq<byte>) returns (ok: bool)
      requires Valid() && err == NoFault && 1 <= |data| <= MAX_BLOCK_SIZE
      modifies this`err, this`wroteStreamHeader, this`pieces, this`taken, sink, obuf
      ensures Valid()
      ensures ok ==> err == NoFault && |pieces| == |old(pieces)| + 1 && DataOf(pieces) == DataOf(old(pieces)) + data
      ensures !ok ==> err == Failed && pieces == old(pieces) && taken == |DataOf(pieces)| + |data|
    {
      var first, plain;
      ghost var more;
      first, plain, more := PrepareNext(data);
      ok := PassOn(first, plain, data);
      if !ok {
        err, taken := Failed, |DataOf(pieces)| + |data|;
        return;
      }
      pieces := more;
    }

    /** What is to be passed on for the next chunk, and what the pieces are behind it. */
    method PrepareNext(data: seq<byte>) returns (first: seq<byte>, plain: bool, ghost more: seq<Piece>)
      requires Valid() && err == NoFault && 1 <= |data| <= MAX_BLOCK_SIZE
      modifies this`wroteStreamHeader, obuf
      ensures wroteStreamHeader && |more| == |pieces| + 1
      ensures AreChunks(word, crc32, more) && DataOf(more) == DataOf(pieces) + data
      ensures var all := first + (if plain then data else []);
              StreamOf(more) == sink.written + all && |StreamOf(more)| <= StreamBound(|DataOf(pieces)| + |data|)
    {
      var chunkType, obufStart, obufEnd;
      ghost var wire;
      chunkType, obufStart, obufEnd, wire := Prepare(data);
      OneMoreFits(word, crc32, pieces, wire, data);
      first, plain, more := obuf[obufStart..obufEnd], chunkType == 0x01, pieces + [Piece(wire, data)];
    }

    /** `write`: the data goes out chunk by chunk. */
    method WriteOut(p0: seq<byte>) returns (nRet: nat)
      requires Valid()
      modifies this`err, this`wroteStreamHeader, this`pieces, this`taken, sink, obuf
      ensures Valid() && nRet <= |p0|
      ensures old(err) != NoFault ==> err == old(err) && pieces == old(pieces) && nRet == 0
      ensures err == NoFault ==> nRet == |p0| && DataOf(pieces) == DataOf(old(pieces)) + p0
      ensures err == Closed ==> old(err) == Closed
      ensures FailsWithin(|DataOf(old(pieces))| + |p0|)
    {
      nRet := 0;
      if err != NoFault { return; }
      var p := p0;
      ghost var was, done: seq<byte> := DataOf(pieces), [];
      assert was + [] == was && [] + p == p0;
      while |p| > 0
        invariant Valid() && err == NoFault && nRet == |done|
        invariant done + p == p0 && DataOf(pieces) == was + done && |was| + |p0| == |was + done| + |p|
      {
        var uncompressed := p;
        if |p| > MAX_BLOCK_SIZE {
          uncompressed := p[..MAX_BLOCK_SIZE];
        }
        var n := |uncompressed|;
        var ok := WriteChunk(uncompressed);
        if !ok { return; }
        assert uncompressed == p[..n];
        Associate(was, done, p[..n]);
        Moved(done, p, n);
        done := done + p[..n];
        p := p[n..];
        nRet := nRet + n;
      }
      assert done == p0;
    }

    /** Copies as much of `p` as fits behind what is buffered. */
    method Buffer(p: seq<byte>) returns (n: nat)
      requires Valid()
      modifies ibuf, this`ilen
      ensures Valid() && n == (if |p| <= ibuf.Length - old(ilen) then |p| else ibuf.Length - old(ilen))
      ensures ilen == old(ilen) + n && Accepted() == old(Accepted()) + p[..n]
    {
      ghost var was := ibuf[..ilen];
      n := if |p| <= ibuf.Length - ilen then |p| else ibuf.Length - ilen;
      CopyInto(ibuf, ilen, p[..n]);
      SplicePrefix(old(ibuf[..]), ilen, p[..n]);
      assert ibuf[..ilen + n] == ibuf[..][..ilen + n];
      ilen := ilen + n;
      Associate(DataOf(pieces), was, p[..n]);
    }

    method Flush()
      requires Valid()
      modifies this`err, this`wroteStreamHeader, this`pieces, this`taken, this`ilen, sink, obuf
      ensures Valid()
      ensures old(err) != NoFault ==> err == old(err)
      ensures err == NoFault ==> ilen == 0 && Accepted() == old(Accepted())
      ensures err == Closed ==> old(err) == Closed
      ensures FailsWithin(|old(Accepted())|)
    {
      if err != NoFault { return; }
      if ilen == 0 { return; }
      var n := WriteOut(ibuf[..ilen]);
      ilen := 0;
      assert DataOf(pieces) + [] == DataOf(pieces);
    }

    /** Passes `p` on past an empty buffer. */
    method WriteThrough(p: seq<byte>) returns (n: nat)
      requires Valid() && ilen == 0
      modifies this`err, this`wroteStreamHeader, this`pieces, this`taken, sink, obuf
      ensures Valid() && n <= |p|
      ensures old(err) != NoFault ==> err == old(err) && n == 0
      ensures err == NoFault ==> n == |p| && Accepted() == old(Accepted()) + p
      ensures err == Closed ==> old(err) == Closed
      ensures FailsWithin(|old(Accepted())| + |p|)
    {
      assert DataOf(pieces) + [] == DataOf(pieces);
      n := WriteOut(p);
      assert DataOf(pieces) + [] == DataOf(pieces);
    }

    /** One pass of the loop of `Write`, when `p` does not fit behind what is buffered. */
    method WriteSome(p: seq<byte>) returns (n: nat)
      requires Valid() && err == NoFault && |p| > ibuf.Length - ilen
      modifies this`err, this`wroteStreamHeader, this`pieces, this`taken, this`ilen, sink, obuf, ibuf
      ensures Valid() && n <= |p| && err != Closed
      ensures FailsWithin(|old(Accepted())| + |p|)
      ensures err == NoFault ==> Accepted() == old(Accepted()) + p[..n] && ilen == 0 && (n > 0 || old(ilen) > 0)
    {
      if ilen == 0 {
        n := WriteThrough(p);
        assert n == |p| ==> p[..n] == p;
      } else {
        n := Buffer(p);
        Flush();
      }
    }

    /** Buffers `p`, or passes it on: the data accepted grows by exactly `p` unless the sink fails. */
    method Write(p0: seq<byte>) returns (nRet: nat)
      requires Valid()
      modifies this`err, this`wroteStreamHeader, this`pieces, this`taken, this`ilen, sink, obuf, ibuf
      ensures Valid()
      ensures old(err) != NoFault ==> err == old(err) && nRet == 0
      ensures err == NoFault ==> nRet == |p0| && Accepted() == old(Accepted()) + p0
      ensures err == Closed ==> old(err) == Closed
      ensures FailsWithin(|old(Accepted())| + |p0|)
    {
      nRet := 0;
      if !buffered {
        nRet := WriteThrough(p0);
        return;
      }
      var p := p0;
      ghost var was, done: seq<byte> := Accepted(), [];
      assert was + [] == was && [] + p == p0;
      while |p| > ibuf.Length - ilen && err == NoFault
        invariant Valid() && done + p == p0 && nRet == |done|
        invariant old(err) != NoFault ==> err == old(err) && nRet == 0
        invariant err == Closed ==> old(err) == Closed
        invariant err == NoFault ==> Accepted() == was + done
        invariant FailsWithin(|was| + |p0|)
        decreases err == NoFault, |p|, ilen
      {
        var n := WriteSome(p);
        Associate(was, done, p[..n]);
        Moved(done, p, n);
        done := done + p[..n];
        nRet := nRet + n;
        p := p[n..];
      }
      if err != NoFault { return; }
      var n := Buffer(p);
      assert p[..n] == p;
      Associate(was, done, p);
      nRet := nRet + n;
    }

    /** Flushes and closes. If that succeeds, everything accepted has been passed on as a stream. */
    method Close() returns (ret: WriterError)
      requires Valid()
      modifies this`err, this`wroteStreamHeader, this`pieces, this`taken, this`ilen, sink, obuf
      ensures Valid() && err != NoFault
      ensures ret == NoFault ==> old(err) == NoFault && DataOf(pieces) == old(Accepted())
                                 && sink.written == StreamOf(pieces)
      ensures ret == (if err == Failed then Failed else old(err)) && (old(err) != NoFault ==> err == old(err))
      ensures FailsWithin(|old(Accepted())|)
    {
      Flush();
      ret := err;
      if err == NoFault {
        assert DataOf(pieces) + [] == DataOf(pieces);
        err := Closed;
      }
    }
  }

  lemma Joined(s: seq<byte>, i: nat, j: nat, k: nat, l: nat, a: seq<byte>, b: seq<byte>, c: seq<byte>)
    requires i <= j <= k <= l <= |s| && s[i..j] == a && s[j..k] == b && s[k..l] == c
    ensures s[i..l] == a + b + c
  {
    assert s[i..k] == a + b;
    assert s[i..l] == s[i..k] + s[k..l];
  }

  /** With one more chunk, and the identifier if it is the first, a stream keeps its bound. */
  lemma OneMoreFits(w: Word, crc32: seq<byte> -> uint32, ps: seq<Piece>, wire: seq<byte>, data: seq<byte>)
    requires AreChunks(w, crc32, ps) && IsChunk(w, crc32, wire, data)
    ensures var front := (if ps == [] then MAGIC_CHUNK else []) + wire;
            && |StreamOf(ps)| + |front| <= StreamBound(|DataOf(ps)| + |data|)
            && StreamOf(ps + [Piece(wire, data)]) == StreamOf(ps) + front
    ensures AreChunks(w, crc32, ps + [Piece(wire, data)]) && DataOf(ps + [Piece(wire, data)]) == DataOf(ps) + data
  {
    StreamSize(w, crc32, ps);
    StreamExtends(ps, Piece(wire, data));
  }

  lemma Moved(done: seq<byte>, p: seq<byte>, n: nat)
    requires n <= |p|
    ensures (done + p[..n]) + p[n..] == done + p
  {
  }

  lemma PutTogether(front: seq<byte>, head: seq<byte>, block: seq<byte>, data: seq<byte>, plain: bool)
    ensures (front + head + (if plain then [] else block)) + (if plain then data else [])
            == front + (head + (if plain then data else block))
  {
  }

  lemma BlockFitsBuffer(w: Word, n: nat)
    requires n <= MAX_BLOCK_SIZE
    ensures 0 <= Encoder.MaxEncodedLen(w, n) <= MAX_ENCODED_LEN
  {
  }

  /** What a pass of the loop has put together is a chunk for its data. */
  lemma PieceIsChunk(w: Word, crc32: seq<byte> -> uint32, chunkType: byte, block: seq<byte>, data: seq<byte>,
      wire: seq<byte>)
    requires 1 <= |data| <= MAX_BLOCK_SIZE && Decoder.IsBlock(block, data)
    requires chunkType == (if |block| >= |data| - |data| / 8 then 0x01 else 0x00)
    requires wire == if chunkType == 0x01
                     then Head(crc32, 0x01, |data|, data) + data
                     else Head(crc32, 0x00, |block|, data) + block
    ensures IsChunk(w, crc32, wire, data)
  {
    if chunkType == 0x00 {
      assert wire[8..] == block;
    }
  }
}
