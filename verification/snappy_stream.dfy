/** Writer and reader together. */
module SnappyStream {
  import opened Bytes
  import opened SnappyFraming
  import opened SnappyWriter
  import opened SnappyReader

  datatype Op = Write(p: seq<byte>) | Flush

  function DataWritten(ops: seq<Op>): seq<byte> {
    if ops == [] then []
    else
      var last := |ops| - 1;
      DataWritten(ops[..last]) + DataIn(ops[last])
  }

  function DataIn(op: Op): seq<byte> {
    if op.Write? then op.p else []
  }

  /** The writer has taken `data`, or the sink has failed on no more than that. */
  ghost predicate Carried(w: Writer, data: seq<byte>)
    reads w, w.sink, w.ibuf
  {
    && w.Valid() && w.err != Closed
    && (w.err == NoFault ==> w.Accepted() == data)
    && (w.err == Failed ==> w.taken <= |data|)
  }

  method Carry(w: Writer, op: Op, ghost data: seq<byte>)
    requires Carried(w, data)
    modifies w, w.sink, w.obuf, w.ibuf
    ensures Carried(w, data + DataIn(op))
  {
    match op {
      case Write(p) => var n := w.Write(p);
      case Flush =>
        w.Flush();
        assert data + [] == data;
    }
  }

  /** Carries out the writes and flushes and closes. */
  method WriteAll(w: Writer, ops: seq<Op>) returns (ret: WriterError)
    requires w.Valid() && w.err == NoFault && w.Accepted() == []
    modifies w, w.sink, w.obuf, w.ibuf
    ensures w.Valid()
    ensures ret == NoFault ==> DataOf(w.pieces) == DataWritten(ops) && w.sink.written == StreamOf(w.pieces)
    ensures ret == NoFault <==> !w.sink.failed
    ensures w.sink.failed ==> w.sink.capacity < StreamBound(|DataWritten(ops)|)
  {
    var k := 0;
    while k < |ops|
      invariant k <= |ops| && Carried(w, DataWritten(ops[..k]))
    {
      assert ops[..k + 1][..k] == ops[..k];
      Carry(w, ops[k], DataWritten(ops[..k]));
      k := k + 1;
    }
    assert ops[..k] == ops;
    ret := CloseAll(w, DataWritten(ops));
  }

  method CloseAll(w: Writer, ghost data: seq<byte>) returns (ret: WriterError)
    requires Carried(w, data)
    modifies w, w.sink, w.obuf, w.ibuf
    ensures w.Valid()
    ensures ret == NoFault ==> DataOf(w.pieces) == data && w.sink.written == StreamOf(w.pieces)
    ensures ret == NoFault <==> !w.sink.failed
    ensures w.sink.failed ==> w.sink.capacity < StreamBound(|data|)
  {
    ret := w.Close();
  }

  /** Any writes and flushes and a close, read back in pieces of any sizes: the data written comes out,
      and then end of file. This fails only when the underlying writer is full, which it is not if it
      has room for the largest stream for this data. */
  method RoundTrip(word: Word, crc32: seq<byte> -> uint32, sink: Sink, buffered: bool, ops: seq<Op>, size: nat -> nat)
    returns (ok: bool, data: seq<byte>, e: Error)
    requires sink.Valid() && sink.written == [] && !sink.failed && forall k :: size(k) > 0
    modifies sink
    ensures ok ==> data == DataWritten(ops) && e == EOF
    ensures !ok ==> |sink.written| == sink.capacity < StreamBound(|DataWritten(ops)|)
  {
    var w := new Writer(word, crc32, sink, buffered);
    var ret := WriteAll(w, ops);
    if ret != NoFault { return false, [], NoError; }
    StreamDelivers(word, crc32, w.pieces);
    data, e := ReadBack(word, crc32, sink.written, size);
    return true, data, e;
  }

  method ReadBack(word: Word, crc32: seq<byte> -> uint32, stream: seq<byte>, size: nat -> nat)
    returns (data: seq<byte>, e: Error)
    requires forall k :: size(k) > 0
    ensures Deliver(word, crc32, stream, false) == Delivery(data, e)
  {
    var source := new Source(stream);
    assert source.Rest() == stream;
    var r := new Reader(word, crc32, source);
    data, e := ReadAll(r, size);
  }
}
