/** The block decoder (golang/snappy/decode_other.go) proved against a specification function,
    and that function proved to decide the format of SnappyFormat. */
module SnappyDecode {
  import opened Bytes
  import opened Options
  import opened SnappyFormat
  import opened Varints

  /** What the tag byte and the bytes that belong to it say. */
  datatype Header =
    | LiteralHeader(ext: nat, length: nat)
    | CopyHeader(form: CopyForm, offset: nat, length: nat)

  function Size(h: Header): nat {
    match h
    case LiteralHeader(ext, _) => 1 + ext
    case CopyHeader(Copy1, _, _) => 2
    case CopyHeader(Copy2, _, _) => 3
    case CopyHeader(Copy4, _, _) => 5
  }

  function Offset2(b0: byte, b1: byte): nat {
    (b0 as int) + (b1 as int) * 0x100
  }

  function Offset4(b0: byte, b1: byte, b2: byte, b3: byte): nat {
    (b0 as int) + (b1 as int) * 0x100 + (b2 as int) * 0x1_0000 + (b3 as int) * 0x100_0000
  }

  /** Reads the header at the start of `src`; None when `src` ends inside it. */
  function ReadHeader(src: seq<byte>): (r: Option<Header>)
    requires src != []
    ensures r.Some? ==> Size(r.value) <= |src|
  {
    var m := src[0] / 4;
    match src[0] % 4
    case 0 =>
      if m < 60 then Some(LiteralHeader(0, m + 1))
      else if |src| < 1 + (m - 59) then None
      else Some(LiteralHeader(m - 59, FromLittleEndian(src[1..1 + (m - 59)]) + 1))
    case 1 =>
      if |src| < 2 then None else Some(CopyHeader(Copy1, (src[0] as int) / 32 * 256 + src[1], 4 + src[0] / 4 % 8))
    case 2 =>
      if |src| < 3 then None else Some(CopyHeader(Copy2, Offset2(src[1], src[2]), 1 + m))
    case _ =>
      if |src| < 5 then None else Some(CopyHeader(Copy4, FromLittleEndian(src[1..5]), 1 + m))
  }

  datatype Outcome = Done(out: seq<byte>) | Corrupt | UnsupportedLiteralLength

  function Code(o: Outcome): int {
    match o
    case Done(_) => 0
    case Corrupt => 1
    case UnsupportedLiteralLength => 2
  }

  /** Decodes the rest of a block, `src`, when `out` has been produced and `n` bytes are wanted. */
  function DecodeFrom(w: Word, src: seq<byte>, out: seq<byte>, n: nat): Outcome
    decreases |src|, 1
  {
    if src == [] then (if |out| == n then Done(out) else Corrupt)
    else if ReadHeader(src).None? then Corrupt
    else Proceed(w, ReadHeader(src).value, src, out, n)
  }

  /** Goes on behind the header `h` that starts `src`. */
  function Proceed(w: Word, h: Header, src: seq<byte>, out: seq<byte>, n: nat): Outcome
    requires Size(h) <= |src|
    decreases |src|, 0
  {
    match h
    case LiteralHeader(ext, length) =>
      if length > MaxInt(w) then UnsupportedLiteralLength
      else if |out| + length > n || 1 + ext + length > |src| then Corrupt
      else DecodeFrom(w, src[1 + ext + length..], out + src[1 + ext..1 + ext + length], n)
    case CopyHeader(_, offset, length) =>
      if offset == 0 || |out| < offset || |out| + length > n then Corrupt
      else DecodeFrom(w, src[Size(h)..], CopyRun(out, offset, length), n)
  }

  // ---- The specification decides the format ----

  function HeaderOf(e: Element): Header {
    match e
    case Literal(ext, data) => LiteralHeader(ext, |data|)
    case Copy(form, offset, length) => CopyHeader(form, offset, length)
  }

  /** A header whose length bytes are `length`. */
  lemma ReadLongLiteral(s: seq<byte>, ext: nat, length: seq<byte>, rest: seq<byte>)
    requires 1 <= ext <= 4 && |length| == ext && s == [4 * (59 + ext)] + length + rest
    ensures ReadHeader(s) == Some(LiteralHeader(ext, FromLittleEndian(length) + 1))
  {
    assert s[1..1 + ext] == length && s[0] == 4 * (59 + ext);
  }

  lemma {:induction false} ReadWrittenLiteral(ext: nat, data: seq<byte>, rest: seq<byte>)
    requires InRange(Literal(ext, data))
    ensures ReadHeader(Wire(Literal(ext, data)) + rest) == Some(LiteralHeader(ext, |data|))
  {
    var s := Wire(Literal(ext, data)) + rest;
    if ext == 0 {
      assert s[0] == 4 * (|data| - 1);
    } else {
      LittleEndianRoundTrip(|data| - 1, ext);
      var length := LittleEndian(|data| - 1, ext);
      assert s == [4 * (59 + ext)] + length + (data + rest);
      ReadLongLiteral(s, ext, length, data + rest);
    }
  }

  /** The tag byte of a copy with a one-byte offset, put together and taken apart. */
  lemma Copy1Tag(high: nat, low: nat)
    requires high < 8 && low < 8
    ensures var tag := 32 * high + 4 * low + 1;
            tag < 256 && tag % 4 == 1 && tag / 32 == high && tag / 4 % 8 == low
  {
  }

  lemma Copy1TagParts(tag: byte)
    requires tag % 4 == 1
    ensures tag / 32 < 8 && tag / 4 % 8 < 8 && tag == 32 * (tag / 32) + 4 * (tag / 4 % 8) + 1
  {
  }

  lemma ReadWrittenCopy1(offset: nat, length: nat, rest: seq<byte>)
    requires InRange(Copy(Copy1, offset, length))
    ensures ReadHeader(Wire(Copy(Copy1, offset, length)) + rest) == Some(CopyHeader(Copy1, offset, length))
  {
    Copy1Tag(offset / 0x100, length - 4);
    var s := Wire(Copy(Copy1, offset, length)) + rest;
    assert s[0] == 32 * (offset / 0x100) + 4 * (length - 4) + 1 && s[1] == offset % 256;
    ReadCopy1(s, offset / 0x100, length - 4);
  }

  lemma ReadCopy1(s: seq<byte>, high: nat, low: nat)
    requires |s| >= 2 && high < 8 && low < 8 && s[0] == 32 * high + 4 * low + 1
    ensures ReadHeader(s) == Some(CopyHeader(Copy1, high * 0x100 + s[1], 4 + low))
  {
    Copy1Tag(high, low);
  }

  lemma ReadWrittenCopy2(offset: nat, length: nat, rest: seq<byte>)
    requires InRange(Copy(Copy2, offset, length))
    ensures ReadHeader(Wire(Copy(Copy2, offset, length)) + rest) == Some(CopyHeader(Copy2, offset, length))
  {
    var s := Wire(Copy(Copy2, offset, length)) + rest;
    assert s[0] == 4 * (length - 1) + 2 && s[1] == offset % 256 && s[2] == offset / 0x100;
  }

  lemma ReadWrittenCopy4(offset: nat, length: nat, rest: seq<byte>)
    requires InRange(Copy(Copy4, offset, length))
    ensures ReadHeader(Wire(Copy(Copy4, offset, length)) + rest) == Some(CopyHeader(Copy4, offset, length))
  {
    var s := Wire(Copy(Copy4, offset, length)) + rest;
    assert s[1..5] == LittleEndian(offset, 4);
    assert Pow256(2) == 0x1_0000;
    LittleEndianRoundTrip(offset, 4);
  }

  /** Reading the header of a written chunk gives the chunk's own header. */
  lemma {:induction false} ReadWritten(e: Element, rest: seq<byte>)
    requires InRange(e)
    ensures ReadHeader(Wire(e) + rest) == Some(HeaderOf(e))
  {
    match e {
      case Literal(ext, data) => ReadWrittenLiteral(ext, data, rest);
      case Copy(Copy1, offset, length) => ReadWrittenCopy1(offset, length, rest);
      case Copy(Copy2, offset, length) => ReadWrittenCopy2(offset, length, rest);
      case Copy(Copy4, offset, length) => ReadWrittenCopy4(offset, length, rest);
    }
  }

  /** The chunk that starts `src`, given its header. */
  function ElementAt(src: seq<byte>, h: Header): Element
    requires Size(h) <= |src|
    requires h.LiteralHeader? ==> Size(h) + h.length <= |src|
  {
    match h
    case LiteralHeader(ext, length) => Literal(ext, src[1 + ext..1 + ext + length])
    case CopyHeader(form, offset, length) => Copy(form, offset, length)
  }

  lemma SliceSplit(s: seq<byte>, i: nat, j: nat)
    requires i <= j <= |s|
    ensures s[..i] + s[i..j] == s[..j]
  {
  }

  /** The tag and length bytes a literal's header is read from. */
  lemma LiteralHead(src: seq<byte>, ext: nat, length: nat)
    requires src != [] && ReadHeader(src) == Some(LiteralHeader(ext, length))
    ensures ext <= 4 && 1 + ext <= |src| && 1 <= length && (ext == 0 ==> length <= 60)
    ensures length - 1 < Pow256(ext) || ext == 0
    ensures [(4 * (if ext == 0 then length - 1 else 59 + ext)) % 256] + LittleEndian(length - 1, ext) == src[..1 + ext]
  {
    FromLittleEndianRoundTrip(src[1..1 + ext]);
    assert (4 * (if ext == 0 then length - 1 else 59 + ext)) % 256 == src[0];
    assert [src[0]] + src[1..1 + ext] == src[..1 + ext];
    assert LittleEndian(length - 1, ext) == src[1..1 + ext];
  }

  lemma {:induction false} WriteReadLiteral(src: seq<byte>)
    requires src != [] && ReadHeader(src).Some? && ReadHeader(src).value.LiteralHeader?
    requires var h := ReadHeader(src).value; 1 + h.ext + h.length <= |src|
    ensures var h := ReadHeader(src).value;
            var e := ElementAt(src, h);
            InRange(e) && Wire(e) == src[..1 + h.ext + h.length]
  {
    var h := ReadHeader(src).value;
    LiteralHead(src, h.ext, h.length);
    SliceSplit(src, 1 + h.ext, 1 + h.ext + h.length);
    assert |ElementAt(src, h).data| == h.length;
  }

  lemma WriteReadCopy1(src: seq<byte>)
    requires src != [] && src[0] % 4 == 1 && ReadHeader(src).Some?
    ensures var h := ReadHeader(src).value;
            var e := ElementAt(src, h);
            InRange(e) && Wire(e) == src[..Size(h)]
  {
    Copy1TagParts(src[0]);
    assert src[..2] == [src[0], src[1]];
  }

  lemma WriteReadCopy2(src: seq<byte>)
    requires src != [] && src[0] % 4 == 2 && ReadHeader(src).Some?
    ensures var h := ReadHeader(src).value;
            var e := ElementAt(src, h);
            InRange(e) && Wire(e) == src[..Size(h)]
  {
    assert src[..3] == [src[0], src[1], src[2]];
  }

  lemma WriteReadCopy4(src: seq<byte>)
    requires src != [] && src[0] % 4 == 3 && ReadHeader(src).Some?
    ensures var h := ReadHeader(src).value;
            var e := ElementAt(src, h);
            InRange(e) && Wire(e) == src[..Size(h)]
  {
    FromLittleEndianRoundTrip(src[1..5]);
    assert Pow256(2) == 0x1_0000;
    assert src[..5] == [src[0]] + src[1..5];
  }

  /** How many bytes of the input the chunk with this header takes. */
  function Extent(h: Header): nat {
    Size(h) + if h.LiteralHeader? then h.length else 0
  }

  /** Whatever header is read, the bytes it was read from are the wire form of an in-range chunk. */
  lemma {:induction false} WriteRead(src: seq<byte>)
    requires src != [] && ReadHeader(src).Some?
    requires Extent(ReadHeader(src).value) <= |src|
    ensures var h := ReadHeader(src).value;
            var e := ElementAt(src, h);
            InRange(e) && Wire(e) == src[..Extent(h)] && HeaderOf(e) == h
  {
    match src[0] % 4 {
      case 0 => WriteReadLiteral(src);
      case 1 => WriteReadCopy1(src);
      case 2 => WriteReadCopy2(src);
      case _ => WriteReadCopy4(src);
    }
  }

  /** Completeness: the bytes of every legal chunk sequence decode to its meaning. */
  lemma {:induction false} DecodesWire(w: Word, es: seq<Element>, out: seq<byte>, n: nat)
    requires n <= MaxInt(w)
    requires Run(es, out).Some? && |Run(es, out).value| == n
    ensures DecodeFrom(w, WireAll(es), out, n) == Done(Run(es, out).value)
  {
    if es != [] {
      var e, rest := es[0], WireAll(es[1..]);
      var src := WireAll(es);
      assert src == Wire(e) + rest;
      ReadWritten(e, rest);
      RunGrows(es[1..], Apply(e, out));
      assert src[|Wire(e)|..] == rest;
      DecodesWire(w, es[1..], Apply(e, out), n);
      if e.Literal? {
        assert src[1 + e.ext..1 + e.ext + |e.data|] == e.data;
      }
    }
  }

  /** A chunk that decodes is in range, applicable to the output so far, and leaves the rest. */
  lemma DecodedChunk(w: Word, src: seq<byte>, out: seq<byte>, n: nat) returns (e: Element, rest: seq<byte>)
    requires src != [] && DecodeFrom(w, src, out, n).Done?
    ensures src == Wire(e) + rest && |rest| < |src|
    ensures Applicable(e, out) && DecodeFrom(w, src, out, n) == DecodeFrom(w, rest, Apply(e, out), n)
  {
    var h := ReadHeader(src).value;
    e := ElementAt(src, h);
    WriteRead(src);
    rest := src[Extent(h)..];
    assert src == src[..Extent(h)] + rest;
  }

  lemma Prepend(e: Element, es: seq<Element>, out: seq<byte>)
    requires Applicable(e, out)
    ensures WireAll([e] + es) == Wire(e) + WireAll(es) && Run([e] + es, out) == Run(es, Apply(e, out))
  {
    assert ([e] + es)[1..] == es;
  }

  /** Soundness: what decodes is the bytes of a legal chunk sequence, and the result its meaning. */
  lemma {:induction false} DecodedIsLegal(w: Word, src: seq<byte>, out: seq<byte>, n: nat) returns (es: seq<Element>)
    requires DecodeFrom(w, src, out, n).Done?
    ensures WireAll(es) == src && Run(es, out) == Some(DecodeFrom(w, src, out, n).out)
    ensures |DecodeFrom(w, src, out, n).out| == n
    decreases |src|
  {
    if src == [] {
      es := [];
    } else {
      var e, rest := DecodedChunk(w, src, out, n);
      var tail := DecodedIsLegal(w, rest, Apply(e, out), n);
      Prepend(e, tail, out);
      es := [e] + tail;
    }
  }

  /** The decoder's specification accepts exactly the bodies of blocks of the wanted length. */
  lemma DecodeFromDecides(w: Word, src: seq<byte>, n: nat, data: seq<byte>)
    requires n <= MaxInt(w)
    ensures DecodeFrom(w, src, [], n) == Done(data) <==> IsBody(src, data) && |data| == n
  {
    if DecodeFrom(w, src, [], n) == Done(data) {
      var es := DecodedIsLegal(w, src, [], n);
      assert Denotes(es, src, [], data);
    }
    if IsBody(src, data) && |data| == n {
      var es :| Denotes(es, src, [], data);
      DecodesWire(w, es, [], n);
    }
  }

  /** The format is uniquely decodable: different in-range chunk sequences have different bytes. */
  lemma {:induction false} UniquelyDecodable(a: seq<Element>, b: seq<Element>)
    requires forall e :: e in a || e in b ==> InRange(e)
    requires WireAll(a) == WireAll(b)
    ensures a == b
  {
    if a != [] && b != [] {
      var x, y := WireAll(a[1..]), WireAll(b[1..]);
      assert Wire(a[0]) + x == Wire(b[0]) + y;
      ReadWritten(a[0], x);
      ReadWritten(b[0], y);
      assert HeaderOf(a[0]) == HeaderOf(b[0]);
      var k := Extent(HeaderOf(a[0]));
      assert Wire(a[0]) == (Wire(a[0]) + x)[..k] && Wire(b[0]) == (Wire(b[0]) + y)[..k];
      WriteRead(Wire(a[0]) + x);
      assert a[0] == b[0];
      assert x == (Wire(a[0]) + x)[k..] && y == (Wire(b[0]) + y)[k..];
      UniquelyDecodable(a[1..], b[1..]);
    }
  }

  // ---- The decoder ----

  /** The inner switch on a literal's tag: the position after the length bytes and the length less
      one, or ok == false when `src` ends first. */
  method LiteralLength(src: seq<byte>, s0: nat) returns (ok: bool, s: nat, x: nat)
    requires s0 < |src| && src[s0] % 4 == 0
    ensures ok == ReadHeader(src[s0..]).Some?
    ensures ok ==> s0 < s <= |src| && x < 0x1_0000_0000
    ensures ok ==> ReadHeader(src[s0..]) == Some(LiteralHeader(s - s0 - 1, x + 1))
  {
    s, x := s0, src[s0] / 4;
    if x < 60 {
      s := s + 1;
      return true, s, x;
    } else if x == 60 {
      s := s + 2;
      if s > |src| { return false, s, x; }
      x := src[s - 1];
    } else if x == 61 {
      s := s + 3;
      if s > |src| { return false, s, x; }
      x := src[s - 2] + (src[s - 1] as int) * 0x100;
    } else if x == 62 {
      s := s + 4;
      if s > |src| { return false, s, x; }
      x := src[s - 3] + (src[s - 2] as int) * 0x100 + (src[s - 1] as int) * 0x1_0000;
    } else {
      s := s + 5;
      if s > |src| { return false, s, x; }
      x := src[s - 4] + (src[s - 3] as int) * 0x100 + (src[s - 2] as int) * 0x1_0000 + (src[s - 1] as int) * 0x100_0000;
    }
    FromLittleEndianOf(src[s0 + 1..s]);
    assert src[s0..][1..s - s0] == src[s0 + 1..s];
    return true, s, x;
  }

  /** Go's `int(x) + 1`: positive exactly when the length fits in an `int`. */
  lemma LiteralLengthAsInt(w: Word, x: nat)
    requires x < 0x1_0000_0000
    ensures var length := Wrap(w, ToInt(w, x) + 1);
            if x + 1 > MaxInt(w) then length <= 0 else length == x + 1
  {
  }

  method IntLength(w: Word, x: nat) returns (length: int)
    requires x < 0x1_0000_0000
    ensures if x + 1 > MaxInt(w) then length <= 0 else length == x + 1
  {
    LiteralLengthAsInt(w, x);
    length := Wrap(w, ToInt(w, x) + 1);
  }

  /** The header at `s0` is that of a copy and ends at `s`; an offset that does not fit a Go `int` is negative. */
  predicate CopyAt(w: Word, src: seq<byte>, s0: nat, s: nat, offset: int, length: nat) {
    && s0 < s <= |src| && ReadHeader(src[s0..]).Some?
    && var h := ReadHeader(src[s0..]).value;
       && h.CopyHeader? && s == s0 + Size(h) && length == h.length
       && (offset == h.offset || (offset < 0 && h.offset > MaxInt(w)))
  }

  /** The three copy arms: the position after the tag, the length and the offset as Go's `int`. */
  method CopyTag(w: Word, src: seq<byte>, s0: nat) returns (ok: bool, s: nat, offset: int, length: nat)
    requires s0 < |src| && src[s0] % 4 != 0
    ensures ok == ReadHeader(src[s0..]).Some?
    ensures ok ==> CopyAt(w, src, s0, s, offset, length)
  {
    s, offset, length := s0, 0, 0;
    var tag := src[s] % 4;
    if tag == 1 {
      s := s + 2;
      if s > |src| { return false, s, 0, 0; }
      length := 4 + src[s - 2] / 4 % 8;
      offset := (src[s - 2] as int) / 32 * 0x100 + src[s - 1];
    } else if tag == 2 {
      s := s + 3;
      if s > |src| { return false, s, 0, 0; }
      length := 1 + src[s - 3] / 4;
      offset := Offset2(src[s - 2], src[s - 1]);
    } else {
      s := s + 5;
      if s > |src| { return false, s, 0, 0; }
      length := 1 + src[s - 5] / 4;
      offset := ToInt(w, Offset4(src[s - 4], src[s - 3], src[s - 2], src[s - 1]));
      assert src[s0..][1..5] == src[s - 4..s];
      FromLittleEndianOf(src[s - 4..s]);
    }
    return true, s, offset, length;
  }

  /** What one pass of the decoding loop keeps: an error is the outcome of the whole, and without
      one the outcome is still that of the input and output positions reached. */
  twostate predicate Advances(w: Word, dst: array<byte>, n: nat, src: seq<byte>,
                              s0: nat, d0: nat, code: int, s: nat, d: nat)
    requires s0 <= |src| && d0 <= n <= dst.Length
    reads dst
  {
    var outcome := DecodeFrom(w, src[s0..], old(dst[..d0]), n);
    && SameFrom(dst, n)
    && (code != 0 ==> Code(outcome) == code)
    && (code == 0 ==> s0 < s <= |src| && d <= n && outcome == DecodeFrom(w, src[s..], dst[..d], n))
  }

  /** A literal's bytes go behind what has been produced, when they are there and there is room. */
  method CopyLiteral(dst: array<byte>, n: nat, d: nat, src: seq<byte>, s: nat, length: nat) returns (ok: bool)
    requires d <= n <= dst.Length && s <= |src|
    modifies dst
    ensures ok == (d + length <= n && s + length <= |src|)
    ensures ok ==> dst[..d + length] == old(dst[..d]) + src[s..s + length] && SameFrom(dst, n)
    ensures !ok ==> dst[..] == old(dst[..])
  {
    if length > n - d || length > |src| - s { return false; }
    CopyInto(dst, d, src[s..s + length]);
    SplicePrefix(old(dst[..]), d, src[s..s + length]);
    assert dst[..d + length] == dst[..][..d + length];
    return true;
  }

  /** The literal arm of the loop. */
  method DecodeLiteral(w: Word, dst: array<byte>, n: nat, src: seq<byte>, s0: nat, d0: nat)
    returns (code: int, s: nat, d: nat)
    requires d0 <= n <= dst.Length && n <= MaxInt(w)
    requires s0 < |src| && src[s0] % 4 == 0
    modifies dst
    ensures Advances(w, dst, n, src, s0, d0, code, s, d)
  {
    d := d0;
    var ok, x;
    ok, s, x := LiteralLength(src, s0);
    if !ok { return 1, s, d; }
    LiteralFromPosition(w, src, s0, s, x, dst[..d], n);
    var length := IntLength(w, x);
    if length <= 0 { return 2, s, d; }
    ok := CopyLiteral(dst, n, d, src, s, length);
    if !ok { return 1, s, d; }
    return 0, s + length, d + length;
  }

  /** The copy arms of the loop and the copying that follows the switch. */
  method DecodeCopy(w: Word, dst: array<byte>, n: nat, src: seq<byte>, s0: nat, d0: nat)
    returns (code: int, s: nat, d: nat)
    requires d0 <= n <= dst.Length && n <= MaxInt(w)
    requires s0 < |src| && src[s0] % 4 != 0
    modifies dst
    ensures Advances(w, dst, n, src, s0, d0, code, s, d)
  {
    d := d0;
    var ok, offset, length;
    ok, s, offset, length := CopyTag(w, src, s0);
    if !ok { return 1, s, d; }
    CopyFromPosition(w, src, s0, s, offset, length, dst[..d], n);
    ok := CopyWithin(dst, n, d, offset, length);
    if !ok { return 1, s, d; }
    return 0, s, d + length;
  }

  /** Copies from `offset` bytes back, when there are as many and there is room. */
  method CopyWithin(dst: array<byte>, n: nat, d: nat, offset: int, length: nat) returns (ok: bool)
    requires d <= n <= dst.Length
    modifies dst
    ensures ok == (1 <= offset <= d && d + length <= n)
    ensures ok ==> dst[..d + length] == CopyRun(old(dst[..d]), offset, length) && SameFrom(dst, n)
    ensures !ok ==> dst[..] == old(dst[..])
  {
    if offset <= 0 || d < offset || length > n - d { return false; }
    ForwardCopy(dst, d, d + length, offset);
    return true;
  }

  /** Decodes `src` into `dst[..n]` and returns an error code, 0 for success. */
  method DecodeBlock(w: Word, dst: array<byte>, n: nat, src: seq<byte>) returns (code: int)
    requires n <= dst.Length && n <= MaxInt(w)
    modifies dst
    ensures SameFrom(dst, n)
    ensures code == Code(DecodeFrom(w, src, [], n))
    ensures code == 0 ==> DecodeFrom(w, src, [], n) == Done(dst[..n])
  {
    ghost var outcome := DecodeFrom(w, src, [], n);
    var d: nat, s: nat := 0, 0;
    while s < |src|
      invariant d <= n && s <= |src|
      invariant outcome == DecodeFrom(w, src[s..], dst[..d], n)
      invariant SameFrom(dst, n)
    {
      if src[s] % 4 == 0 {
        code, s, d := DecodeLiteral(w, dst, n, src, s, d);
      } else {
        code, s, d := DecodeCopy(w, dst, n, src, s, d);
      }
      if code != 0 { return code; }
    }
    assert src[s..] == [];
    if d != n { return 1; }
    return 0;
  }

  /** `dst[d] = dst[d-offset]` for d up to `end`, forwards, whether or not the ranges overlap. */
  method ForwardCopy(dst: array<byte>, d0: nat, end: nat, offset: nat)
    requires 1 <= offset <= d0 <= end <= dst.Length
    modifies dst
    ensures dst[..end] == CopyRun(old(dst[..d0]), offset, end - d0)
    ensures SameFrom(dst, end)
  {
    var d := d0;
    ghost var out := dst[..d];
    while d != end
      invariant d0 <= d <= end
      invariant dst[..d] == CopyRun(out, offset, d - d0)
      invariant SameFrom(dst, end)
      decreases end - d
    {
      dst[d] := dst[d - offset];
      d := d + 1;
      assert dst[..d] == dst[..d - 1] + [dst[d - 1]];
    }
  }

  /** The specification at a literal that starts at `s0`, with its bytes from `s` on. */
  lemma LiteralFromPosition(w: Word, src: seq<byte>, s0: nat, s: nat, x: nat, out: seq<byte>, n: nat)
    requires s0 < s <= |src| && ReadHeader(src[s0..]) == Some(LiteralHeader(s - s0 - 1, x + 1))
    ensures var outcome := DecodeFrom(w, src[s0..], out, n);
            var length := x + 1;
            if length > MaxInt(w) then outcome == UnsupportedLiteralLength
            else if |out| + length <= n && s + length <= |src|
            then outcome == DecodeFrom(w, src[s + length..], out + src[s..s + length], n)
            else outcome == Corrupt
  {
    var rest, k, length := src[s0..], s - s0, x + 1;
    assert DecodeFrom(w, rest, out, n) == Proceed(w, LiteralHeader(k - 1, length), rest, out, n);
    if k + length <= |rest| {
      assert rest[k..k + length] == src[s..s + length] && rest[k + length..] == src[s + length..];
    }
  }

  /** The specification at a copy that starts at `s0`. */
  lemma CopyFromPosition(w: Word, src: seq<byte>, s0: nat, s: nat, offset: int, length: nat, out: seq<byte>,
                         n: nat)
    requires CopyAt(w, src, s0, s, offset, length) && |out| <= n <= MaxInt(w)
    ensures var outcome := DecodeFrom(w, src[s0..], out, n);
            if 1 <= offset <= |out| && |out| + length <= n
            then outcome == DecodeFrom(w, src[s..], CopyRun(out, offset, length), n)
            else outcome == Corrupt
  {
    assert src[s0..][s - s0..] == src[s..];
  }

  lemma FromLittleEndianOf(s: seq<byte>)
    requires 1 <= |s| <= 4
    ensures FromLittleEndian(s) == s[0]
      + (if |s| > 1 then (s[1] as int) * 0x100 else 0)
      + (if |s| > 2 then (s[2] as int) * 0x1_0000 else 0)
      + (if |s| > 3 then (s[3] as int) * 0x100_0000 else 0)
  {
    var t := s[1..];
    if |t| > 0 {
      FromLittleEndianOf(t);
    }
  }

  // ---- Whole blocks: length header and body ----

  /** `binary.Uvarint` of Go's standard library: the value and the bytes read, which are 0 when
      `src` ends first and negative when the value does not fit in 64 bits. */
  function Uvarint(src: seq<byte>): (nat, int) {
    match Scan(src)
    case None => (0, 0)
    case Some((v, k)) => if k > 10 || v >= TWO_64 then (0, -(k as int)) else (v, k)
  }

  datatype Error = NoError | ErrCorrupt | ErrTooLarge | ErrUnsupportedLiteralLength

  /** The length of the decoded block and the size of the length header. */
  function DecodedLen(w: Word, src: seq<byte>): (r: (nat, nat, Error))
    ensures r.2 == NoError ==> r.0 <= MaxInt(w) && 1 <= r.1 <= |src|
  {
    var (v, n) := Uvarint(src);
    if n <= 0 || v > 0xffff_ffff then (0, 0, ErrCorrupt)
    else if w == W32 && v > 0x7fff_ffff then (0, 0, ErrTooLarge)
    else (v, n, NoError)
  }

  /** `src` is a block: a header giving the length of `data`, then a body that denotes `data`. */
  ghost predicate IsBlock(src: seq<byte>, data: seq<byte>) {
    var (v, k) := Uvarint(src);
    k > 0 && v == |data| <= 0xffff_ffff && IsBody(src[k..], data)
  }

  /** A block on a platform whose `int` can hold its length. */
  ghost predicate IsDecodable(w: Word, src: seq<byte>, data: seq<byte>) {
    IsBlock(src, data) && |data| <= MaxInt(w)
  }

  lemma {:induction false} DecodableIff(w: Word, src: seq<byte>, data: seq<byte>)
    ensures IsDecodable(w, src, data) <==>
              var (n, k, err) := DecodedLen(w, src);
              err == NoError && DecodeFrom(w, src[k..], [], n) == Done(data)
  {
    var (v, k) := Uvarint(src);
    if k > 0 && v <= MaxInt(w) {
      DecodeFromDecides(w, src[k..], v, data);
    }
  }

  /** Decodes a block into `dst` when it is long enough, and into a new array otherwise. */
  method Decode(w: Word, dst: array<byte>, src: seq<byte>) returns (err: Error, out: array<byte>, n: nat)
    modifies dst
    ensures n <= out.Length
    ensures err == NoError ==> IsDecodable(w, src, out[..n])
    ensures err != NoError ==> forall data :: !IsDecodable(w, src, data)
    ensures out == dst || fresh(out)
    ensures err == NoError && n <= dst.Length ==> out == dst && SameFrom(dst, n)
    ensures fresh(out) ==> dst[..] == old(dst[..])
    ensures var (dLen, s, e) := DecodedLen(w, src);
            if e != NoError then err == e
            else match DecodeFrom(w, src[s..], [], dLen)
                 case Done(_) => err == NoError && n == dLen
                 case Corrupt => err == ErrCorrupt
                 case UnsupportedLiteralLength => err == ErrUnsupportedLiteralLength
  {
    forall data ensures IsDecodable(w, src, data) <==>
              var (n, k, err) := DecodedLen(w, src);
              err == NoError && DecodeFrom(w, src[k..], [], n) == Done(data)
    {
      DecodableIff(w, src, data);
    }
    var (dLen, s, e) := DecodedLen(w, src);
    if e != NoError { return e, dst, 0; }
    out := dst;
    if dLen > dst.Length {
      out := new byte[dLen];
    }
    var code := DecodeBlock(w, out, dLen, src[s..]);
    if code == 0 {
      return NoError, out, dLen;
    } else if code == 2 {
      return ErrUnsupportedLiteralLength, out, 0;
    }
    return ErrCorrupt, out, 0;
  }
}
