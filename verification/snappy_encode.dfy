/** The block encoder (golang/snappy/encode.go, encode_other.go). Whatever the hash table suggests,
    what it writes is a body that denotes its input, within the output bound. */
module SnappyEncode {
  import opened Bytes
  import opened Options
  import opened Sequences
  import opened Varints
  import opened SnappyFormat
  import Decoder = SnappyDecode

  const MAX_BLOCK_SIZE: nat := 65536
  const INPUT_MARGIN: nat := 16 - 1
  const MIN_NON_LITERAL_BLOCK_SIZE: nat := 1 + 1 + INPUT_MARGIN
  const MAX_TABLE_SIZE: nat := 16384

  type uint16 = x: int | 0 <= x < 0x1_0000

  // ---- What the encoder decides to write ----

  /** The shortest literal header for a run of at most 65536 bytes. */
  function LiteralElement(lit: seq<byte>): Element {
    Literal(if |lit| <= 60 then 0 else if |lit| <= 256 then 1 else 2, lit)
  }

  function Copies(offset: nat, length: nat): seq<Element> {
    if length >= 68 then [Copy(Copy2, offset, 64)] + Copies(offset, length - 64)
    else if length > 64 then [Copy(Copy2, offset, 60)] + LastCopy(offset, length - 60)
    else LastCopy(offset, length)
  }

  function LastCopy(offset: nat, length: nat): seq<Element> {
    if length >= 12 || offset >= 2048 then [Copy(Copy2, offset, length)] else [Copy(Copy1, offset, length)]
  }

  /** One decision of the encoder about its input: bytes written out, or a match further back. */
  datatype Op =
    | Emit(lo: nat, hi: nat)
    | Match(at: nat, candidate: nat, length: nat)

  function End(op: Op): nat {
    match op
    case Emit(_, hi) => hi
    case Match(at, _, length) => at + length
  }

  function Start(op: Op): nat {
    match op
    case Emit(lo, _) => lo
    case Match(at, _, _) => at
  }

  /** A match is real, at least four bytes long, and as long as it can be. */
  predicate GreedyMatch(src: seq<byte>, at: nat, candidate: nat, length: nat) {
    && candidate < at && 4 <= length && at + length <= |src|
    && (forall j :: at <= j < at + length ==> src[j] == src[j - (at - candidate)])
    && (at + length < |src| ==> src[candidate + length] != src[at + length])
  }

  predicate GoodOp(op: Op, src: seq<byte>) {
    match op
    case Emit(lo, hi) => lo < hi <= |src|
    case Match(at, candidate, length) => GreedyMatch(src, at, candidate, length)
  }

  /** `ops` covers `src[..upto]` from left to right with non-empty literals, never two in a row, and
      greedy matches. */
  predicate Parses(ops: seq<Op>, src: seq<byte>, upto: nat) {
    if ops == [] then upto == 0
    else
      var op, before := ops[|ops| - 1], ops[..|ops| - 1];
      && upto == End(op)
      && Parses(before, src, Start(op))
      && GoodOp(op, src)
      && (op.Emit? && before != [] ==> before[|before| - 1].Match?)
  }

  function OpElements(op: Op, src: seq<byte>): seq<Element> {
    match op
    case Emit(lo, hi) => if lo <= hi <= |src| then [LiteralElement(src[lo..hi])] else []
    case Match(at, candidate, length) => if candidate < at then Copies(at - candidate, length) else []
  }

  function Elements(ops: seq<Op>, src: seq<byte>): seq<Element> {
    if ops == [] then []
    else Elements(ops[..|ops| - 1], src) + OpElements(ops[|ops| - 1], src)
  }

  // ---- What that means ----

  /** Copying from `offset` bytes back re-creates the input as long as the input repeats there. */
  lemma {:induction false} CopyRunRepeats(src: seq<byte>, at: nat, offset: nat, n: nat)
    requires 1 <= offset <= at && at + n <= |src|
    requires forall j :: at <= j < at + n ==> src[j] == src[j - offset]
    ensures CopyRun(src[..at], offset, n) == src[..at + n]
  {
    if n > 0 {
      CopyRunRepeats(src, at, offset, n - 1);
      assert src[at + n - 1] == src[at + n - 1 - offset];
      assert src[..at + n] == src[..at + n - 1] + [src[at + n - 1]];
    }
  }

  lemma CopyRepeats(src: seq<byte>, at: nat, e: Element)
    requires e.Copy? && InRange(e) && 1 <= e.offset <= at && at + e.length <= |src|
    requires forall j :: at <= j < at + e.length ==> src[j] == src[j - e.offset]
    ensures Run([e], src[..at]) == Some(src[..at + e.length])
  {
    CopyRunRepeats(src, at, e.offset, e.length);
  }

  /** The copies written for a match of any length re-create the matched input. */
  lemma {:induction false} RunCopies(src: seq<byte>, at: nat, offset: nat, length: nat)
    requires 1 <= offset <= at && offset <= 65535 && 4 <= length && at + length <= |src|
    requires forall j :: at <= j < at + length ==> src[j] == src[j - offset]
    ensures Run(Copies(offset, length), src[..at]) == Some(src[..at + length])
    decreases length
  {
    if length > 64 {
      var k := if length >= 68 then 64 else 60;
      var first := Copy(Copy2, offset, k);
      CopyRepeats(src, at, first);
      RunCopies(src, at + k, offset, length - k);
      RunConcat([first], Copies(offset, length - k), src[..at]);
    } else {
      CopyRepeats(src, at, LastCopy(offset, length)[0]);
    }
  }

  lemma RunOp(op: Op, src: seq<byte>)
    requires |src| <= MAX_BLOCK_SIZE
    requires GoodOp(op, src)
    ensures Run(OpElements(op, src), src[..Start(op)]) == Some(src[..End(op)])
  {
    match op {
      case Emit(lo, hi) =>
        assert Pow256(1) == 0x100 && Pow256(2) == 0x1_0000;
        var e := LiteralElement(src[lo..hi]);
        assert Apply(e, src[..lo]) == src[..hi];
        assert Run([e], src[..lo]) == Run([], src[..hi]);
      case Match(at, candidate, length) =>
        RunCopies(src, at, at - candidate, length);
    }
  }

  /** Whatever parse of its input the encoder settles on, the chunks it writes denote that input. */
  lemma {:induction false} RunElements(ops: seq<Op>, src: seq<byte>, upto: nat)
    requires |src| <= MAX_BLOCK_SIZE && Parses(ops, src, upto)
    ensures upto <= |src| && Run(Elements(ops, src), []) == Some(src[..upto])
  {
    if ops != [] {
      var op, before := ops[|ops| - 1], ops[..|ops| - 1];
      RunElements(before, src, Start(op));
      RunConcat(Elements(before, src), OpElements(op, src), []);
      RunOp(op, src);
    }
  }

  /** What emitLiteral and emitCopy assume about their arguments. */
  predicate MeetsEmitters(op: Op) {
    match op
    case Emit(lo, hi) => lo < hi <= lo + MAX_BLOCK_SIZE
    case Match(at, candidate, length) => 1 <= at - candidate <= 65535 && 4 <= length <= 65535
  }

  /** Every prefix of the encoder's output decodes to the input it has covered so far, and every copy
      in it reaches back at most 65535 bytes. */
  lemma PrefixDecodes(w: Word, ops: seq<Op>, src: seq<byte>, upto: nat, wire: seq<byte>)
    requires |src| <= MAX_BLOCK_SIZE && Encodes(ops, src, upto, wire)
    ensures Decoder.DecodeFrom(w, wire, [], upto) == Decoder.Done(src[..upto])
    ensures forall op :: op in ops ==> MeetsEmitters(op)
  {
    RunElements(ops, src, upto);
    Decoder.DecodesWire(w, Elements(ops, src), [], upto);
    OpsInRange(ops, src, upto);
  }

  lemma {:induction false} OpsInRange(ops: seq<Op>, src: seq<byte>, upto: nat)
    requires |src| <= MAX_BLOCK_SIZE && Parses(ops, src, upto)
    ensures upto <= |src|
    ensures forall op :: op in ops ==> MeetsEmitters(op)
  {
    if ops != [] {
      OpsInRange(ops[..|ops| - 1], src, Start(ops[|ops| - 1]));
    }
  }

  // ---- How long it is ----

  function LiteralSize(n: nat): nat {
    n + if n <= 60 then 1 else if n <= 256 then 2 else 3
  }

  lemma WireLiteral(lit: seq<byte>)
    requires 1 <= |lit|
    ensures |Wire(LiteralElement(lit))| == LiteralSize(|lit|)
    ensures WireAll([LiteralElement(lit)]) == Wire(LiteralElement(lit))
  {
    FlatMapOne(Wire, LiteralElement(lit));
  }

  lemma WireLastCopy(offset: nat, length: nat)
    ensures var e := LastCopy(offset, length)[0];
            WireAll(LastCopy(offset, length)) == Wire(e)
            && |Wire(e)| == if length >= 12 || offset >= 2048 then 3 else 2
  {
    FlatMapOne(Wire, LastCopy(offset, length)[0]);
  }

  /** A match always takes fewer bytes than it stands for. */
  lemma {:induction false} WireCopiesSize(offset: nat, length: nat)
    requires 4 <= length
    ensures |WireAll(Copies(offset, length))| < length
    decreases length
  {
    if length > 64 {
      var k := if length >= 68 then 64 else 60;
      var rest := Copies(offset, length - k);
      WireCopiesSize(offset, length - k);
      assert Copies(offset, length) == [Copy(Copy2, offset, k)] + rest;
      assert Copies(offset, length)[1..] == rest;
    } else {
      WireLastCopy(offset, length);
    }
  }

  /** The room a block of `n` bytes needs: at most one byte more per 60, and 3 for a last literal. */
  function BlockBound(n: nat): nat {
    n + n / 60 + 3
  }

  function OpSize(op: Op): nat {
    match op
    case Emit(lo, hi) => if lo < hi then LiteralSize(hi - lo) else 0
    case Match(_, _, length) => if length > 0 then length - 1 else 0
  }

  lemma WireOpSize(op: Op, src: seq<byte>)
    requires GoodOp(op, src)
    ensures |WireAll(OpElements(op, src))| <= OpSize(op)
  {
    match op {
      case Emit(lo, hi) => WireLiteral(src[lo..hi]);
      case Match(at, candidate, length) => WireCopiesSize(at - candidate, length);
    }
  }

  /** The cost of every literal header is paid for by the match after it. */
  lemma {:induction false} WireElementsSize(ops: seq<Op>, src: seq<byte>, upto: nat)
    requires Parses(ops, src, upto)
    ensures |WireAll(Elements(ops, src))| <= BlockBound(upto)
    ensures ops == [] || ops[|ops| - 1].Match? ==> |WireAll(Elements(ops, src))| <= upto + upto / 60
    ensures ops != [] && ops[|ops| - 1].Emit? ==>
              var lo := Start(ops[|ops| - 1]);
              |WireAll(Elements(ops, src))| <= lo + lo / 60 + LiteralSize(upto - lo)
  {
    if ops != [] {
      var op, before := ops[|ops| - 1], ops[..|ops| - 1];
      WireElementsSize(before, src, Start(op));
      FlatMapConcat(Wire, Elements(before, src), OpElements(op, src));
      WireOpSize(op, src);
    }
  }

  // ---- The emitters ----

  /** The tag and length bytes in front of a literal of `n` bytes. */
  function LiteralHeader(n: nat): seq<byte>
    requires 1 <= n <= 65536
  {
    if n <= 60 then [4 * (n - 1)]
    else if n <= 256 then [240, n - 1]
    else [244, (n - 1) % 256, (n - 1) / 256]
  }

  lemma WireLiteralBytes(lit: seq<byte>)
    requires 1 <= |lit| <= 65536
    ensures Wire(LiteralElement(lit)) == LiteralHeader(|lit|) + lit
  {
    var n := |lit| - 1;
    assert LittleEndian(n, 2) == [n % 256] + LittleEndian(n / 256, 1);
    assert LittleEndian(n / 256, 1) == [n / 256 % 256] + LittleEndian(n / 256 / 256, 0);
    assert LittleEndian(n, 1) == [n % 256] + LittleEndian(n / 256, 0);
  }

  /** The switch of emitLiteral: writes the tag and length bytes and returns how many. */
  method EmitLiteralHeader(dst: array<byte>, at: nat, n: nat) returns (i: nat)
    requires n < 65536 && at + |LiteralHeader(n + 1)| <= dst.Length
    modifies dst
    ensures i == |LiteralHeader(n + 1)|
    ensures dst[..] == Splice(old(dst[..]), at, LiteralHeader(n + 1))
  {
    SpliceIs(dst[..], at, LiteralHeader(n + 1));
    if n < 60 {
      dst[at] := n * 4;
      i := 1;
    } else if n < 256 {
      dst[at] := 60 * 4;
      dst[at + 1] := n % 256;
      i := 2;
    } else {
      dst[at] := 61 * 4;
      dst[at + 1] := n % 256;
      dst[at + 2] := n / 256 % 256;
      i := 3;
    }
  }

  /** Writes a literal chunk at `at`, behind the bytes `wire` already written, and returns its size. */
  method EmitLiteral(dst: array<byte>, at: nat, lit: seq<byte>, ghost was: seq<byte>, ghost at0: nat,
      ghost wire: seq<byte>)
    returns (size: nat, ghost wire': seq<byte>)
    requires 1 <= |lit| <= 65536
    requires at + LiteralSize(|lit|) <= dst.Length
    requires at == at0 + |wire| && |was| == dst.Length && dst[..] == Splice(was, at0, wire)
    modifies dst
    ensures size == LiteralSize(|lit|)
    ensures wire' == wire + LiteralHeader(|lit|) + lit
    ensures dst[..] == Splice(was, at0, wire')
  {
    var i := EmitLiteralHeader(dst, at, |lit| - 1);
    SpliceStep(was, old(dst[..]), dst[..], at0, at - at0, wire, LiteralHeader(|lit|), wire + LiteralHeader(|lit|));
    wire' := wire + LiteralHeader(|lit|) + lit;
    label Header:
    CopyInto(dst, at + i, lit);
    SpliceStep(was, old@Header(dst[..]), dst[..], at0, at + i - at0, wire + LiteralHeader(|lit|), lit, wire');
    size := i + |lit|;
  }

  function Copy2Bytes(offset: nat, length: nat): (s: seq<byte>)
    requires 1 <= length <= 64
  {
    [(length - 1) * 4 + 2, offset % 256, offset / 256 % 256]
  }

  function LastCopyBytes(offset: nat, length: nat): seq<byte>
    requires 4 <= length <= 64
  {
    if length >= 12 || offset >= 2048 then Copy2Bytes(offset, length)
    else [offset / 256 * 32 + (length - 4) * 4 + 1, offset % 256]
  }

  /** The bytes emitCopy writes, chunk by chunk. */
  function CopyBytes(offset: nat, length: nat): seq<byte>
    requires 4 <= length
  {
    if length >= 68 then Copy2Bytes(offset, 64) + CopyBytes(offset, length - 64)
    else if length > 64 then Copy2Bytes(offset, 60) + LastCopyBytes(offset, length - 60)
    else LastCopyBytes(offset, length)
  }

  lemma WireLastCopyBytes(offset: nat, length: nat)
    requires offset < 0x1_0000 && 4 <= length <= 64
    ensures WireAll(LastCopy(offset, length)) == LastCopyBytes(offset, length)
  {
    WireLastCopy(offset, length);
    if length >= 12 || offset >= 2048 {
      assert Wire(Copy(Copy2, offset, length)) == Copy2Bytes(offset, length);
    } else {
      assert Wire(Copy(Copy1, offset, length)) == LastCopyBytes(offset, length);
    }
  }

  /** The bytes emitCopy writes are the wire form of the chunks of the match. */
  lemma {:induction false} WireCopies(offset: nat, length: nat)
    requires offset < 0x1_0000 && 4 <= length
    ensures WireAll(Copies(offset, length)) == CopyBytes(offset, length)
    decreases length
  {
    if length > 64 {
      var k := if length >= 68 then 64 else 60;
      var rest := Copies(offset, length - k);
      WireCopies(offset, length - k);
      assert Copies(offset, length) == [Copy(Copy2, offset, k)] + rest;
      assert Copies(offset, length)[1..] == rest;
    } else {
      WireLastCopyBytes(offset, length);
    }
  }

  /** One three-byte copy. */
  method PutCopy2(dst: array<byte>, at: nat, offset: nat, length: nat)
    requires at + 3 <= dst.Length && 1 <= length <= 64
    modifies dst
    ensures dst[..] == Splice(old(dst[..]), at, Copy2Bytes(offset, length))
  {
    SpliceIs(dst[..], at, Copy2Bytes(offset, length));
    dst[at] := (length - 1) * 4 + 2;
    dst[at + 1] := offset % 256;
    dst[at + 2] := offset / 256 % 256;
  }

  /** The last chunk of a match: two bytes when the format allows it, three otherwise. */
  method EmitLastCopy(dst: array<byte>, at: nat, offset: nat, length: nat) returns (i: nat)
    requires 4 <= length <= 64
    requires at + |LastCopyBytes(offset, length)| <= dst.Length
    modifies dst
    ensures i == |LastCopyBytes(offset, length)|
    ensures dst[..] == Splice(old(dst[..]), at, LastCopyBytes(offset, length))
  {
    if length >= 12 || offset >= 2048 {
      PutCopy2(dst, at, offset, length);
      return 3;
    }
    SpliceIs(dst[..], at, LastCopyBytes(offset, length));
    dst[at] := offset / 256 * 32 + (length - 4) * 4 + 1;
    dst[at + 1] := offset % 256;
    return 2;
  }

  /** Writes the copy chunks for a match at `at`, behind the bytes `wire` already written, and
      returns their size. */
  method EmitCopy(dst: array<byte>, at: nat, offset: nat, length0: nat,
                  ghost was: seq<byte>, ghost at0: nat, ghost wire: seq<byte>, ghost all: seq<byte>)
    returns (i: nat)
    requires 1 <= offset <= 65535 && 4 <= length0 <= 65535
    requires all == wire + CopyBytes(offset, length0) && at0 + |all| <= dst.Length
    requires at == at0 + |wire| && |was| == dst.Length && dst[..] == Splice(was, at0, wire)
    modifies dst
    ensures i == |all| - |wire|
    ensures dst[..] == Splice(was, at0, all)
  {
    i := 0;
    var length := length0;
    ghost var written := wire;
    while length >= 68
      invariant 4 <= length <= length0 && at + i == at0 + |written|
      invariant written + CopyBytes(offset, length) == all
      invariant dst[..] == Splice(was, at0, written)
    {
      ghost var mid := dst[..];
      PutCopy2(dst, at + i, offset, 64);
      ghost var more := CopyStep(was, mid, dst[..], at0, at + i, written, offset, length, 64);
      i := i + 3;
      length := length - 64;
      written := more;
    }
    ghost var mid := dst[..];
    var k := EmitCopyTail(dst, at + i, offset, length);
    SpliceStep(was, mid, dst[..], at0, at + i - at0, written, CopyBytes(offset, length), all);
    i := i + k;
  }

  /** The last one or two chunks of a match. */
  method EmitCopyTail(dst: array<byte>, at: nat, offset: nat, length0: nat) returns (i: nat)
    requires 4 <= length0 < 68
    requires at + |CopyBytes(offset, length0)| <= dst.Length
    modifies dst
    ensures i == |CopyBytes(offset, length0)|
    ensures dst[..] == Splice(old(dst[..]), at, CopyBytes(offset, length0))
  {
    if length0 <= 64 {
      i := EmitLastCopy(dst, at, offset, length0);
    } else {
      ghost var was := dst[..];
      PutCopy2(dst, at, offset, 60);
      ghost var mid := dst[..];
      i := EmitLastCopy(dst, at + 3, offset, length0 - 60);
      SpliceStep(was, mid, dst[..], at, 3, Copy2Bytes(offset, 60), LastCopyBytes(offset, length0 - 60),
          CopyBytes(offset, length0));
      i := 3 + i;
    }
  }

  /** What one more three-byte copy adds to the bytes written. */
  lemma CopyStep(was: seq<byte>, mid: seq<byte>, now: seq<byte>, at0: nat, at: nat, written: seq<byte>,
                 offset: nat, length: nat, k: nat) returns (more: seq<byte>)
    requires length > 64 && k == (if length >= 68 then 64 else 60)
    requires at == at0 + |written| && at + |CopyBytes(offset, length)| <= |was|
    requires mid == Splice(was, at0, written) && now == Splice(mid, at, Copy2Bytes(offset, k))
    ensures |more| == |written| + 3
    ensures more + CopyBytes(offset, length - k) == written + CopyBytes(offset, length)
    ensures now == Splice(was, at0, more)
  {
    more := written + Copy2Bytes(offset, k);
    SpliceStep(was, mid, now, at0, at - at0, written, Copy2Bytes(offset, k), more);
    Associate(written, Copy2Bytes(offset, k), CopyBytes(offset, length - k));
  }

  // ---- The block encoder ----

  function Load32(b: seq<byte>, i: nat): nat
    requires i + 4 <= |b|
  {
    (b[i] as int) + (b[i + 1] as int) * 0x100 + (b[i + 2] as int) * 0x1_0000 + (b[i + 3] as int) * 0x100_0000
  }

  function Load64(b: seq<byte>, i: nat): nat
    requires i + 8 <= |b|
  {
    Load32(b, i) + Load32(b, i + 4) * 0x1_0000_0000
  }

  lemma Digit(x: byte, y: byte, a: int, b: int)
    requires x + 0x100 * a == y + 0x100 * b
    ensures x == y && a == b
  {
  }

  lemma Load32Injective(b: seq<byte>, i: nat, j: nat)
    requires i + 4 <= |b| && j + 4 <= |b| && Load32(b, i) == Load32(b, j)
    ensures b[i] == b[j] && b[i + 1] == b[j + 1] && b[i + 2] == b[j + 2] && b[i + 3] == b[j + 3]
  {
    var x2, y2 := (b[i + 2] as int) + (b[i + 3] as int) * 0x100, (b[j + 2] as int) + (b[j + 3] as int) * 0x100;
    var x1, y1 := (b[i + 1] as int) + 0x100 * x2, (b[j + 1] as int) + 0x100 * y2;
    Digit(b[i], b[j], x1, y1);
    Digit(b[i + 1], b[j + 1], x2, y2);
    Digit(b[i + 2], b[j + 2], b[i + 3], b[j + 3]);
  }

  /** Dividing takes the low digits away, and the remainder keeps the ones that are left. */
  lemma Shifted(low: nat, mid: nat, high: nat, d: nat)
    requires (d == 1 || d == 0x100 || d == 0x1_0000) && low < d && mid < 0x1_0000_0000
    ensures (low + d * (mid + 0x1_0000_0000 * high)) / d % 0x1_0000_0000 == mid
  {
    var m := mid + 0x1_0000_0000 * high;
    assert (low + d * m) / d == m;
  }

  lemma Load32Bound(b: seq<byte>, i: nat)
    requires i + 4 <= |b|
    ensures Load32(b, i) < 0x1_0000_0000
  {
  }

  /** The shifts of an eight-byte load are the four-byte loads at the following positions. */
  lemma Load64Shifts(b: seq<byte>, i: nat)
    requires i + 8 <= |b|
    ensures Load64(b, i) % 0x1_0000_0000 == Load32(b, i)
    ensures Load64(b, i) / 0x100 % 0x1_0000_0000 == Load32(b, i + 1)
    ensures Load64(b, i) / 0x1_0000 % 0x1_0000_0000 == Load32(b, i + 2)
  {
    var hi1 := (b[i + 5] as int) + (b[i + 6] as int) * 0x100 + (b[i + 7] as int) * 0x1_0000;
    var hi2 := (b[i + 6] as int) + (b[i + 7] as int) * 0x100;
    Load32Bound(b, i);
    Load32Bound(b, i + 1);
    Load32Bound(b, i + 2);
    Shifted(0, Load32(b, i), Load32(b, i + 4), 1);
    Shifted(b[i], Load32(b, i + 1), hi1, 0x100);
    Shifted(b[i] + (b[i + 1] as int) * 0x100, Load32(b, i + 2), hi2, 0x1_0000);
  }

  function Pow2(k: nat): (p: nat)
    ensures p >= 1
  {
    if k == 0 then 1 else 2 * Pow2(k - 1)
  }

  /** The multiplicative hash, reduced to an index of the table. */
  function TableIndex(u: nat, shift: nat): (h: nat)
    ensures h < MAX_TABLE_SIZE
  {
    u * 0x1e35a7bd % 0x1_0000_0000 / Pow2(shift) % MAX_TABLE_SIZE
  }

  /** `hash(u, shift) & tableMask`. Callers learn only that it is an index of the table: nothing the
      encoder promises depends on the hash. */
  method Hash(u: nat, shift: nat) returns (h: nat)
    ensures h < MAX_TABLE_SIZE
  {
    h := TableIndex(u, shift);
  }

  /** Every position the hash table remembers lies before `s`. */
  ghost predicate TableBelow(table: array<uint16>, s: nat)
    reads table
  {
    table.Length == MAX_TABLE_SIZE && forall h :: 0 <= h < table.Length ==> table[h] < s
  }

  predicate FourByteMatch(src: seq<byte>, s: nat, candidate: nat) {
    candidate < s && s + 4 <= |src| && forall j :: s <= j < s + 4 ==> src[j] == src[j - (s - candidate)]
  }

  lemma LoadsMatch(src: seq<byte>, s: nat, candidate: nat)
    requires candidate < s && s + 4 <= |src| && Load32(src, s) == Load32(src, candidate)
    ensures FourByteMatch(src, s, candidate)
  {
    Load32Injective(src, s, candidate);
    forall j | s <= j < s + 4 ensures src[j] == src[j - (s - candidate)] {
      assert j == s || j == s + 1 || j == s + 2 || j == s + 3;
    }
  }

  /** Scans for a four-byte match, in ever larger steps while none turns up. */
  method ScanForMatch(src: seq<byte>, table: array<uint16>, shift: nat, s0: nat, nextHash0: nat)
    returns (found: bool, s: nat, candidate: nat)
    requires MIN_NON_LITERAL_BLOCK_SIZE <= |src| <= MAX_BLOCK_SIZE
    requires 1 <= s0 && nextHash0 < MAX_TABLE_SIZE
    requires TableBelow(table, s0)
    modifies table
    ensures found ==> s0 <= s < |src| - INPUT_MARGIN && FourByteMatch(src, s, candidate)
    ensures found ==> TableBelow(table, s + 1)
  {
    var sLimit := |src| - INPUT_MARGIN;
    var skip := 32;
    var nextS, nextHash := s0, nextHash0;
    candidate := 0;
    while true
      invariant s0 <= nextS && skip >= 32 && 0 <= nextHash < MAX_TABLE_SIZE
      invariant TableBelow(table, nextS)
      decreases |src| - nextS
    {
      s := nextS;
      var bytesBetweenHashLookups := skip / 32;
      nextS := s + bytesBetweenHashLookups;
      skip := skip + bytesBetweenHashLookups;
      if nextS > sLimit { return false, s, candidate; }
      candidate := table[nextHash];
      table[nextHash] := s % 0x1_0000;
      nextHash := Hash(Load32(src, nextS), shift);
      if Load32(src, s) == Load32(src, candidate) {
        LoadsMatch(src, s, candidate);
        return true, s, candidate;
      }
    }
  }

  /** Three four-byte loads as shifts of one eight-byte load. */
  method LoadThree(src: seq<byte>, i: nat) returns (x0: nat, x1: nat, x2: nat)
    requires i + 8 <= |src|
    ensures x0 == Load32(src, i) && x1 == Load32(src, i + 1) && x2 == Load32(src, i + 2)
    ensures x0 < 0x1_0000_0000 && x1 < 0x1_0000_0000 && x2 < 0x1_0000_0000
  {
    var x := Load64(src, i);
    Load64Shifts(src, i);
    x0, x1, x2 := x % 0x1_0000_0000, x / 0x100 % 0x1_0000_0000, x / 0x1_0000 % 0x1_0000_0000;
  }

  /** Enters positions s-1 and s in the table and looks for another match right at s; without one,
      also computes the hash for position s+1. */
  method Rehash(src: seq<byte>, table: array<uint16>, shift: nat, s: nat)
    returns (matched: bool, candidate: nat, nextHash: nat)
    requires |src| <= MAX_BLOCK_SIZE && 1 <= s < |src| - INPUT_MARGIN
    requires TableBelow(table, s)
    modifies table
    ensures TableBelow(table, s + 1)
    ensures matched ==> FourByteMatch(src, s, candidate)
    ensures !matched ==> nextHash < MAX_TABLE_SIZE
  {
    var x0, x1, x2 := LoadThree(src, s - 1);
    nextHash := 0;
    var prevHash := Hash(x0, shift);
    table[prevHash] := (s - 1) % 0x1_0000;
    var currHash := Hash(x1, shift);
    candidate := table[currHash];
    table[currHash] := s % 0x1_0000;
    matched := x1 == Load32(src, candidate);
    if !matched {
      nextHash := Hash(x2, shift);
    } else {
      LoadsMatch(src, s, candidate);
    }
  }

  /** The largest k such that src[i:i+k-j] and src[j:k] are the same. */
  method ExtendMatch(src: seq<byte>, i0: nat, j0: nat) returns (k: nat)
    requires i0 < j0 <= |src|
    ensures j0 <= k <= |src|
    ensures forall j :: j0 <= j < k ==> src[j] == src[j - (j0 - i0)]
    ensures k < |src| ==> src[k] != src[k - (j0 - i0)]
  {
    var i, j := i0, j0;
    while j < |src| && src[i] == src[j]
      invariant i0 <= i && j0 <= j <= |src| && j - i == j0 - i0
      invariant forall m :: j0 <= m < j ==> src[m] == src[m - (j0 - i0)]
    {
      i, j := i + 1, j + 1;
    }
    return j;
  }

  /** What writing the chunks of one more decision adds, and that there is room for it. */
  lemma AppendOp(ops: seq<Op>, op: Op, src: seq<byte>)
    requires |src| <= MAX_BLOCK_SIZE && Parses(ops + [op], src, End(op))
    ensures WireAll(Elements(ops + [op], src)) == WireAll(Elements(ops, src)) + WireAll(OpElements(op, src))
    ensures |WireAll(Elements(ops + [op], src))| <= BlockBound(End(op)) <= BlockBound(|src|)
  {
    assert (ops + [op])[..|ops|] == ops;
    WireElementsSize(ops + [op], src, End(op));
    FlatMapConcat(Wire, Elements(ops, src), OpElements(op, src));
  }

  /** `wire` is the wire form of the decisions `ops`, which cover `src[..upto]`. */
  ghost predicate Encodes(ops: seq<Op>, src: seq<byte>, upto: nat, wire: seq<byte>) {
    Parses(ops, src, upto) && wire == WireAll(Elements(ops, src))
  }

  /** One more decision: what its bytes `b` add, and that there is still room. */
  lemma EncodesMore(ops: seq<Op>, op: Op, src: seq<byte>, wire: seq<byte>, b: seq<byte>, wire': seq<byte>)
    requires |src| <= MAX_BLOCK_SIZE && Encodes(ops, src, Start(op), wire) && GoodOp(op, src)
    requires op.Match? || ops == [] || ops[|ops| - 1].Match?
    requires b == WireAll(OpElements(op, src)) && wire' == wire + b
    ensures Encodes(ops + [op], src, End(op), wire')
    ensures |wire'| <= BlockBound(|src|)
  {
    ParsesMore(ops, op, src);
    AppendOp(ops, op, src);
  }

  lemma RunBytes(src: seq<byte>, lo: nat, hi: nat)
    requires lo < hi <= |src| <= MAX_BLOCK_SIZE
    ensures WireAll(OpElements(Emit(lo, hi), src)) == LiteralHeader(hi - lo) + src[lo..hi]
    ensures |LiteralHeader(hi - lo) + src[lo..hi]| == LiteralSize(hi - lo)
  {
    WireLiteral(src[lo..hi]);
    WireLiteralBytes(src[lo..hi]);
  }

  lemma ParsesMore(ops: seq<Op>, op: Op, src: seq<byte>)
    requires Parses(ops, src, Start(op)) && GoodOp(op, src)
    requires op.Match? || ops == [] || ops[|ops| - 1].Match?
    ensures Parses(ops + [op], src, End(op))
  {
    assert (ops + [op])[..|ops|] == ops;
  }

  /** One more literal: the bytes it adds, and that there is room for them. */
  lemma RunStep(ops: seq<Op>, src: seq<byte>, lo: nat, hi: nat, wire: seq<byte>, wire': seq<byte>)
    requires |src| <= MAX_BLOCK_SIZE && lo < hi <= |src| && Encodes(ops, src, lo, wire) && AfterMatch(ops)
    requires wire' == wire + LiteralHeader(hi - lo) + src[lo..hi]
    ensures Encodes(ops + [Emit(lo, hi)], src, hi, wire')
    ensures |wire'| == |wire| + LiteralSize(hi - lo) <= BlockBound(|src|)
  {
    RunBytes(src, lo, hi);
    Associate(wire, LiteralHeader(hi - lo), src[lo..hi]);
    EncodesMore(ops, Emit(lo, hi), src, wire, LiteralHeader(hi - lo) + src[lo..hi], wire');
  }

  /** The `d` bytes `wire` of the decisions `ops` are in `dst` from `d0` on, with room for the rest of
      the block, and nothing else of `was` has changed. */
  ghost predicate Written(dst: array<byte>, was: seq<byte>, d0: nat, d: nat, wire: seq<byte>, ops: seq<Op>,
      src: seq<byte>, upto: nat)
    reads dst
  {
    && |src| <= MAX_BLOCK_SIZE && d0 + BlockBound(|src|) <= dst.Length == |was|
    && Encodes(ops, src, upto, wire) && d == |wire| <= BlockBound(|src|)
    && dst[..] == Splice(was, d0, wire)
  }

  /** A literal may come next. */
  predicate AfterMatch(ops: seq<Op>) {
    ops == [] || ops[|ops| - 1].Match?
  }

  /** Writes `src[lo..hi]` as a literal: one more decision, recorded in `ops'`. */
  method EmitRun(dst: array<byte>, d0: nat, d: nat, src: seq<byte>, lo: nat, hi: nat,
                 ghost was: seq<byte>, ghost wire: seq<byte>, ghost ops: seq<Op>)
    returns (d': nat, ghost wire': seq<byte>, ghost ops': seq<Op>)
    requires lo < hi <= |src| && AfterMatch(ops) && Written(dst, was, d0, d, wire, ops, src, lo)
    modifies dst
    ensures ops' == ops + [Emit(lo, hi)] && Written(dst, was, d0, d', wire', ops', src, hi)
  {
    var lit := src[lo..hi];
    wire' := wire + LiteralHeader(|lit|) + lit;
    RunStep(ops, src, lo, hi, wire, wire');
    var size;
    size, wire' := EmitLiteral(dst, d0 + d, lit, was, d0, wire);
    return d + size, wire', ops + [Emit(lo, hi)];
  }

  /** The end of the match that starts with the four equal bytes at `at` and `candidate`. */
  method FindMatchEnd(src: seq<byte>, at: nat, candidate: nat) returns (s: nat)
    requires FourByteMatch(src, at, candidate)
    ensures at + 4 <= s <= |src| && GreedyMatch(src, at, candidate, s - at)
  {
    s := ExtendMatch(src, candidate + 4, at + 4);
  }

  /** One more match, ending at `s`: the bytes it adds, and that there is room for them. */
  lemma MatchStep(ops: seq<Op>, src: seq<byte>, at: nat, candidate: nat, s: nat, wire: seq<byte>, wire': seq<byte>)
    requires |src| <= MAX_BLOCK_SIZE && Encodes(ops, src, at, wire)
    requires at + 4 <= s && GreedyMatch(src, at, candidate, s - at)
    requires wire' == wire + CopyBytes(at - candidate, s - at)
    ensures Encodes(ops + [Match(at, candidate, s - at)], src, s, wire')
    ensures |wire'| <= BlockBound(|src|)
  {
    WireCopies(at - candidate, s - at);
    EncodesMore(ops, Match(at, candidate, s - at), src, wire, CopyBytes(at - candidate, s - at), wire');
  }

  /** Writes the match of `src[at..]` with `src[candidate..]`, extended as far as it goes. */
  method EmitMatch(dst: array<byte>, d0: nat, d: nat, src: seq<byte>, at: nat, candidate: nat,
                   ghost was: seq<byte>, ghost wire: seq<byte>, ghost ops: seq<Op>)
    returns (d': nat, s: nat, ghost wire': seq<byte>, ghost ops': seq<Op>)
    requires FourByteMatch(src, at, candidate) && Written(dst, was, d0, d, wire, ops, src, at)
    modifies dst
    ensures at + 4 <= s <= |src|
    ensures ops' == ops + [Match(at, candidate, s - at)] && Written(dst, was, d0, d', wire', ops', src, s)
  {
    s := FindMatchEnd(src, at, candidate);
    wire' := wire + CopyBytes(at - candidate, s - at);
    MatchStep(ops, src, at, candidate, s, wire, wire');
    ops' := ops + [Match(at, candidate, s - at)];
    d' := EmitCopy(dst, d0 + d, at - candidate, s - at, was, d0, wire, wire');
    d' := d + d';
  }

  /** The shift that reduces a hash to the size of the table, which grows with the input. */
  method TableShift(srcLen: nat) returns (shift: nat)
    ensures 18 <= shift <= 24
    ensures shift > 18 ==> 256 * Pow2(24 - shift) >= srcLen
  {
    var tableSize: nat := 256;
    shift := 32 - 8;
    assert Pow2(6) == 64 by { assert Pow2(4) == 16; }
    while tableSize < MAX_TABLE_SIZE && tableSize < srcLen
      invariant tableSize == 256 * Pow2(24 - shift) && 18 <= shift <= 24
      decreases MAX_TABLE_SIZE - tableSize
    {
      Pow2Grows(24 - shift, 5);
      shift := shift - 1;
      tableSize := tableSize * 2;
    }
  }

  lemma {:induction false} Pow2Grows(j: nat, k: nat)
    ensures j <= k ==> Pow2(j) <= Pow2(k)
    ensures j > k ==> Pow2(j) >= 2 * Pow2(k)
    decreases j
  {
    if j > 0 && k > 0 {
      Pow2Grows(j - 1, k - 1);
    }
  }

  /** The inner loop: one match after the other, until there is none right behind the last one or the
      input is almost used up. */
  method EmitMatches(dst: array<byte>, d0: nat, d: nat, src: seq<byte>, table: array<uint16>, shift: nat, s0: nat,
                     candidate0: nat,
                     ghost was: seq<byte>, ghost wire: seq<byte>, ghost ops: seq<Op>)
    returns (exhausted: bool, d': nat, s: nat, nextHash: nat, ghost wire': seq<byte>, ghost ops': seq<Op>)
    requires s0 < |src| - INPUT_MARGIN && FourByteMatch(src, s0, candidate0)
    requires TableBelow(table, s0 + 1) && (dst as object) != table
    requires Written(dst, was, d0, d, wire, ops, src, s0)
    modifies dst, table
    ensures s0 < s <= |src| && AfterMatch(ops')
    ensures Written(dst, was, d0, d', wire', ops', src, s)
    ensures !exhausted ==> TableBelow(table, s + 1) && nextHash < MAX_TABLE_SIZE
  {
    var candidate := candidate0;
    d', s, nextHash, wire', ops' := d, s0, 0, wire, ops;
    while true
      invariant s0 <= s < |src| - INPUT_MARGIN && TableBelow(table, s + 1) && FourByteMatch(src, s, candidate)
      invariant Written(dst, was, d0, d', wire', ops', src, s)
      decreases |src| - s
    {
      d', s, wire', ops' := EmitMatch(dst, d0, d', src, s, candidate, was, wire', ops');
      if s >= |src| - INPUT_MARGIN { return true, d', s, 0, wire', ops'; }
      var matched;
      matched, candidate, nextHash := Rehash(src, table, shift, s);
      if !matched { return false, d', s, nextHash, wire', ops'; }
    }
  }

  /** Encodes `src` at `dst[d0..]` and returns the number of bytes written. */
  method EncodeBlock(dst: array<byte>, d0: nat, src: seq<byte>)
      returns (d: nat, ghost wire: seq<byte>, ghost ops: seq<Op>)
    requires MIN_NON_LITERAL_BLOCK_SIZE <= |src| <= MAX_BLOCK_SIZE
    requires d0 + BlockBound(|src|) <= dst.Length
    modifies dst
    ensures Encodes(ops, src, |src|, wire)
    ensures d == |wire| <= BlockBound(|src|) && dst[..] == Splice(old(dst[..]), d0, wire)
  {
    ghost var was := dst[..];
    var shift := TableShift(|src|);
    var table := new uint16[MAX_TABLE_SIZE](_ => 0);
    var nextEmit: nat, s: nat := 0, 1;
    var nextHash := Hash(Load32(src, s), shift);
    d, wire, ops := 0, [], [];
    assert dst[..] == was;
    while true
      invariant nextEmit < s && TableBelow(table, s) && 0 <= nextHash < MAX_TABLE_SIZE
      invariant Written(dst, was, d0, d, wire, ops, src, nextEmit) && AfterMatch(ops)
      decreases |src| - nextEmit
    {
      var found, candidate: nat;
      found, s, candidate := ScanForMatch(src, table, shift, s, nextHash);
      if !found { break; }
      d, wire, ops := EmitRun(dst, d0, d, src, nextEmit, s, was, wire, ops);
      var exhausted;
      exhausted, d, nextEmit, nextHash, wire, ops :=
          EmitMatches(dst, d0, d, src, table, shift, s, candidate, was, wire, ops);
      if exhausted { break; }
      s := nextEmit + 1;
    }
    if nextEmit < |src| {
      d, wire, ops := EmitRun(dst, d0, d, src, nextEmit, |src|, was, wire, ops);
    }
  }

  // ---- Whole blocks ----

  /** An upper bound on the size of the block for `srcLen` bytes, negative when that is too many. */
  function MaxEncodedLen(w: Word, srcLen: int): int
    requires -0x8000_0000_0000_0000 <= srcLen <= 0x7fff_ffff_ffff_ffff
  {
    var n := if srcLen < 0 then srcLen + TWO_64 else srcLen;
    if n > 0xffff_ffff then -1
    else
      var m := 32 + n + n / 6;
      if m > 0xffff_ffff then -1 else ToInt(w, m)
  }

  lemma MaxEncodedLenIs(w: Word, n: nat)
    requires n <= MaxInt(w)
    ensures MaxEncodedLen(w, n) >= 0 ==>
              MaxEncodedLen(w, n) == 32 + n + n / 6 <= 0xffff_ffff && 32 + n + n / 6 <= MaxInt(w)
  {
  }

  /** `wire` is the wire form of chunks that denote `data`. */
  lemma BodyExtends(a: seq<byte>, x: seq<byte>, es: seq<Element>, b: seq<byte>, y: seq<byte>)
    requires IsBody(a, x) && WireAll(es) == b && Run(es, []) == Some(y)
    ensures IsBody(a + b, x + y)
  {
    var ds :| Denotes(ds, a, [], x);
    RunPrefix(es, x, []);
    assert x + [] == x;
    RunConcat(ds, es, []);
    FlatMapConcat(Wire, ds, es);
    assert Denotes(ds + es, a + b, [], x + y);
  }

  /** One more block `p` of the input behind the header and the body of the blocks before it. */
  lemma BodyStep(header: seq<byte>, body: seq<byte>, src: seq<byte>, done: nat, p: seq<byte>,
                 es: seq<Element>, more: seq<byte>, wire: seq<byte>)
    returns (body': seq<byte>)
    requires done + |p| <= |src| && p == src[done..done + |p|] && IsBody(body, src[..done])
    requires WireAll(es) == more && Run(es, []) == Some(p) && wire == (header + body) + more
    ensures IsBody(body', src[..done + |p|]) && wire == header + body'
  {
    body' := body + more;
    BodyExtends(body, src[..done], es, more, p);
    Associate(header, body, more);
    Decoder.SliceSplit(src, done, done + |p|);
  }

  lemma EmptyBody()
    ensures IsBody([], [])
  {
    assert Denotes([], [], [], []);
  }

  /** Writes one block of the input behind `wire`: as a literal when it is short. */
  method EncodePart(buf: array<byte>, lo: nat, d: nat, p: seq<byte>, ghost was: seq<byte>, ghost wire: seq<byte>)
    returns (d': nat, ghost wire': seq<byte>, ghost more: seq<byte>, ghost es: seq<Element>)
    requires 1 <= |p| <= MAX_BLOCK_SIZE
    requires lo + d + BlockBound(|p|) <= buf.Length == |was|
    requires d == |wire| && buf[..] == Splice(was, lo, wire)
    modifies buf
    ensures d' == |wire'| && wire' == wire + more && |more| <= BlockBound(|p|)
    ensures buf[..] == Splice(was, lo, wire')
    ensures more == WireAll(es) && Run(es, []) == Some(p)
  {
    if |p| < MIN_NON_LITERAL_BLOCK_SIZE {
      WireLiteral(p);
      WireLiteralBytes(p);
      es, more := [LiteralElement(p)], LiteralHeader(|p|) + p;
      var size;
      size, wire' := EmitLiteral(buf, lo + d, p, was, lo, wire);
      Associate(wire, LiteralHeader(|p|), p);
      d' := d + size;
      assert [] + p == p;
      assert Run(es, []) == Run([], p);
    } else {
      ghost var ops;
      ghost var mid := buf[..];
      var size;
      size, more, ops := EncodeBlock(buf, lo + d, p);
      wire' := wire + more;
      SpliceStep(was, mid, buf[..], lo, d, wire, more, wire');
      es := Elements(ops, p);
      RunElements(ops, p, |p|);
      assert p[..|p|] == p;
      d' := d + size;
    }
  }

  /** One more block keeps the output within the bound for what is encoded so far. */
  lemma BlockFits(done: nat, n: nat, total: nat, d: nat)
    requires done < done + n <= total && n <= MAX_BLOCK_SIZE && (n < MAX_BLOCK_SIZE ==> done + n == total)
    requires d <= Spent(done, total)
    ensures d + BlockBound(n) <= Spent(done + n, total) <= 32 + total + total / 6
  {
  }

  /** The room for the header and the blocks of the first `done` bytes. */
  function Spent(done: nat, total: nat): nat {
    5 + done + done / 6 + if done < total then 0 else 3
  }

  lemma BlockOf(header: seq<byte>, body: seq<byte>, src: seq<byte>)
    requires header == Varint(|src|) && |header| <= 5 && IsBody(body, src) && |src| <= 0xffff_ffff
    ensures Decoder.IsBlock(header + body, src)
  {
    ScanVarint(|src|, body);
    assert (header + body)[|header|..] == body;
  }

  /** The loop over the input, block by block, behind the length header. */
  method EncodeBody(buf: array<byte>, lo: nat, src: seq<byte>, ghost was: seq<byte>, ghost header: seq<byte>, d0: nat)
    returns (d: nat, ghost wire: seq<byte>, ghost body: seq<byte>)
    requires d0 == |header| <= 5 && lo + 32 + |src| + |src| / 6 <= buf.Length == |was|
    requires buf[..] == Splice(was, lo, header)
    modifies buf
    ensures wire == header + body && IsBody(body, src)
    ensures d == |wire| <= 32 + |src| + |src| / 6
    ensures buf[..] == Splice(was, lo, wire)
  {
    var done := 0;
    d, body := d0, [];
    EmptyBody();
    wire := header;
    while done < |src|
      invariant done <= |src| && IsBody(body, src[..done])
      invariant wire == header + body
      invariant d == |wire| <= Spent(done, |src|)
      invariant buf[..] == Splice(was, lo, wire)
    {
      d, done, wire, body := EncodeNext(buf, lo, d, src, done, was, wire, header, body);
    }
    assert src[..done] == src;
  }

  /** One pass of that loop: at most 65536 bytes of the input become one more block. */
  method EncodeNext(buf: array<byte>, lo: nat, d: nat, src: seq<byte>, done: nat, ghost was: seq<byte>,
                    ghost wire: seq<byte>, ghost header: seq<byte>, ghost body: seq<byte>)
    returns (d': nat, done': nat, ghost wire': seq<byte>, ghost body': seq<byte>)
    requires done < |src| && IsBody(body, src[..done]) && wire == header + body && d == |wire| <= Spent(done, |src|)
    requires lo + 32 + |src| + |src| / 6 <= buf.Length == |was| && buf[..] == Splice(was, lo, wire)
    modifies buf
    ensures done < done' <= |src| && IsBody(body', src[..done']) && wire' == header + body'
    ensures d' == |wire'| <= Spent(done', |src|) && buf[..] == Splice(was, lo, wire')
  {
    var p := src[done..];
    if |p| > MAX_BLOCK_SIZE {
      p := src[done..done + MAX_BLOCK_SIZE];
    }
    BlockFits(done, |p|, |src|, d);
    ghost var more, es;
    d', wire', more, es := EncodePart(buf, lo, d, p, was, wire);
    body' := BodyStep(header, body, src, done, p, es, more, wire');
    done' := done + |p|;
  }

  /** Encodes `src` into `dst[off..]` when that is long enough and into a new array otherwise; the
      block is `buf[lo..lo + d]`. The source panics when `src` is too long. */
  method Encode(w: Word, dst: array<byte>, off: nat, src: seq<byte>)
    returns (panics: bool, buf: array<byte>, lo: nat, d: nat)
    requires off <= dst.Length && |src| <= MaxInt(w)
    modifies dst
    ensures panics <==> MaxEncodedLen(w, |src|) < 0
    ensures panics ==> dst[..] == old(dst[..])
    ensures !panics ==> lo + d <= buf.Length && Decoder.IsBlock(buf[lo..lo + d], src)
    ensures !panics ==> d <= MaxEncodedLen(w, |src|)
    ensures !panics && MaxEncodedLen(w, |src|) <= dst.Length - off ==>
              buf == dst && lo == off && dst[..] == Splice(old(dst[..]), off, dst[off..off + d])
    ensures !panics && MaxEncodedLen(w, |src|) > dst.Length - off ==>
              fresh(buf) && lo == 0 && dst[..] == old(dst[..])
  {
    MaxEncodedLenIs(w, |src|);
    buf, lo, d := dst, off, 0;
    var n := MaxEncodedLen(w, |src|);
    if n < 0 {
      return true, buf, lo, d;
    } else if dst.Length - off < n {
      buf := new byte[n];
      lo := 0;
    }
    panics := false;
    ghost var was := buf[..];
    var header := Varint(|src|);
    Pow128Values();
    VarintSize(|src|, 5);
    CopyInto(buf, lo, header);
    ghost var wire, body;
    d, wire, body := EncodeBody(buf, lo, src, was, header, |header|);
    BlockOf(header, body, src);
    SpliceIs(was, lo, wire);
    assert buf[lo..lo + d] == wire;
  }

  /** The law the package is for: decoding an encoded block gives back the bytes that were encoded. */
  method RoundTrip(w: Word, src: seq<byte>) returns (panics: bool, out: array<byte>, n: nat)
    requires |src| <= MaxInt(w)
    ensures panics <==> MaxEncodedLen(w, |src|) < 0
    ensures !panics ==> n <= out.Length && out[..n] == src
  {
    var none := new byte[0];
    var buf, lo, d;
    panics, buf, lo, d := Encode(w, none, 0, src);
    if panics { return true, none, 0; }
    var block := buf[lo..lo + d];
    MaxEncodedLenIs(w, |src|);
    var err;
    err, out, n := Decoder.Decode(w, none, block);
    assert Decoder.IsDecodable(w, block, src);
    Decoder.DecodableIff(w, block, src);
    Decoder.DecodableIff(w, block, out[..n]);
  }
}
