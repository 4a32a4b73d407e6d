/** The sizers of golang/protobuf/proto/encode.go, and how near the 2 GB limit encoding can fail. */
module ProtoSize {
  import opened Bytes
  import opened Options
  import opened Varints
  import opened ProtoVarint
  import opened ProtoNumbers
  import opened ProtoSchema
  import opened ProtoEncoder

  // ---- Sizes agree ----

  /** The `valSize` of a wire format. */
  method NumberSize(f: Format, x: nat) returns (n: nat)
    requires x < TWO_64
    ensures n == |Put(f, x)|
  {
    match f {
      case Fixed32 => n := 4;
      case Fixed64 => n := 8;
      case VarintFormat => n := SizeVarint(x);
      case Zigzag32 => n := SizeVarint(Zigzag32Of(x));
      case Zigzag64 => n := SizeVarint(Zigzag64Of(x));
    }
  }

  /** An element with its key. A bool is counted as one byte without looking at it. */
  method ElementSize(S: Schema, fd: FieldDesc, v: Value) returns (n: nat)
    requires ValidSchema(S) && ValidField(S, fd) && WellTypedValue(S, fd.kind, v)
    ensures n == |Key(fd.tag, WireOf(fd.kind)) + Payload(S, fd, v)|
    decreases v, 1
  {
    n := SizeVarint(8 * fd.tag + WireOf(fd.kind));
    match fd.kind {
      case Numeric(t, f) =>
        if t == Bool {
          n := n + 1;
        } else {
          var k := NumberSize(f, Carry(t, v.n));
          n := n + k;
        }
      case Text =>
        var k := SizeVarint(|v.b|);
        n := n + k + |v.b|;
      case Message(ty) =>
        var n1 := SizeStruct(S, ty, v.m);
        var n2 := SizeVarint(n1);
        n := n + n1 + n2;
      case Group(ty) =>
        var n1 := SizeStruct(S, ty, v.m);
        var n2 := SizeVarint(8 * fd.tag + 4);
        n := n + n1 + n2;
    }
  }

  /** The numbers of a packed list; a list of bools is as long as it has elements. */
  method PackedSize(S: Schema, fd: FieldDesc, f: Field) returns (bufSize: nat)
    requires ValidField(S, fd) && fd.kind.Numeric? && WellTypedField(S, fd, f)
    ensures bufSize == |Numbers(fd.kind.t, fd.kind.f, f.vals)|
  {
    if fd.kind.t == Bool {
      BoolsSize(S, fd, f, 0);
      assert f.vals[0..] == f.vals;
      return |f.vals|;
    }
    bufSize := 0;
    var i := 0;
    assert f.vals[0..] == f.vals;
    while i < |f.vals|
      invariant i <= |f.vals|
      invariant bufSize + |Numbers(fd.kind.t, fd.kind.f, f.vals[i..])| == |Numbers(fd.kind.t, fd.kind.f, f.vals)|
    {
      assert WellTypedValue(S, fd.kind, f.vals[i]) && f.vals[i..][1..] == f.vals[i + 1..];
      var k := NumberSize(fd.kind.f, Carry(fd.kind.t, f.vals[i].n));
      bufSize := bufSize + k;
      i := i + 1;
    }
  }

  lemma {:induction false} BoolsSize(S: Schema, fd: FieldDesc, f: Field, k: nat)
    requires fd.kind == Numeric(Bool, VarintFormat) && WellTypedField(S, fd, f) && k <= |f.vals|
    ensures |Numbers(Bool, VarintFormat, f.vals[k..])| == |f.vals| - k
    decreases |f.vals| - k
  {
    if k < |f.vals| {
      assert WellTypedValue(S, fd.kind, f.vals[k]) && f.vals[k..][1..] == f.vals[k + 1..];
      BoolsSize(S, fd, f, k + 1);
    }
  }

  method FieldSize(S: Schema, fd: FieldDesc, f: Field) returns (n: nat)
    requires ValidSchema(S) && ValidField(S, fd) && WellTypedField(S, fd, f)
    ensures n == |FieldBytes(S, fd, f.vals)|
    decreases f, 2
  {
    if |f.vals| == 0 { return 0; }
    if fd.mode == Packed && fd.kind.Numeric? {
      n := SizeVarint(8 * fd.tag + 2);
      var bufSize := PackedSize(S, fd, f);
      var k := SizeVarint(bufSize);
      return n + k + bufSize;
    }
    n := 0;
    var i := 0;
    assert f.vals[0..] == f.vals;
    while i < |f.vals|
      invariant i <= |f.vals|
      invariant n + |Records(S, fd, f.vals[i..])| == |Records(S, fd, f.vals)|
    {
      RecordsHead(S, fd, f.vals, i);
      assert WellTypedValue(S, fd.kind, f.vals[i]);
      var k := ElementSize(S, fd, f.vals[i]);
      n := n + k;
      i := i + 1;
    }
  }

  /** `size_struct` gives the number of bytes that `enc_struct` appends. */
  method SizeStruct(S: Schema, ty: nat, m: Msg) returns (n: nat)
    requires ValidSchema(S) && WellTyped(S, ty, m)
    ensures n == |Ser(S, ty, m)|
    decreases m, 3
  {
    n := 0;
    var i := 0;
    assert ValidType(S, S[ty]);
    while i < |m.fields|
      invariant i <= |m.fields|
      invariant n + |FieldsFrom(S, S[ty], m, i)| == |FieldsFrom(S, S[ty], m, 0)|
    {
      assert ValidField(S, S[ty].fields[i]) && WellTypedField(S, S[ty].fields[i], m.fields[i]);
      var k := FieldSize(S, S[ty].fields[i], m.fields[i]);
      n := n + k;
      i := i + 1;
    }
    if S[ty].keepsUnknown {
      n := n + |m.unknown|;
    }
  }

  // ---- The size limit ----

  /** How deep embedded messages are nested. */
  function Depth(m: Msg): nat
    decreases m, 1
  {
    DepthFrom(m, 0)
  }

  function DepthFrom(m: Msg, i: nat): nat
    requires i <= |m.fields|
    decreases m, 0, |m.fields| - i
  {
    if i == |m.fields| then 0 else Max(FieldDepth(m.fields[i], 0), DepthFrom(m, i + 1))
  }

  function FieldDepth(f: Field, k: nat): nat
    requires k <= |f.vals|
    decreases f, |f.vals| - k
  {
    if k == |f.vals| then 0 else Max(ValueDepth(f.vals[k]), FieldDepth(f, k + 1))
  }

  function ValueDepth(v: Value): nat
    decreases v, 0
  {
    match v
    case Sub(m) => 1 + Depth(m)
    case _ => 0
  }

  function Max(a: nat, b: nat): nat {
    if a < b then b else a
  }

  // ---- The largest length that is checked ----

  function Later(a: Option<nat>, b: Option<nat>): Option<nat> {
    if a.None? then b else if b.None? then a else Some(Max(a.value, b.value))
  }

  function Behind(n: nat, a: Option<nat>): Option<nat> {
    match a
    case Some(k) => Some(n + k)
    case None => None
  }

  predicate Exceeds(n: nat, a: Option<nat>) {
    a.Some? && n + a.value > MAX_MARSHAL_SIZE
  }

  lemma LaterExceeds(n: nat, a: Option<nat>, b: Option<nat>)
    ensures Exceeds(n, Later(a, b)) <==> Exceeds(n, a) || Exceeds(n, b)
  {
  }

  /** The largest length of the buffer that is checked while a message is encoded behind nothing: the
      bytes in front of the check, and four more for every length prefix that is still open. None when
      nothing is checked. */
  function Peak(S: Schema, ty: nat, m: Msg): Option<nat>
    decreases m, 5
  {
    if ty < |S| then PeakFrom(S, ty, m, 0) else None
  }

  function PeakFrom(S: Schema, ty: nat, m: Msg, i: nat): Option<nat>
    requires ty < |S| && i <= |m.fields|
    decreases m, 4, |m.fields| - i
  {
    if i == |m.fields| || i >= |S[ty].fields| then (if S[ty].keepsUnknown then Some(|m.unknown|) else None)
    else
      Later(PeakHere(S, S[ty].fields[i], m.fields[i]),
            Behind(|FieldBytes(S, S[ty].fields[i], m.fields[i].vals)|, PeakFrom(S, ty, m, i + 1)))
  }

  /** Behind a field, and inside it. */
  function PeakHere(S: Schema, fd: FieldDesc, f: Field): Option<nat>
    decreases f, 3
  {
    if fd.mode == Reserved then None
    else
      Later(if fd.mode == Packed && fd.kind.Numeric? then None else PeakValues(S, fd, f, 0),
            Some(|FieldBytes(S, fd, f.vals)|))
  }

  function PeakValues(S: Schema, fd: FieldDesc, f: Field, k: nat): Option<nat>
    requires k <= |f.vals|
    decreases f, 2, |f.vals| - k
  {
    if k == |f.vals| then None
    else
      Later(PeakValue(S, fd, f.vals[k]),
            Behind(|Key(fd.tag, WireOf(fd.kind)) + Payload(S, fd, f.vals[k])|, PeakValues(S, fd, f, k + 1)))
  }

  function PeakValue(S: Schema, fd: FieldDesc, v: Value): Option<nat>
    decreases v, 1
  {
    match fd.kind
    case Message(ty) => if v.Sub? then Behind(|Key(fd.tag, 2)| + 4, Peak(S, ty, v.m)) else None
    case Group(ty) => if v.Sub? then Behind(|Key(fd.tag, 3)|, Peak(S, ty, v.m)) else None
    case _ => None
  }

  /** Wherever a message is put in the buffer, it is too big exactly when the largest length that is
      checked exceeds the limit. */
  lemma {:induction false} TooBigIff(S: Schema, ty: nat, m: Msg, n: nat)
    ensures TooBig(S, ty, m, n) <==> Exceeds(n, Peak(S, ty, m))
    decreases m, 5
  {
    if ty < |S| {
      TooBigFromIff(S, ty, m, 0, n);
    }
  }

  lemma {:induction false} TooBigFromIff(S: Schema, ty: nat, m: Msg, i: nat, n: nat)
    requires ty < |S| && i <= |m.fields|
    ensures TooBigFrom(S, ty, m, i, n) <==> Exceeds(n, PeakFrom(S, ty, m, i))
    decreases m, 4, |m.fields| - i
  {
    if i < |m.fields| && i < |S[ty].fields| {
      var fd := S[ty].fields[i];
      var k := |FieldBytes(S, fd, m.fields[i].vals)|;
      TooBigHereIff(S, fd, m.fields[i], n);
      TooBigFromIff(S, ty, m, i + 1, n + k);
      LaterExceeds(n, PeakHere(S, fd, m.fields[i]), Behind(k, PeakFrom(S, ty, m, i + 1)));
    }
  }

  lemma {:induction false} TooBigHereIff(S: Schema, fd: FieldDesc, f: Field, n: nat)
    ensures TooBigHere(S, fd, f, n) <==> Exceeds(n, PeakHere(S, fd, f))
    decreases f, 3
  {
    if !(fd.mode == Packed && fd.kind.Numeric?) {
      TooBigValuesIff(S, fd, f, 0, n);
      LaterExceeds(n, PeakValues(S, fd, f, 0), Some(|FieldBytes(S, fd, f.vals)|));
    }
  }

  lemma {:induction false} TooBigValuesIff(S: Schema, fd: FieldDesc, f: Field, k: nat, n: nat)
    requires k <= |f.vals|
    ensures TooBigValues(S, fd, f, k, n) <==> Exceeds(n, PeakValues(S, fd, f, k))
    decreases f, 2, |f.vals| - k
  {
    if k < |f.vals| {
      var size := |Key(fd.tag, WireOf(fd.kind)) + Payload(S, fd, f.vals[k])|;
      TooBigValueIff(S, fd, f.vals[k], n);
      TooBigValuesIff(S, fd, f, k + 1, n + size);
      LaterExceeds(n, PeakValue(S, fd, f.vals[k]), Behind(size, PeakValues(S, fd, f, k + 1)));
    }
  }

  lemma {:induction false} TooBigValueIff(S: Schema, fd: FieldDesc, v: Value, n: nat)
    ensures TooBigValue(S, fd, v, n) <==> Exceeds(n, PeakValue(S, fd, v))
    decreases v, 1
  {
    match fd.kind {
      case Message(ty) =>
        if v.Sub? {
          TooBigIff(S, ty, v.m, n + |Key(fd.tag, 2)| + 4);
        }
      case Group(ty) =>
        if v.Sub? {
          TooBigIff(S, ty, v.m, n + |Key(fd.tag, 3)|);
        }
      case _ =>
    }
  }

  /** Encoding fails for its size only when what it writes, with four bytes more for every level of
      nesting, exceeds the limit. */
  lemma {:induction false} TooBigIsNearLimit(S: Schema, ty: nat, m: Msg, n: nat)
    requires WellTyped(S, ty, m) && TooBig(S, ty, m, n)
    ensures n + |Ser(S, ty, m)| + 4 * Depth(m) > MAX_MARSHAL_SIZE
    decreases m, 5
  {
    TooBigFromNear(S, ty, m, 0, n);
  }

  lemma {:induction false} TooBigFromNear(S: Schema, ty: nat, m: Msg, i: nat, n: nat)
    requires WellTyped(S, ty, m) && i <= |m.fields| && TooBigFrom(S, ty, m, i, n)
    ensures n + |FieldsFrom(S, S[ty], m, i)| + |m.unknown| + 4 * DepthFrom(m, i) > MAX_MARSHAL_SIZE
    decreases m, 4, |m.fields| - i
  {
    if i < |m.fields| {
      var fd := S[ty].fields[i];
      var after := n + |FieldBytes(S, fd, m.fields[i].vals)|;
      assert WellTypedField(S, fd, m.fields[i]);
      if TooBigFrom(S, ty, m, i + 1, after) {
        TooBigFromNear(S, ty, m, i + 1, after);
      } else {
        TooBigHereNear(S, fd, m.fields[i], n);
      }
    }
  }

  lemma {:induction false} TooBigHereNear(S: Schema, fd: FieldDesc, f: Field, n: nat)
    requires WellTypedField(S, fd, f) && TooBigHere(S, fd, f, n)
    ensures n + |FieldBytes(S, fd, f.vals)| + 4 * FieldDepth(f, 0) > MAX_MARSHAL_SIZE
    decreases f, 3
  {
    if TooBigField(S, fd, f, n) {
      assert f.vals[0..] == f.vals;
      TooBigValuesNear(S, fd, f, 0, n);
    }
  }

  lemma {:induction false} TooBigValuesNear(S: Schema, fd: FieldDesc, f: Field, k: nat, n: nat)
    requires WellTypedField(S, fd, f) && k <= |f.vals| && TooBigValues(S, fd, f, k, n)
    ensures n + |Records(S, fd, f.vals[k..])| + 4 * FieldDepth(f, k) > MAX_MARSHAL_SIZE
    decreases f, 2, |f.vals| - k
  {
    RecordsHead(S, fd, f.vals, k);
    if TooBigValue(S, fd, f.vals[k], n) {
      assert WellTypedValue(S, fd.kind, f.vals[k]);
      match fd.kind {
        case Message(ty) => TooBigIsNearLimit(S, ty, f.vals[k].m, n + |Key(fd.tag, 2)| + 4);
        case Group(ty) => TooBigIsNearLimit(S, ty, f.vals[k].m, n + |Key(fd.tag, 3)|);
      }
    } else {
      TooBigValuesNear(S, fd, f, k + 1, n + |Key(fd.tag, WireOf(fd.kind)) + Payload(S, fd, f.vals[k])|);
    }
  }

  /** The limit is not exact: this message of exactly 1<<31 - 1 bytes is refused, because its last
      field is checked while four bytes are reserved for a length that takes one. */
  lemma LimitIsNotExact() returns (S: Schema, m: Msg)
    ensures ValidSchema(S) && WellTyped(S, 0, m)
    ensures |Ser(S, 0, m)| == MAX_MARSHAL_SIZE && TooBig(S, 0, m, 0)
  {
    var text, sub := FieldDesc(1, Text, Optional), FieldDesc(2, Message(1), Optional);
    S := [MsgDesc([text, sub], false), MsgDesc([], true)];
    var blob: seq<byte> := seq(MAX_MARSHAL_SIZE - 8, _ => 0);
    var inner := Msg([], []);
    m := Msg([Field([Blob(blob)]), Field([Sub(inner)])], []);
    assert ValidType(S, S[0]) && ValidType(S, S[1]);
    assert WellTyped(S, 1, inner) && WellTypedValue(S, sub.kind, Sub(inner))
        && WellTypedValue(S, text.kind, Blob(blob));
    Pow128Values();
    assert Pow128(4) == 0x1000_0000 by { assert Pow128(2) == 0x4000; }
    VarintSize(|blob|, 4);
    VarintSize(|blob|, 5);
    assert Ser(S, 1, inner) == [];
    SingleRecord(S, text, Blob(blob));
    SingleRecord(S, sub, Sub(inner));
    assert |FieldBytes(S, text, [Blob(blob)])| == MAX_MARSHAL_SIZE - 2;
    assert |FieldBytes(S, sub, [Sub(inner)])| == 2;
    assert |FieldsFrom(S, S[0], m, 1)| == 2 + |FieldsFrom(S, S[0], m, 2)|;
    assert TooBigValue(S, sub, Sub(inner), MAX_MARSHAL_SIZE - 2);
    assert TooBigField(S, sub, m.fields[1], MAX_MARSHAL_SIZE - 2);
    assert TooBigFrom(S, 0, m, 1, MAX_MARSHAL_SIZE - 2);
  }

  lemma SingleRecord(S: Schema, fd: FieldDesc, v: Value)
    requires !IsList(fd.mode)
    ensures FieldBytes(S, fd, [v]) == Key(fd.tag, WireOf(fd.kind)) + Payload(S, fd, v)
  {
    assert Records(S, fd, [v][1..]) == [];
  }
}
