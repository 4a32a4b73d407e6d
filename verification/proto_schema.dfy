/** Schemas and messages of golang/protobuf/proto, in place of struct tags and reflection, and the
    bytes a message is marshalled to. */
module ProtoSchema {
  import opened Bytes
  import opened Options
  import opened Varints
  import opened ProtoVarint
  import opened ProtoNumbers
  import opened ProtoWire

  /** The type of a field's elements. Strings and byte slices are the same on the wire. */
  datatype Kind = Numeric(t: Type, f: Format) | Text | Message(ty: nat) | Group(ty: nat)

  /** Required and Optional are proto2 pointers, Implicit is a proto3 value whose zero is absent.
      Reserved stands for a number the message type has no field for. */
  datatype Mode = Required | Optional | Implicit | Repeated | Packed | Reserved

  datatype FieldDesc = FieldDesc(tag: nat, kind: Kind, mode: Mode)

  /** A message type: its fields in tag order, and whether it has XXX_unrecognized. */
  datatype MsgDesc = MsgDesc(fields: seq<FieldDesc>, keepsUnknown: bool)

  type Schema = seq<MsgDesc>

  datatype Value = Num(n: nat) | Blob(b: seq<byte>) | Sub(m: Msg)

  /** The elements of a field: none when it is absent, one when it is set. */
  datatype Field = Field(vals: seq<Value>)

  /** The fields in the order of the type's fields, and XXX_unrecognized. */
  datatype Msg = Msg(fields: seq<Field>, unknown: seq<byte>)

  const MAX_TAG: nat := 0x1fff_ffff

  predicate IsList(mode: Mode) {
    mode == Repeated || mode == Packed
  }

  predicate ValidField(S: Schema, fd: FieldDesc) {
    && 1 <= fd.tag <= MAX_TAG
    && match fd.kind
       case Numeric(t, f) => Keeps(f, t) && (t == Bool ==> f == VarintFormat)
       case Text => fd.mode != Packed
       case Message(ty) => ty < |S| && fd.mode != Packed && fd.mode != Implicit
       case Group(ty) => ty < |S| && fd.mode != Packed && fd.mode != Implicit
  }

  ghost predicate ValidSchema(S: Schema) {
    forall ty :: 0 <= ty < |S| ==> ValidType(S, S[ty])
  }

  ghost predicate ValidType(S: Schema, d: MsgDesc) {
    && (forall i :: 0 <= i < |d.fields| ==> ValidField(S, d.fields[i]))
    && (forall i, j :: 0 <= i < j < |d.fields| ==> d.fields[i].tag < d.fields[j].tag)
  }

  // ---- The bytes of a message ----

  function Key(tag: nat, wire: nat): seq<byte> {
    Varint(8 * tag + wire)
  }

  function LenPrefixed(b: seq<byte>): seq<byte> {
    Varint(|b|) + b
  }

  function Numbers(t: Type, f: Format, vals: seq<Value>): seq<byte> {
    if vals == [] then [] else NumberBytes(t, f, vals[0]) + Numbers(t, f, vals[1..])
  }

  function NumberBytes(t: Type, f: Format, v: Value): seq<byte> {
    if v.Num? && InType(t, v.n) then Put(f, Carry(t, v.n)) else []
  }

  function WireOf(kind: Kind): (w: nat)
    ensures w < 8 && w != 4
  {
    match kind
    case Numeric(_, f) => WireType(f)
    case Group(_) => 3
    case _ => 2
  }

  /** What follows the key of one element; the end key of a group belongs to it. */
  function Payload(S: Schema, fd: FieldDesc, v: Value): seq<byte>
    decreases v, 1
  {
    match fd.kind
    case Numeric(t, f) => NumberBytes(t, f, v)
    case Text => if v.Blob? then LenPrefixed(v.b) else []
    case Message(ty) => if v.Sub? then LenPrefixed(Ser(S, ty, v.m)) else []
    case Group(ty) => if v.Sub? then Ser(S, ty, v.m) + Key(fd.tag, 4) else []
  }

  /** The records of elements that are not packed. */
  function Records(S: Schema, fd: FieldDesc, vals: seq<Value>): seq<byte>
    decreases vals, 2
  {
    if vals == [] then []
    else (Key(fd.tag, WireOf(fd.kind)) + Payload(S, fd, vals[0])) + Records(S, fd, vals[1..])
  }

  /** All the records of a field. */
  function FieldBytes(S: Schema, fd: FieldDesc, vals: seq<Value>): seq<byte>
    decreases vals, 3
  {
    if fd.mode == Packed && fd.kind.Numeric? then
      if vals == [] then [] else Key(fd.tag, 2) + LenPrefixed(Numbers(fd.kind.t, fd.kind.f, vals))
    else Records(S, fd, vals)
  }

  /** The fields from index `i` on, in order. */
  function FieldsFrom(S: Schema, d: MsgDesc, m: Msg, i: nat): seq<byte>
    requires i <= |m.fields|
    decreases m, 4, |m.fields| - i
  {
    if i == |m.fields| || i >= |d.fields| then []
    else FieldBytes(S, d.fields[i], m.fields[i].vals) + FieldsFrom(S, d, m, i + 1)
  }

  /** The canonical encoding of a message of type `ty`. */
  function Ser(S: Schema, ty: nat, m: Msg): seq<byte>
    decreases m, 5
  {
    if ty < |S| then
      FieldsFrom(S, S[ty], m, 0) + (if S[ty].keepsUnknown then m.unknown else [])
    else []
  }

  // ---- Messages of a type ----

  /** The position of the field with this number, as `decoderTags` gives it. */
  function FieldIndex(d: MsgDesc, tag: nat): (r: Option<nat>)
    ensures r.Some? ==> r.value < |d.fields| && d.fields[r.value].tag == tag && d.fields[r.value].mode != Reserved
    ensures r.None? ==> forall i :: 0 <= i < |d.fields| && d.fields[i].tag == tag ==> d.fields[i].mode == Reserved
  {
    FieldIndexFrom(d, tag, 0)
  }

  function FieldIndexFrom(d: MsgDesc, tag: nat, i: nat): (r: Option<nat>)
    requires i <= |d.fields|
    ensures r.Some? ==> r.value < |d.fields| && d.fields[r.value].tag == tag && d.fields[r.value].mode != Reserved
    ensures r.None? ==> forall j :: i <= j < |d.fields| && d.fields[j].tag == tag ==> d.fields[j].mode == Reserved
    decreases |d.fields| - i
  {
    if i == |d.fields| then None
    else if d.fields[i].tag == tag && d.fields[i].mode != Reserved then Some(i)
    else FieldIndexFrom(d, tag, i + 1)
  }

  /** `u` is a run of records, with shortest keys, of numbers the type has no field for: what
      decoding leaves in XXX_unrecognized. */
  predicate UnknownRun(d: MsgDesc, u: seq<byte>)
    decreases |u|
  {
    u == [] || (UnknownHead(d, u).Some? && UnknownRun(d, u[UnknownHead(d, u).value..]))
  }

  /** The size of the record of an unknown field at the start of `u`. */
  function UnknownHead(d: MsgDesc, u: seq<byte>): (r: Option<nat>)
    ensures r.Some? ==> 1 <= r.value <= |u|
  {
    match VarintAt(u)
    case Value(key, k) =>
      if u[..k] == Varint(key) && key % 8 != 4 && key / 8 > 0 && FieldIndex(d, key / 8).None?
         && Skip(key % 8, u[k..]).Some?
      then Some(k + Skip(key % 8, u[k..]).value) else None
    case _ => None
  }

  predicate WellTypedValue(S: Schema, kind: Kind, v: Value)
    decreases v, 1
  {
    match kind
    case Numeric(t, _) => v.Num? && InType(t, v.n)
    case Text => v.Blob?
    case Message(ty) => v.Sub? && WellTyped(S, ty, v.m)
    case Group(ty) => v.Sub? && WellTyped(S, ty, v.m)
  }

  predicate WellTypedField(S: Schema, fd: FieldDesc, f: Field)
    decreases f, 1
  {
    && (forall i :: 0 <= i < |f.vals| ==> WellTypedValue(S, fd.kind, f.vals[i]))
    && (fd.mode == Reserved ==> f.vals == [])
    && (!IsList(fd.mode) ==> |f.vals| <= 1)
    && (fd.mode == Implicit && f.vals != [] ==> !IsZero(f.vals[0]))
  }

  /** The proto3 zero values, which are not distinguished from absence. */
  predicate IsZero(v: Value) {
    v == Num(0) || v == Blob([])
  }

  /** A message as the Go types allow it. */
  predicate WellTyped(S: Schema, ty: nat, m: Msg)
    decreases m, 0
  {
    && ty < |S| && |m.fields| == |S[ty].fields|
    && (forall i :: 0 <= i < |m.fields| ==> WellTypedField(S, S[ty].fields[i], m.fields[i]))
    && (if S[ty].keepsUnknown then UnknownRun(S[ty], m.unknown) else m.unknown == [])
  }

  /** All required fields are set, in the message and in every message inside it. */
  predicate Complete(S: Schema, ty: nat, m: Msg)
    decreases m, 0
  {
    ty < |S| && |m.fields| == |S[ty].fields|
    && forall i :: 0 <= i < |m.fields| ==> CompleteField(S, S[ty].fields[i], m.fields[i])
  }

  predicate CompleteField(S: Schema, fd: FieldDesc, f: Field)
    decreases f, 1
  {
    && (fd.mode == Required ==> f.vals != [])
    && (forall i :: 0 <= i < |f.vals| ==> CompleteValue(S, fd.kind, f.vals[i]))
  }

  predicate CompleteValue(S: Schema, kind: Kind, v: Value)
    decreases v, 1
  {
    match kind
    case Message(ty) => v.Sub? && Complete(S, ty, v.m)
    case Group(ty) => v.Sub? && Complete(S, ty, v.m)
    case _ => true
  }

  lemma FieldOk(S: Schema, ty: nat, m: Msg, k: nat)
    requires WellTyped(S, ty, m) && k < |m.fields|
    ensures WellTypedField(S, S[ty].fields[k], m.fields[k])
    ensures Complete(S, ty, m) ==> CompleteField(S, S[ty].fields[k], m.fields[k])
  {
  }

  function EmptyMsg(d: MsgDesc): Msg {
    Msg(seq(|d.fields|, i => Field([])), [])
  }
}
