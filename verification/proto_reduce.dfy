/** A schema from which fields have been removed, and what is left of a message under it: removed
    fields live on, as bytes, among the unknown fields. */
module ProtoReduce {
  import opened Bytes
  import opened Sequences
  import opened ProtoVarint
  import opened ProtoSchema
  import opened ProtoMerge

  /** The fields to remove, by type and position. */
  type Removal = set<(nat, nat)>

  predicate RemovesFrom(drop: Removal, ty: nat, n: nat) {
    exists i | 0 <= i < n :: (ty, i) in drop
  }

  function ReduceDesc(d: MsgDesc, drop: Removal, ty: nat): MsgDesc {
    MsgDesc(seq(|d.fields|, i requires 0 <= i < |d.fields| =>
              if (ty, i) in drop then d.fields[i].(mode := Reserved) else d.fields[i]),
            d.keepsUnknown || RemovesFrom(drop, ty, |d.fields|))
  }

  function Reduce(S: Schema, drop: Removal): (R: Schema)
    ensures |R| == |S|
  {
    seq(|S|, ty requires 0 <= ty < |S| => ReduceDesc(S[ty], drop, ty))
  }

  function ReduceValue(S: Schema, drop: Removal, kind: Kind, v: Value): Value
    decreases v, 2
  {
    match v
    case Sub(m) => Sub(ReduceMsg(S, drop, Inner(kind), m))
    case _ => v
  }

  function ReduceField(S: Schema, drop: Removal, kind: Kind, f: Field): Field
    decreases f, 3
  {
    Field(seq(|f.vals|, j requires 0 <= j < |f.vals| => ReduceValue(S, drop, kind, f.vals[j])))
  }

  /** The bytes of the removed fields from position `i` on. */
  function Removed(S: Schema, drop: Removal, ty: nat, m: Msg, i: nat): seq<byte>
    requires ty < |S| && i <= |m.fields|
    decreases m, 0, |m.fields| - i
  {
    if i == |m.fields| || i >= |S[ty].fields| then []
    else (if (ty, i) in drop then FieldBytes(S, S[ty].fields[i], m.fields[i].vals) else []) + Removed(S, drop, ty, m,
        i + 1)
  }

  function ReduceMsg(S: Schema, drop: Removal, ty: nat, m: Msg): Msg
    decreases m, 1
  {
    if ty >= |S| then m
    else
      Msg(seq(|m.fields|, i requires 0 <= i < |m.fields| =>
            if (ty, i) in drop then Field([])
            else if i < |S[ty].fields| then ReduceField(S, drop, S[ty].fields[i].kind, m.fields[i])
            else m.fields[i]),
          Removed(S, drop, ty, m, 0) + m.unknown)
  }

  // ---- Removing nothing ----

  lemma ReduceNothing(S: Schema)
    ensures Reduce(S, {}) == S
  {
    forall ty | 0 <= ty < |S| ensures ReduceDesc(S[ty], {}, ty) == S[ty] {
      assert ReduceDesc(S[ty], {}, ty).fields == S[ty].fields;
    }
  }

  lemma {:induction false} RemovedNothing(S: Schema, ty: nat, m: Msg, i: nat)
    requires ty < |S| && i <= |m.fields|
    ensures Removed(S, {}, ty, m, i) == []
    decreases |m.fields| - i
  {
    if i < |m.fields| && i < |S[ty].fields| {
      RemovedNothing(S, ty, m, i + 1);
    }
  }

  lemma {:induction false} ReduceMsgNothing(S: Schema, ty: nat, m: Msg)
    ensures ReduceMsg(S, {}, ty, m) == m
    decreases m, 1
  {
    if ty < |S| {
      RemovedNothing(S, ty, m, 0);
      var r := ReduceMsg(S, {}, ty, m);
      forall i | 0 <= i < |m.fields| ensures r.fields[i] == m.fields[i] {
        if i < |S[ty].fields| {
          ReduceFieldNothing(S, S[ty].fields[i].kind, m.fields[i]);
        }
      }
      assert r.fields == m.fields;
      assert [] + m.unknown == m.unknown;
    }
  }

  lemma {:induction false} ReduceFieldNothing(S: Schema, kind: Kind, f: Field)
    ensures ReduceField(S, {}, kind, f) == f
    decreases f, 3
  {
    forall j | 0 <= j < |f.vals| ensures ReduceValue(S, {}, kind, f.vals[j]) == f.vals[j] {
      if f.vals[j].Sub? {
        ReduceMsgNothing(S, Inner(kind), f.vals[j].m);
      }
    }
    assert ReduceField(S, {}, kind, f).vals == f.vals;
  }

  // ---- The reduced schema ----

  lemma ReduceValid(S: Schema, drop: Removal)
    requires ValidSchema(S)
    ensures ValidSchema(Reduce(S, drop))
  {
    var R := Reduce(S, drop);
    forall ty | 0 <= ty < |R| ensures ValidType(R, R[ty]) {
      assert ValidType(S, S[ty]);
      forall i | 0 <= i < |R[ty].fields| ensures ValidField(R, R[ty].fields[i]) {
        assert ValidField(S, S[ty].fields[i]);
      }
    }
  }

  /** A number unknown to the full type is unknown to the reduced one, and so is a removed one. */
  lemma ReducedUnknown(d: MsgDesc, drop: Removal, ty: nat, tag: nat)
    ensures FieldIndex(d, tag).None? ==> FieldIndex(ReduceDesc(d, drop, ty), tag).None?
  {
    var r := FieldIndex(ReduceDesc(d, drop, ty), tag);
    if r.Some? {
      assert d.fields[r.value].tag == tag;
    }
  }

  lemma RemovedIsUnknown(d: MsgDesc, drop: Removal, ty: nat, i: nat)
    requires i < |d.fields| && (ty, i) in drop
    requires forall a, b :: 0 <= a < b < |d.fields| ==> d.fields[a].tag < d.fields[b].tag
    ensures FieldIndex(ReduceDesc(d, drop, ty), d.fields[i].tag).None?
  {
    var tag := d.fields[i].tag;
    assert forall j :: 0 <= j < |d.fields| && d.fields[j].tag == tag ==> j == i;
  }

  lemma {:induction false} UnknownRunReduced(d: MsgDesc, drop: Removal, ty: nat, u: seq<byte>)
    requires UnknownRun(d, u)
    ensures UnknownRun(ReduceDesc(d, drop, ty), u)
    decreases |u|
  {
    if u != [] {
      ReducedUnknown(d, drop, ty, VarintAt(u).x / 8);
      UnknownRunReduced(d, drop, ty, u[UnknownHead(d, u).value..]);
    }
  }

  lemma FirstField(S: Schema, d: MsgDesc, m: Msg, k: nat, tail: seq<byte>)
    requires k < |m.fields| && k < |d.fields|
    ensures var head, more := FieldBytes(S, d.fields[k], m.fields[k].vals), FieldsFrom(S, d, m, k + 1);
            FieldsFrom(S, d, m, k) == head + more && FieldsFrom(S, d, m, k) + tail == head + (more + tail)
  {
    Associate(FieldBytes(S, d.fields[k], m.fields[k].vals), FieldsFrom(S, d, m, k + 1), tail);
  }

  lemma NoBytes(S: Schema, fd: FieldDesc)
    ensures FieldBytes(S, fd, []) == []
  {
  }

  /** The bytes of the fields from position k on, under the reduced schema. */
  lemma KeptStep(S: Schema, drop: Removal, ty: nat, m: Msg, k: nat, tail: seq<byte>)
    requires ty < |S| && |m.fields| == |S[ty].fields| && k < |m.fields|
    ensures var R, r, fd := Reduce(S, drop), ReduceMsg(S, drop, ty, m), S[ty].fields[k];
            var all, more := FieldsFrom(R, R[ty], r, k), FieldsFrom(R, R[ty], r, k + 1);
            var head := FieldBytes(R, fd, ReduceField(S, drop, fd.kind, m.fields[k]).vals);
            if (ty, k) in drop then all == more else |all| == |head| + |more| && all + tail == head + (more + tail)
  {
    var R, r := Reduce(S, drop), ReduceMsg(S, drop, ty, m);
    FirstField(R, R[ty], r, k, tail);
    if (ty, k) in drop {
      NoBytes(R, R[ty].fields[k]);
      assert [] + FieldsFrom(R, R[ty], r, k + 1) == FieldsFrom(R, R[ty], r, k + 1);
    }
  }

  // ---- Nothing is lost in size ----

  lemma {:induction false} PayloadSize(S: Schema, drop: Removal, fd: FieldDesc, v: Value)
    requires ValidSchema(S) && ValidField(S, fd) && WellTypedValue(S, fd.kind, v)
    ensures |Payload(Reduce(S, drop), fd, ReduceValue(S, drop, fd.kind, v))| == |Payload(S, fd, v)|
    decreases v, 1
  {
    match fd.kind {
      case Message(ty) => ReducedSize(S, drop, ty, v.m);
      case Group(ty) => ReducedSize(S, drop, ty, v.m);
      case _ =>
    }
  }

  lemma {:induction false} RecordsSize(S: Schema, drop: Removal, fd: FieldDesc, f: Field, k: nat)
    requires ValidSchema(S) && ValidField(S, fd) && WellTypedField(S, fd, f) && k <= |f.vals|
    ensures |Records(Reduce(S, drop), fd, ReduceField(S, drop, fd.kind, f).vals[k..])| == |Records(S, fd, f.vals[k..])|
    decreases f, 2, |f.vals| - k
  {
    if k < |f.vals| {
      var r := ReduceField(S, drop, fd.kind, f).vals;
      assert WellTypedValue(S, fd.kind, f.vals[k]);
      assert f.vals[k..][1..] == f.vals[k + 1..] && r[k..][1..] == r[k + 1..];
      PayloadSize(S, drop, fd, f.vals[k]);
      RecordsSize(S, drop, fd, f, k + 1);
    }
  }

  lemma {:induction false} FieldSizes(S: Schema, drop: Removal, fd: FieldDesc, f: Field)
    requires ValidSchema(S) && ValidField(S, fd) && WellTypedField(S, fd, f)
    ensures |FieldBytes(Reduce(S, drop), fd, ReduceField(S, drop, fd.kind, f).vals)| == |FieldBytes(S, fd, f.vals)|
    decreases f, 3
  {
    var r := ReduceField(S, drop, fd.kind, f);
    if fd.mode == Packed {
      NumbersStay(S, drop, fd, f);
    } else {
      assert r.vals[0..] == r.vals && f.vals[0..] == f.vals;
      RecordsSize(S, drop, fd, f, 0);
    }
  }

  lemma NumbersStay(S: Schema, drop: Removal, fd: FieldDesc, f: Field)
    requires fd.kind.Numeric? && WellTypedField(S, fd, f)
    ensures ReduceField(S, drop, fd.kind, f) == f
  {
    forall j | 0 <= j < |f.vals| ensures ReduceField(S, drop, fd.kind, f).vals[j] == f.vals[j] {
      assert WellTypedValue(S, fd.kind, f.vals[j]);
    }
    assert ReduceField(S, drop, fd.kind, f).vals == f.vals;
  }

  lemma {:induction false} FieldsSize(S: Schema, drop: Removal, ty: nat, m: Msg, i: nat)
    requires ValidSchema(S) && WellTyped(S, ty, m) && i <= |m.fields|
    ensures var R, r := Reduce(S, drop), ReduceMsg(S, drop, ty, m);
            |FieldsFrom(R, R[ty], r, i)| + |Removed(S, drop, ty, m, i)| == |FieldsFrom(S, S[ty], m, i)|
    decreases m, 4, |m.fields| - i
  {
    if i < |m.fields| {
      assert ValidType(S, S[ty]) && ValidField(S, S[ty].fields[i]) && WellTypedField(S, S[ty].fields[i], m.fields[i]);
      FieldsSize(S, drop, ty, m, i + 1);
      KeptStep(S, drop, ty, m, i, []);
      FieldSizes(S, drop, S[ty].fields[i], m.fields[i]);
    }
  }

  /** A message takes as many bytes under the reduced schema as under the full one. */
  lemma {:induction false} ReducedSize(S: Schema, drop: Removal, ty: nat, m: Msg)
    requires ValidSchema(S) && WellTyped(S, ty, m)
    ensures |Ser(Reduce(S, drop), ty, ReduceMsg(S, drop, ty, m))| == |Ser(S, ty, m)|
    decreases m, 5
  {
    FieldsSize(S, drop, ty, m, 0);
    MessageBytes(S, drop, ty, m);
  }

  /** What the bytes of a message under the reduced schema are made of. */
  lemma MessageBytes(S: Schema, drop: Removal, ty: nat, m: Msg)
    requires WellTyped(S, ty, m)
    ensures var R := Reduce(S, drop);
            var r := ReduceMsg(S, drop, ty, m);
            Ser(R, ty, r) == FieldsFrom(R, R[ty], r, 0) + (Removed(S, drop, ty, m, 0) + m.unknown)
  {
    if !Reduce(S, drop)[ty].keepsUnknown {
      NothingRemoved(S, drop, ty, m, 0);
    }
  }

  lemma {:induction false} NothingRemoved(S: Schema, drop: Removal, ty: nat, m: Msg, k: nat)
    requires ty < |S| && |m.fields| == |S[ty].fields| && k <= |m.fields| && !RemovesFrom(drop, ty, |S[ty].fields|)
    ensures Removed(S, drop, ty, m, k) == []
    decreases |m.fields| - k
  {
    if k < |m.fields| {
      NothingRemoved(S, drop, ty, m, k + 1);
    }
  }
}
