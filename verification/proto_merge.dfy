/** Merging messages (golang/protobuf/proto/clone.go), what decoding into a message that is already
    there amounts to, and how the two differ. */
module ProtoMerge {
  import opened ProtoSchema

  /** `mergeStruct`: `b` into `a`. Unknown fields of `b` take the place of those of `a`. */
  function Merge(S: Schema, ty: nat, a: Msg, b: Msg): Msg
    decreases b, 0
  {
    if ty >= |S| then a
    else
      Msg(seq(|b.fields|, i requires 0 <= i < |b.fields| =>
            if i < |a.fields| && i < |S[ty].fields| then MergeField(S, S[ty].fields[i], a.fields[i], b.fields[i])
            else b.fields[i]),
          if b.unknown != [] then b.unknown else a.unknown)
  }

  /** `mergeAny` for one field. */
  function MergeField(S: Schema, fd: FieldDesc, a: Field, b: Field): Field
    decreases b, 1
  {
    if IsList(fd.mode) then Field(a.vals + b.vals)
    else if b.vals == [] then a
    else if a.vals != [] && a.vals[0].Sub? && b.vals[0].Sub? then
      Field([Sub(Merge(S, Inner(fd.kind), a.vals[0].m, b.vals[0].m))])
    else b
  }

  function Inner(kind: Kind): nat {
    match kind
    case Message(ty) => ty
    case Group(ty) => ty
    case _ => 0
  }

  /** The same, but with unknown fields appended: what decoding the bytes of `b` does to `a`. */
  function Combine(S: Schema, ty: nat, a: Msg, b: Msg): Msg
    decreases b, 0
  {
    if ty >= |S| then a
    else
      Msg(seq(|b.fields|, i requires 0 <= i < |b.fields| =>
            if i < |a.fields| && i < |S[ty].fields| then CombineField(S, S[ty].fields[i], a.fields[i], b.fields[i])
            else b.fields[i]),
          a.unknown + b.unknown)
  }

  function CombineField(S: Schema, fd: FieldDesc, a: Field, b: Field): Field
    decreases b, 1
  {
    if IsList(fd.mode) then Field(a.vals + b.vals)
    else if b.vals == [] then a
    else if a.vals != [] && a.vals[0].Sub? && b.vals[0].Sub? then
      Field([Sub(Combine(S, Inner(fd.kind), a.vals[0].m, b.vals[0].m))])
    else b
  }

  /** No message that is in both `a` and `b` and would be merged has unknown fields in both. */
  predicate NoClash(S: Schema, ty: nat, a: Msg, b: Msg)
    decreases b, 0
  {
    && (a.unknown == [] || b.unknown == [])
    && ty < |S|
    && forall i :: 0 <= i < |b.fields| && i < |a.fields| && i < |S[ty].fields| ==>
         NoClashField(S, S[ty].fields[i], a.fields[i], b.fields[i])
  }

  predicate NoClashField(S: Schema, fd: FieldDesc, a: Field, b: Field)
    decreases b, 1
  {
    !IsList(fd.mode) && a.vals != [] && b.vals != [] && a.vals[0].Sub? && b.vals[0].Sub? ==>
      NoClash(S, Inner(fd.kind), a.vals[0].m, b.vals[0].m)
  }

  /** Decoding and merging agree exactly when unknown fields do not clash. */
  lemma {:induction false} CombineIsMergeIff(S: Schema, ty: nat, a: Msg, b: Msg)
    requires ValidSchema(S) && WellTyped(S, ty, a) && WellTyped(S, ty, b)
    ensures Combine(S, ty, a, b) == Merge(S, ty, a, b) <==> NoClash(S, ty, a, b)
    decreases b, 0
  {
    var c, m := Combine(S, ty, a, b), Merge(S, ty, a, b);
    assert c.unknown == m.unknown <==> a.unknown == [] || b.unknown == [] by {
      if c.unknown == m.unknown && b.unknown != [] {
        assert |a.unknown + b.unknown| == |b.unknown|;
      }
    }
    forall i | 0 <= i < |b.fields|
      ensures c.fields[i] == m.fields[i] <==> NoClashField(S, S[ty].fields[i], a.fields[i], b.fields[i])
    {
      FieldIsMergeIff(S, S[ty].fields[i], a.fields[i], b.fields[i]);
    }
    assert c.fields == m.fields <==> forall i :: 0 <= i < |b.fields| ==> c.fields[i] == m.fields[i];
  }

  lemma {:induction false} FieldIsMergeIff(S: Schema, fd: FieldDesc, a: Field, b: Field)
    requires ValidSchema(S) && WellTypedField(S, fd, a) && WellTypedField(S, fd, b)
    ensures CombineField(S, fd, a, b) == MergeField(S, fd, a, b) <==> NoClashField(S, fd, a, b)
    decreases b, 1
  {
    if !IsList(fd.mode) && a.vals != [] && b.vals != [] && a.vals[0].Sub? && b.vals[0].Sub? {
      assert WellTypedValue(S, fd.kind, a.vals[0]) && WellTypedValue(S, fd.kind, b.vals[0]);
      CombineIsMergeIff(S, Inner(fd.kind), a.vals[0].m, b.vals[0].m);
    }
  }

  lemma EmptyIsWellTyped(S: Schema, ty: nat)
    requires ty < |S|
    ensures WellTyped(S, ty, EmptyMsg(S[ty]))
  {
  }

  lemma {:induction false} CombineEmpty(S: Schema, ty: nat, m: Msg)
    requires WellTyped(S, ty, m)
    ensures Combine(S, ty, EmptyMsg(S[ty]), m) == m
  {
    var c := Combine(S, ty, EmptyMsg(S[ty]), m);
    forall i | 0 <= i < |m.fields| ensures c.fields[i] == m.fields[i] {
      var fd := S[ty].fields[i];
      assert c.fields[i] == CombineField(S, fd, Field([]), m.fields[i]);
      assert [] + m.fields[i].vals == m.fields[i].vals;
    }
    assert c.fields == m.fields;
    assert [] + m.unknown == m.unknown;
  }

  /** Merging into a new message copies the message. */
  lemma MergeEmpty(S: Schema, ty: nat, m: Msg)
    requires ValidSchema(S) && WellTyped(S, ty, m)
    ensures Merge(S, ty, EmptyMsg(S[ty]), m) == m
  {
    EmptyIsWellTyped(S, ty);
    CombineEmpty(S, ty, m);
    CombineIsMergeIff(S, ty, EmptyMsg(S[ty]), m);
  }

  // ---- The merging itself ----

  /** Merges `b` into `a` field by field, then the unknown fields. */
  method MergeStruct(S: Schema, ty: nat, a: Msg, b: Msg) returns (out: Msg)
    requires ValidSchema(S) && WellTyped(S, ty, a) && WellTyped(S, ty, b)
    ensures out == Merge(S, ty, a, b)
    decreases b, 0
  {
    out := a;
    var i := 0;
    ghost var m := Merge(S, ty, a, b);
    while i < |b.fields|
      invariant i <= |b.fields| == |out.fields| && out.unknown == a.unknown
      invariant forall j :: 0 <= j < i ==> out.fields[j] == m.fields[j]
      invariant forall j :: i <= j < |out.fields| ==> out.fields[j] == a.fields[j]
    {
      assert WellTypedField(S, S[ty].fields[i], a.fields[i]) && WellTypedField(S, S[ty].fields[i], b.fields[i]);
      var f := MergeAny(S, S[ty].fields[i], out.fields[i], b.fields[i]);
      out := out.(fields := out.fields[i := f]);
      i := i + 1;
    }
    assert out.fields == m.fields;
    if |b.unknown| > 0 {
      out := out.(unknown := b.unknown);
    }
  }

  /** One field: a set scalar replaces, a set message is merged, into a new one if need be, and copies
      of the elements of a list are appended. */
  method MergeAny(S: Schema, fd: FieldDesc, a: Field, b: Field) returns (out: Field)
    requires ValidSchema(S) && WellTypedField(S, fd, a) && WellTypedField(S, fd, b)
    ensures out == MergeField(S, fd, a, b)
    decreases b, 1
  {
    out := a;
    if IsList(fd.mode) {
      for i := 0 to |b.vals|
        invariant out == Field(a.vals + b.vals[..i])
      {
        assert WellTypedValue(S, fd.kind, b.vals[i]);
        var x := Copied(S, fd.kind, b.vals[i]);
        out := Field(out.vals + [x]);
      }
      assert b.vals[..|b.vals|] == b.vals;
    } else if |b.vals| > 0 {
      assert WellTypedValue(S, fd.kind, b.vals[0]);
      if |a.vals| > 0 && a.vals[0].Sub? && b.vals[0].Sub? {
        assert WellTypedValue(S, fd.kind, a.vals[0]);
        var m := MergeStruct(S, Inner(fd.kind), a.vals[0].m, b.vals[0].m);
        return Field([Sub(m)]);
      }
      var x := Copied(S, fd.kind, b.vals[0]);
      assert b.vals == [b.vals[0]];
      out := Field([x]);
    }
  }

  /** A copy of `v`; a message is merged into a new one. */
  method Copied(S: Schema, kind: Kind, v: Value) returns (x: Value)
    requires ValidSchema(S) && WellTypedValue(S, kind, v)
    ensures x == v
    decreases v, 2
  {
    x := v;
    if v.Sub? {
      var ty := Inner(kind);
      EmptyIsWellTyped(S, ty);
      var m := MergeStruct(S, ty, EmptyMsg(S[ty]), v.m);
      MergeEmpty(S, ty, v.m);
      x := Sub(m);
    }
  }
}
