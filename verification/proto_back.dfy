/** Reading, under the full schema, what was written under a reduced one: the removed fields come
    back from among the unknown fields. */
module ProtoBack {
  import opened Bytes
  import opened Sequences
  import opened ProtoNumbers
  import opened ProtoSchema
  import opened ProtoMerge
  import opened ProtoReduce
  import opened ProtoDecode
  import opened ProtoAdvance

  /** Storing one element is combining with a field that holds just that element. */
  lemma StoreCombines(S: Schema, fd: FieldDesc, field: Field, v: Value)
    requires !v.Sub? && !(fd.mode == Implicit && IsZero(v))
    ensures Field(Store(fd, field.vals, v)) == CombineField(S, fd, field, Field([v]))
  {
  }

  lemma StoreSubCombines(S: Schema, fd: FieldDesc, field: Field, m: Msg)
    requires fd.mode != Implicit && (fd.kind.Message? || fd.kind.Group?)
    requires WellTyped(S, Inner(fd.kind), m) && WellTypedField(S, fd, field)
    ensures var d := S[Inner(fd.kind)];
            var target := Target(d, fd, field.vals);
            && WellTyped(S, Inner(fd.kind), target)
            && Field(Store(fd, field.vals, Sub(Combine(S, Inner(fd.kind), target, m))))
                == CombineField(S, fd, field, Field([Sub(m)]))
  {
    CombineEmpty(S, Inner(fd.kind), m);
    EmptyIsWellTyped(S, Inner(fd.kind));
    if field.vals != [] {
      assert WellTypedValue(S, fd.kind, field.vals[0]);
    }
  }

  /** One element of a field that the reduced schema has kept. */
  lemma {:induction false} ElementBack(S: Schema, drop: Removal, ty: nat, i: nat, v: Value, tail: seq<byte>,
                                       group: bool, p: Progress, marked: set<nat>) returns (p': Progress)
    requires ValidSchema(S) && ty < |S| && i < |S[ty].fields| && S[ty].fields[i].mode != Reserved
    requires |p.m.fields| == |S[ty].fields| && Counted(S[ty], p, marked)
    requires var fd := S[ty].fields[i];
             && WellTypedField(S, fd, p.m.fields[i]) && WellTypedValue(S, fd.kind, v) && CompleteValue(S, fd.kind, v)
             && (fd.mode == Implicit ==> !IsZero(v))
             && |Payload(Reduce(S, drop), fd, ReduceValue(S, drop, fd.kind, v))| < TWO_63
    ensures var fd := S[ty].fields[i];
            && DecodeMsg(S, ty, Key(fd.tag, WireOf(fd.kind)) + Payload(Reduce(S, drop), fd, ReduceValue(S, drop,
                fd.kind, v)) + tail, group, p)
               == DecodeMsg(S, ty, tail, group, p')
            && p'.m == SetField(p.m, i, CombineField(S, fd, p.m.fields[i], Field([v]))) && p'.missing == p.missing
    ensures Counted(S[ty], p', Mark(S[ty], i, marked))
    decreases v, 1
  {
    var fd := S[ty].fields[i];
    var R := Reduce(S, drop);
    assert ValidType(S, S[ty]) && ValidField(S, fd);
    match fd.kind {
      case Message(inner) =>
        StoreSubCombines(S, fd, p.m.fields[i], v.m);
        var target := Target(S[inner], fd, p.m.fields[i].vals);
        var b := Ser(R, inner, ReduceMsg(S, drop, inner, v.m));
        var q, marks := MessageBack(S, drop, inner, target, v.m, [], false, Start(S[inner], target), {});
        assert b + [] == b;
        AtEnd(S, inner, q);
        AllMarked(S[inner], q, marks);
        p' := MessageStored(S, ty, i, b, q.m, tail, group, p, marked);
      case Group(inner) =>
        StoreSubCombines(S, fd, p.m.fields[i], v.m);
        var target := Target(S[inner], fd, p.m.fields[i].vals);
        var b, end := Ser(R, inner, ReduceMsg(S, drop, inner, v.m)), Key(fd.tag, 4);
        var q, marks := MessageBack(S, drop, inner, target, v.m, end + tail, true, Start(S[inner], target), {});
        Associate(b, end, tail);
        AtEndGroup(S, inner, fd.tag, tail, q);
        AllMarked(S[inner], q, marks);
        p' := GroupStored(S, ty, i, b + end, q.m, tail, group, p, marked);
      case _ =>
        StoreCombines(S, fd, p.m.fields[i], v);
        p' := ScalarStored(S, ty, i, R, v, tail, group, p, marked);
    }
  }

  lemma PartsThenRest(S: Schema, drop: Removal, ty: nat, m: Msg, tail: seq<byte>)
    requires ValidSchema(S) && WellTyped(S, ty, m)
    ensures var R, r := Reduce(S, drop), ReduceMsg(S, drop, ty, m);
            var fields, removed := FieldsFrom(R, R[ty], r, 0), Removed(S, drop, ty, m, 0);
            && Ser(R, ty, r) + tail == fields + (removed + (m.unknown + tail))
            && |Ser(R, ty, r)| == |fields| + |removed| + |m.unknown|
  {
    var R, r := Reduce(S, drop), ReduceMsg(S, drop, ty, m);
    var fields, removed := FieldsFrom(R, R[ty], r, 0), Removed(S, drop, ty, m, 0);
    MessageBytes(S, drop, ty, m);
    Associate(fields, removed + m.unknown, tail);
    Associate(removed, m.unknown, tail);
  }

  lemma {:induction false} MessageBack(S: Schema, drop: Removal, ty: nat, a: Msg, m: Msg, tail: seq<byte>,
                                       group: bool, p: Progress, marked: set<nat>)
    returns (p': Progress, marked': set<nat>)
    requires ValidSchema(S) && WellTyped(S, ty, a) && WellTyped(S, ty, m) && Complete(S, ty, m)
    requires p.m == a && Counted(S[ty], p, marked)
    requires |Ser(Reduce(S, drop), ty, ReduceMsg(S, drop, ty, m))| < TWO_63
    ensures DecodeMsg(S, ty, Ser(Reduce(S, drop), ty, ReduceMsg(S, drop, ty, m)) + tail, group, p)
            == DecodeMsg(S, ty, tail, group, p')
    ensures p'.m == Combine(S, ty, a, m) && p'.missing == p.missing
    ensures Counted(S[ty], p', marked') && forall i :: IsRequired(S[ty], i) ==> i in marked'
    decreases m, 5
  {
    var R := Reduce(S, drop);
    var r := ReduceMsg(S, drop, ty, m);
    var fields, removed := FieldsFrom(R, R[ty], r, 0), Removed(S, drop, ty, m, 0);
    var rest := m.unknown + tail;
    PartsThenRest(S, drop, ty, m, tail);
    var p1, marks1 := FieldsBack(S, drop, ty, a, m, 0, removed + rest, group, p, marked);
    var p2, marks2 := RemovedBack(S, drop, ty, a, m, 0, rest, group, p1, marks1);
    p', marked' := p2.(m := p2.m.(unknown := p2.m.unknown + m.unknown)), marks2;
    MessageUnknown(S, ty, m, tail, group, p2);
    assert p'.m.fields == Combine(S, ty, a, m).fields;
  }

  lemma MessageUnknown(S: Schema, ty: nat, m: Msg, tail: seq<byte>, group: bool, p: Progress)
    requires WellTyped(S, ty, m)
    ensures DecodeMsg(S, ty, m.unknown + tail, group, p) ==
            DecodeMsg(S, ty, tail, group, p.(m := p.m.(unknown := p.m.unknown + m.unknown)))
  {
    if S[ty].keepsUnknown {
      UnknownStored(S, ty, m.unknown, tail, group, p);
    } else {
      assert m.unknown + tail == tail && p.m.unknown + m.unknown == p.m.unknown;
    }
  }

  /** One element of a list, with its bytes `b`. */
  lemma {:induction false} ElementAppended(S: Schema, drop: Removal, ty: nat, i: nat, v: Value, b: seq<byte>,
      tail: seq<byte>,
                                           group: bool, p: Progress, marked: set<nat>) returns (q: Progress)
    requires ValidSchema(S) && ty < |S| && i < |S[ty].fields| && IsList(S[ty].fields[i].mode)
    requires |p.m.fields| == |S[ty].fields| && Counted(S[ty], p, marked)
    requires var fd := S[ty].fields[i];
             && WellTypedField(S, fd, p.m.fields[i]) && WellTypedValue(S, fd.kind, v) && CompleteValue(S, fd.kind, v)
             && |Payload(Reduce(S, drop), fd, ReduceValue(S, drop, fd.kind, v))| < TWO_63
             && b == Key(fd.tag, WireOf(fd.kind)) + Payload(Reduce(S, drop), fd, ReduceValue(S, drop, fd.kind, v))
    ensures Appends(S, ty, i, b, tail, group, p, q, [v], marked)
    ensures WellTypedField(S, S[ty].fields[i], q.m.fields[i]) && |q.m.fields| == |S[ty].fields|
    decreases v, 2
  {
    q := ElementBack(S, drop, ty, i, v, tail, group, p, marked);
  }

  /** The elements of a list from the k-th on. */
  lemma {:induction false} ElementsBack(S: Schema, drop: Removal, ty: nat, i: nat, f: Field, k: nat, tail: seq<byte>,
                                        group: bool, p: Progress, marked: set<nat>) returns (p': Progress)
    requires ValidSchema(S) && ty < |S| && i < |S[ty].fields| && IsList(S[ty].fields[i].mode)
    requires |p.m.fields| == |S[ty].fields| && Counted(S[ty], p, marked) && k <= |f.vals|
    requires var fd := S[ty].fields[i];
             && WellTypedField(S, fd, p.m.fields[i]) && WellTypedField(S, fd, f) && CompleteField(S, fd, f)
             && |Records(Reduce(S, drop), fd, ReduceField(S, drop, fd.kind, f).vals[k..])| < TWO_63
    ensures var bytes := Records(Reduce(S, drop), S[ty].fields[i], ReduceField(S, drop, S[ty].fields[i].kind,
        f).vals[k..]);
            Appends(S, ty, i, bytes, tail, group, p, p', f.vals[k..], marked)
    decreases f, 2, |f.vals| - k
  {
    var fd, R := S[ty].fields[i], Reduce(S, drop);
    var vals := ReduceField(S, drop, fd.kind, f).vals;
    if k == |f.vals| {
      CutAll(f.vals);
      CutAll(vals);
      AppendsNone(S, ty, i, tail, group, p, marked);
      p' := p;
    } else {
      CutFirst(f.vals, k);
      CutFirst(vals, k);
      var head, more := Key(fd.tag, WireOf(fd.kind)) + Payload(R, fd, vals[k]), Records(R, fd, vals[k + 1..]);
      assert WellTypedValue(S, fd.kind, f.vals[k]) && CompleteValue(S, fd.kind, f.vals[k]);
      var q := ElementAppended(S, drop, ty, i, f.vals[k], head, more + tail, group, p, marked);
      p' := ElementsBack(S, drop, ty, i, f, k + 1, tail, group, q, marked);
      AppendsMore(S, ty, i, head, more, tail, group, p, q, p', f.vals[k], f.vals[k + 1..], marked);
    }
  }

  /** All of a field that the reduced schema has kept. */
  lemma {:induction false} FieldBack(S: Schema, drop: Removal, ty: nat, i: nat, f: Field, tail: seq<byte>,
                                     group: bool, p: Progress, marked: set<nat>)
                                         returns (p': Progress, marked': set<nat>)
    requires ValidSchema(S) && ty < |S| && i < |S[ty].fields|
    requires |p.m.fields| == |S[ty].fields| && Counted(S[ty], p, marked)
    requires var fd := S[ty].fields[i];
             && WellTypedField(S, fd, p.m.fields[i]) && WellTypedField(S, fd, f) && CompleteField(S, fd, f)
             && |FieldBytes(Reduce(S, drop), fd, ReduceField(S, drop, fd.kind, f).vals)| < TWO_63
    ensures var fd := S[ty].fields[i];
            && DecodeMsg(S, ty, FieldBytes(Reduce(S, drop), fd, ReduceField(S, drop, fd.kind, f).vals) + tail, group, p)
               == DecodeMsg(S, ty, tail, group, p')
            && p'.m == SetField(p.m, i, CombineField(S, fd, p.m.fields[i], f)) && p'.missing == p.missing
    ensures Counted(S[ty], p', marked') && marked' == Mark(S[ty], i, marked)
    decreases f, 3
  {
    var fd := S[ty].fields[i];
    var R := Reduce(S, drop);
    var vals := ReduceField(S, drop, fd.kind, f).vals;
    assert ValidType(S, S[ty]) && ValidField(S, fd);
    marked' := Mark(S[ty], i, marked);
    if f.vals == [] {
      assert FieldBytes(R, fd, vals) + tail == tail;
      assert p.m.fields[i].vals + [] == p.m.fields[i].vals;
      assert SetField(p.m, i, p.m.fields[i]).fields == p.m.fields;
      p' := p;
    } else if fd.mode == Packed {
      assert vals == f.vals;
      p' := PackedStored(S, ty, i, f.vals, tail, group, p, marked);
    } else if fd.mode == Repeated {
      assert vals[0..] == vals && f.vals[0..] == f.vals;
      p' := ElementsBack(S, drop, ty, i, f, 0, tail, group, p, marked);
    } else {
      SingleBytes(R, fd, vals);
      assert f == Field([f.vals[0]]);
      p' := ElementBack(S, drop, ty, i, f.vals[0], tail, group, p, marked);
    }
  }

  /** All of a field, written under the full schema. */
  lemma {:induction false} WholeFieldBack(S: Schema, ty: nat, i: nat, f: Field, tail: seq<byte>,
                                          group: bool, p: Progress, marked: set<nat>)
                                              returns (p': Progress, marked': set<nat>)
    requires ValidSchema(S) && ty < |S| && i < |S[ty].fields|
    requires |p.m.fields| == |S[ty].fields| && Counted(S[ty], p, marked)
    requires var fd := S[ty].fields[i];
             && WellTypedField(S, fd, p.m.fields[i]) && WellTypedField(S, fd, f) && CompleteField(S, fd, f)
             && |FieldBytes(S, fd, f.vals)| < TWO_63
    ensures var fd := S[ty].fields[i];
            && DecodeMsg(S, ty, FieldBytes(S, fd, f.vals) + tail, group, p) == DecodeMsg(S, ty, tail, group, p')
            && p'.m == SetField(p.m, i, CombineField(S, fd, p.m.fields[i], f)) && p'.missing == p.missing
    ensures Counted(S[ty], p', marked') && marked' == Mark(S[ty], i, marked)
    decreases f, 4
  {
    ReduceNothing(S);
    ReduceFieldNothing(S, S[ty].fields[i].kind, f);
    p', marked' := FieldBack(S, {}, ty, i, f, tail, group, p, marked);
  }

  /** Whether field `j` is among those from position k on that are kept, or removed. */
  predicate Among(drop: Removal, removed: bool, ty: nat, k: nat, j: nat) {
    k <= j && ((ty, j) in drop <==> removed)
  }

  /** What reading those fields of `m` does: they are combined with those of `a`, the others stay. */
  ghost predicate Reads(S: Schema, drop: Removal, removed: bool, ty: nat, a: Msg, m: Msg, k: nat,
                        p: Progress, marked: set<nat>, p': Progress, marked': set<nat>)
    requires ty < |S| && |a.fields| == |m.fields| == |S[ty].fields|
  {
    && |p.m.fields| == |p'.m.fields| == |S[ty].fields| && p'.m.unknown == p.m.unknown && p'.missing == p.missing
    && (forall j :: 0 <= j < |m.fields| ==>
          p'.m.fields[j] == if Among(drop, removed, ty, k, j)
                            then CombineField(S, S[ty].fields[j], a.fields[j], m.fields[j])
                            else p.m.fields[j])
    && Counted(S[ty], p', marked') && marked <= marked'
    && (forall j :: Among(drop, removed, ty, k, j) && IsRequired(S[ty], j) ==> j in marked')
  }

  ghost predicate Untouched(drop: Removal, removed: bool, ty: nat, a: Msg, k: nat, p: Progress) {
    && |p.m.fields| == |a.fields|
    && (forall j :: 0 <= j < |a.fields| && Among(drop, removed, ty, k, j) ==> p.m.fields[j] == a.fields[j])
  }

  lemma ReadsNone(S: Schema, drop: Removal, removed: bool, ty: nat, a: Msg, m: Msg, k: nat, p: Progress,
      marked: set<nat>)
    requires ty < |S| && |a.fields| == |m.fields| == |p.m.fields| == |S[ty].fields| && Counted(S[ty], p, marked)
    requires k == |m.fields|
    ensures Reads(S, drop, removed, ty, a, m, k, p, marked, p, marked)
  {
  }

  /** A field that is not among them is passed over. */
  lemma ReadsSkip(S: Schema, drop: Removal, removed: bool, ty: nat, a: Msg, m: Msg, k: nat,
                  p: Progress, marked: set<nat>, p': Progress, marked': set<nat>)
    requires ty < |S| && |a.fields| == |m.fields| == |S[ty].fields| && !Among(drop, removed, ty, k, k)
    requires Reads(S, drop, removed, ty, a, m, k + 1, p, marked, p', marked')
    ensures Reads(S, drop, removed, ty, a, m, k, p, marked, p', marked')
  {
  }

  lemma ReadsStep(S: Schema, drop: Removal, removed: bool, ty: nat, a: Msg, m: Msg, k: nat,
                  p: Progress, marked: set<nat>, q: Progress, marks: set<nat>, p': Progress, marked': set<nat>)
    requires ty < |S| && |a.fields| == |m.fields| == |p.m.fields| == |S[ty].fields|
    requires k < |m.fields| && Among(drop, removed, ty, k, k)
    requires q.m == SetField(p.m, k, CombineField(S, S[ty].fields[k], a.fields[k], m.fields[k]))
        && q.missing == p.missing
    requires marks == Mark(S[ty], k, marked)
    requires Reads(S, drop, removed, ty, a, m, k + 1, q, marks, p', marked')
    ensures Reads(S, drop, removed, ty, a, m, k, p, marked, p', marked')
  {
  }

  /** The kept fields from position k on. */
  lemma {:induction false} FieldsBack(S: Schema, drop: Removal, ty: nat, a: Msg, m: Msg, k: nat, tail: seq<byte>,
                                      group: bool, p: Progress, marked: set<nat>)
                                          returns (p': Progress, marked': set<nat>)
    requires ValidSchema(S) && WellTyped(S, ty, a) && WellTyped(S, ty, m) && Complete(S, ty, m) && k <= |m.fields|
    requires Counted(S[ty], p, marked) && Untouched(drop, false, ty, a, k, p)
    requires var R := Reduce(S, drop); |FieldsFrom(R, R[ty], ReduceMsg(S, drop, ty, m), k)| < TWO_63
    ensures var R := Reduce(S, drop);
            DecodeMsg(S, ty, FieldsFrom(R, R[ty], ReduceMsg(S, drop, ty, m), k) + tail, group, p)
                == DecodeMsg(S, ty, tail, group, p')
    ensures Reads(S, drop, false, ty, a, m, k, p, marked, p', marked')
    decreases m, 4, |m.fields| - k
  {
    var R := Reduce(S, drop);
    var r := ReduceMsg(S, drop, ty, m);
    if k == |m.fields| {
      assert [] + tail == tail;
      p', marked' := p, marked;
      ReadsNone(S, drop, false, ty, a, m, k, p, marked);
    } else {
      var more := FieldsFrom(R, R[ty], r, k + 1);
      KeptStep(S, drop, ty, m, k, tail);
      FieldOk(S, ty, m, k);
      FieldOk(S, ty, a, k);
      if (ty, k) in drop {
        p', marked' := FieldsBack(S, drop, ty, a, m, k + 1, tail, group, p, marked);
        ReadsSkip(S, drop, false, ty, a, m, k, p, marked, p', marked');
      } else {
        var q, marks := FieldBack(S, drop, ty, k, m.fields[k], more + tail, group, p, marked);
        p', marked' := FieldsBack(S, drop, ty, a, m, k + 1, tail, group, q, marks);
        ReadsStep(S, drop, false, ty, a, m, k, p, marked, q, marks, p', marked');
      }
    }
  }

  /** One removed field and then the others. */
  lemma {:induction false} DroppedBack(S: Schema, drop: Removal, ty: nat, a: Msg, m: Msg, k: nat, more: seq<byte>,
                                       tail: seq<byte>, group: bool, p: Progress, marked: set<nat>)
    returns (q: Progress, marks: set<nat>)
    requires ValidSchema(S) && WellTyped(S, ty, a) && WellTyped(S, ty, m) && Complete(S, ty, m) && k < |m.fields|
    requires Counted(S[ty], p, marked) && Untouched(drop, true, ty, a, k, p) && (ty, k) in drop
    requires |FieldBytes(S, S[ty].fields[k], m.fields[k].vals)| < TWO_63
    ensures DecodeMsg(S, ty, (FieldBytes(S, S[ty].fields[k], m.fields[k].vals) + more) + tail, group, p)
            == DecodeMsg(S, ty, more + tail, group, q)
    ensures q.m == SetField(p.m, k, CombineField(S, S[ty].fields[k], a.fields[k], m.fields[k]))
    ensures q.missing == p.missing && marks == Mark(S[ty], k, marked) && Counted(S[ty], q, marks)
    decreases m, 4, 0
  {
    FieldOk(S, ty, m, k);
    FieldOk(S, ty, a, k);
    Associate(FieldBytes(S, S[ty].fields[k], m.fields[k].vals), more, tail);
    q, marks := WholeFieldBack(S, ty, k, m.fields[k], more + tail, group, p, marked);
  }

  /** The removed fields from position k on, which the reduced schema has kept as bytes. */
  lemma {:induction false} RemovedBack(S: Schema, drop: Removal, ty: nat, a: Msg, m: Msg, k: nat, tail: seq<byte>,
                                       group: bool, p: Progress, marked: set<nat>)
                                           returns (p': Progress, marked': set<nat>)
    requires ValidSchema(S) && WellTyped(S, ty, a) && WellTyped(S, ty, m) && Complete(S, ty, m) && k <= |m.fields|
    requires Counted(S[ty], p, marked) && Untouched(drop, true, ty, a, k, p)
    requires |Removed(S, drop, ty, m, k)| < TWO_63
    ensures DecodeMsg(S, ty, Removed(S, drop, ty, m, k) + tail, group, p) == DecodeMsg(S, ty, tail, group, p')
    ensures Reads(S, drop, true, ty, a, m, k, p, marked, p', marked')
    decreases m, 4, |m.fields| - k
  {
    if k == |m.fields| {
      assert [] + tail == tail;
      p', marked' := p, marked;
      ReadsNone(S, drop, true, ty, a, m, k, p, marked);
    } else {
      var more := Removed(S, drop, ty, m, k + 1);
      if (ty, k) in drop {
        var q, marks := DroppedBack(S, drop, ty, a, m, k, more, tail, group, p, marked);
        p', marked' := RemovedBack(S, drop, ty, a, m, k + 1, tail, group, q, marks);
        ReadsStep(S, drop, true, ty, a, m, k, p, marked, q, marks, p', marked');
      } else {
        assert [] + more == more;
        p', marked' := RemovedBack(S, drop, ty, a, m, k + 1, tail, group, p, marked);
        ReadsSkip(S, drop, true, ty, a, m, k, p, marked, p', marked');
      }
    }
  }
}
