/** Reading a message under a reduced schema: kept fields are decoded, removed ones are saved byte
    for byte. */
module ProtoOut {
  import opened Bytes
  import opened Sequences
  import opened ProtoNumbers
  import opened ProtoSchema
  import opened ProtoReduce
  import opened ProtoDecode
  import opened ProtoRecords
  import opened ProtoSkip
  import opened ProtoAdvance

  function Saved(p: Progress, b: seq<byte>): Progress {
    p.(m := p.m.(unknown := p.m.unknown + b))
  }

  lemma SavedTwice(p: Progress, a: seq<byte>, b: seq<byte>)
    ensures Saved(Saved(p, a), b) == Saved(p, a + b)
  {
    Associate(p.m.unknown, a, b);
  }

  lemma SavedNothing(p: Progress)
    ensures Saved(p, []) == p
  {
    assert p.m.unknown + [] == p.m.unknown;
  }

  /** The records of a removed field, unpacked. */
  lemma {:induction false} RecordsSaved(R: Schema, ty: nat, S: Schema, fd: FieldDesc, f: Field, k: nat, tail: seq<byte>,
                                        group: bool, p: Progress)
    requires ValidSchema(S) && ValidField(S, fd) && WellTypedField(S, fd, f) && k <= |f.vals|
    requires ty < |R| && R[ty].keepsUnknown && FieldIndex(R[ty], fd.tag).None?
    requires |Records(S, fd, f.vals[k..])| < TWO_63
    ensures DecodeMsg(R, ty, Records(S, fd, f.vals[k..]) + tail, group, p)
            == DecodeMsg(R, ty, tail, group, Saved(p, Records(S, fd, f.vals[k..])))
    decreases |f.vals| - k
  {
    var vals := f.vals[k..];
    if vals == [] {
      assert [] + tail == tail;
      SavedNothing(p);
    } else {
      var key, payload, more := Key(fd.tag, WireOf(fd.kind)), Payload(S, fd, vals[0]), Records(S, fd, f.vals[k + 1..]);
      assert vals[1..] == f.vals[k + 1..];
      Associate(key + payload, more, tail);
      Associate(key, payload, more + tail);
      SkipsPayload(S, fd, vals[0], more + tail);
      UnknownRecord(R, ty, fd.tag, WireOf(fd.kind), payload, more + tail, group, p);
      RecordsSaved(R, ty, S, fd, f, k + 1, tail, group, Saved(p, key + payload));
      SavedTwice(p, key + payload, more);
    }
  }

  lemma FieldSaved(R: Schema, ty: nat, S: Schema, fd: FieldDesc, f: Field, tail: seq<byte>, group: bool, p: Progress)
    requires ValidSchema(S) && ValidField(S, fd) && WellTypedField(S, fd, f)
    requires ty < |R| && R[ty].keepsUnknown && FieldIndex(R[ty], fd.tag).None?
    requires |FieldBytes(S, fd, f.vals)| < TWO_63
    ensures DecodeMsg(R, ty, FieldBytes(S, fd, f.vals) + tail, group, p)
            == DecodeMsg(R, ty, tail, group, Saved(p, FieldBytes(S, fd, f.vals)))
  {
    if fd.mode == Packed && fd.kind.Numeric? {
      if f.vals == [] {
        assert [] + tail == tail;
        SavedNothing(p);
      } else {
        var b := Numbers(fd.kind.t, fd.kind.f, f.vals);
        RawRoundTrip(b, tail);
        Associate(Key(fd.tag, 2), LenPrefixed(b), tail);
        UnknownRecord(R, ty, fd.tag, 2, LenPrefixed(b), tail, group, p);
      }
    } else {
      assert f.vals[0..] == f.vals;
      RecordsSaved(R, ty, S, fd, f, 0, tail, group, p);
    }
  }

  // ---- Kept fields ----

  /** One element of a kept field; what is stored is the element reduced. */
  lemma {:induction false} ElementOut(S: Schema, drop: Removal, ty: nat, i: nat, v: Value, tail: seq<byte>,
                                      group: bool, p: Progress, marked: set<nat>) returns (p': Progress)
    requires ValidSchema(S) && ty < |S| && i < |S[ty].fields| && S[ty].fields[i].mode != Reserved && (ty, i) !in drop
    requires var R := Reduce(S, drop); |p.m.fields| == |R[ty].fields| && Counted(R[ty], p, marked)
    requires var fd := S[ty].fields[i];
             && WellTypedValue(S, fd.kind, v) && CompleteValue(S, fd.kind, v)
             && (!IsList(fd.mode) ==> p.m.fields[i].vals == [])
             && |Payload(S, fd, v)| < TWO_63
    ensures var fd, R := S[ty].fields[i], Reduce(S, drop);
            && DecodeMsg(R, ty, Key(fd.tag, WireOf(fd.kind)) + Payload(S, fd, v) + tail, group, p)
                == DecodeMsg(R, ty, tail, group, p')
            && p'.m == SetField(p.m, i, Field(Store(fd, p.m.fields[i].vals, ReduceValue(S, drop, fd.kind, v))))
                && p'.missing == p.missing
    ensures Counted(Reduce(S, drop)[ty], p', Mark(Reduce(S, drop)[ty], i, marked))
    decreases v, 1
  {
    var fd := S[ty].fields[i];
    var R := Reduce(S, drop);
    ReduceValid(S, drop);
    assert ValidType(R, R[ty]) && ValidField(S, fd) && R[ty].fields[i] == fd;
    match fd.kind {
      case Message(inner) =>
        var q, marks := MessageOut(S, drop, inner, v.m, [], false, Start(R[inner], EmptyMsg(R[inner])), {});
        var b := Ser(S, inner, v.m);
        assert b + [] == b;
        AtEnd(R, inner, q);
        AllMarked(R[inner], q, marks);
        p' := MessageStored(R, ty, i, b, q.m, tail, group, p, marked);
      case Group(inner) =>
        var b, end := Ser(S, inner, v.m), Key(fd.tag, 4);
        var q, marks := MessageOut(S, drop, inner, v.m, end + tail, true, Start(R[inner], EmptyMsg(R[inner])), {});
        Associate(b, end, tail);
        AtEndGroup(R, inner, fd.tag, tail, q);
        AllMarked(R[inner], q, marks);
        p' := GroupStored(R, ty, i, b + end, q.m, tail, group, p, marked);
      case _ =>
        p' := ScalarStored(R, ty, i, S, v, tail, group, p, marked);
    }
  }

  /** One element of a list, with its bytes `b` and what is stored for it. */
  lemma {:induction false} ElementAppended(S: Schema, drop: Removal, ty: nat, i: nat, v: Value, b: seq<byte>,
                                           reduced: Value, tail: seq<byte>, group: bool, p: Progress,
                                           marked: set<nat>)
    returns (q: Progress)
    requires ValidSchema(S) && ty < |S| && i < |S[ty].fields| && IsList(S[ty].fields[i].mode) && (ty, i) !in drop
    requires var R := Reduce(S, drop); |p.m.fields| == |R[ty].fields| && Counted(R[ty], p, marked)
    requires var fd := S[ty].fields[i];
             && WellTypedValue(S, fd.kind, v) && CompleteValue(S, fd.kind, v) && |Payload(S, fd, v)| < TWO_63
             && b == Key(fd.tag, WireOf(fd.kind)) + Payload(S, fd, v) && reduced == ReduceValue(S, drop, fd.kind, v)
    ensures Appends(Reduce(S, drop), ty, i, b, tail, group, p, q, [reduced], marked)
    ensures |q.m.fields| == |S[ty].fields|
    decreases v, 2
  {
    q := ElementOut(S, drop, ty, i, v, tail, group, p, marked);
  }

  lemma {:induction false} ElementsOut(S: Schema, drop: Removal, ty: nat, i: nat, f: Field, k: nat, tail: seq<byte>,
                                       group: bool, p: Progress, marked: set<nat>) returns (p': Progress)
    requires ValidSchema(S) && ty < |S| && i < |S[ty].fields| && IsList(S[ty].fields[i].mode) && (ty, i) !in drop
    requires var R := Reduce(S, drop); |p.m.fields| == |R[ty].fields| && Counted(R[ty], p, marked)
    requires var fd := S[ty].fields[i];
             && k <= |f.vals| && WellTypedField(S, fd, f) && CompleteField(S, fd, f)
                 && |Records(S, fd, f.vals[k..])| < TWO_63
    ensures var fd := S[ty].fields[i];
            Appends(Reduce(S, drop), ty, i, Records(S, fd, f.vals[k..]), tail, group, p, p',
                    ReduceField(S, drop, fd.kind, f).vals[k..], marked)
    decreases f, 2, |f.vals| - k
  {
    var fd := S[ty].fields[i];
    var R := Reduce(S, drop);
    var reduced := ReduceField(S, drop, fd.kind, f).vals;
    if k == |f.vals| {
      CutAll(f.vals);
      CutAll(reduced);
      AppendsNone(R, ty, i, tail, group, p, marked);
      p' := p;
    } else {
      CutFirst(f.vals, k);
      CutFirst(reduced, k);
      var head, more := Key(fd.tag, WireOf(fd.kind)) + Payload(S, fd, f.vals[k]), Records(S, fd, f.vals[k + 1..]);
      assert WellTypedValue(S, fd.kind, f.vals[k]) && CompleteValue(S, fd.kind, f.vals[k]);
      var q := ElementAppended(S, drop, ty, i, f.vals[k], head, reduced[k], more + tail, group, p, marked);
      p' := ElementsOut(S, drop, ty, i, f, k + 1, tail, group, q, marked);
      AppendsMore(R, ty, i, head, more, tail, group, p, q, p', reduced[k], reduced[k + 1..], marked);
    }
  }

  lemma SetSame(m: Msg, i: nat)
    requires i < |m.fields|
    ensures SetField(m, i, m.fields[i]) == m
  {
    assert SetField(m, i, m.fields[i]).fields == m.fields;
  }

  /** A field that is no list and is set. */
  lemma {:induction false} SingleOut(S: Schema, drop: Removal, ty: nat, i: nat, f: Field, tail: seq<byte>,
                                     group: bool, p: Progress, marked: set<nat>)
    returns (p': Progress)
    requires ValidSchema(S) && ty < |S| && i < |S[ty].fields| && (ty, i) !in drop && f.vals != []
    requires var R := Reduce(S, drop); |p.m.fields| == |R[ty].fields| && Counted(R[ty], p, marked)
    requires var fd := S[ty].fields[i];
             && !IsList(fd.mode) && p.m.fields[i].vals == [] && WellTypedField(S, fd, f) && CompleteField(S, fd, f)
             && |FieldBytes(S, fd, f.vals)| < TWO_63
    ensures var fd, R := S[ty].fields[i], Reduce(S, drop);
            && DecodeMsg(R, ty, FieldBytes(S, fd, f.vals) + tail, group, p) == DecodeMsg(R, ty, tail, group, p')
            && p'.m == SetField(p.m, i, ReduceField(S, drop, fd.kind, f)) && p'.missing == p.missing
    ensures Counted(Reduce(S, drop)[ty], p', Mark(Reduce(S, drop)[ty], i, marked))
    decreases f, 2
  {
    var fd := S[ty].fields[i];
    assert ValidType(S, S[ty]) && ValidField(S, fd);
    SingleBytes(S, fd, f.vals);
    assert ReduceField(S, drop, fd.kind, f) == Field([ReduceValue(S, drop, fd.kind, f.vals[0])]);
    p' := ElementOut(S, drop, ty, i, f.vals[0], tail, group, p, marked);
  }

  lemma {:induction false} FieldOut(S: Schema, drop: Removal, ty: nat, i: nat, f: Field, tail: seq<byte>,
                                    group: bool, p: Progress, marked: set<nat>)
                                        returns (p': Progress, marked': set<nat>)
    requires ValidSchema(S) && ty < |S| && i < |S[ty].fields| && (ty, i) !in drop
    requires var R := Reduce(S, drop); |p.m.fields| == |R[ty].fields| && Counted(R[ty], p, marked)
    requires var fd := S[ty].fields[i];
             && p.m.fields[i].vals == [] && WellTypedField(S, fd, f) && CompleteField(S, fd, f)
                 && |FieldBytes(S, fd, f.vals)| < TWO_63
    ensures var fd, R := S[ty].fields[i], Reduce(S, drop);
            && DecodeMsg(R, ty, FieldBytes(S, fd, f.vals) + tail, group, p) == DecodeMsg(R, ty, tail, group, p')
            && p'.m == SetField(p.m, i, ReduceField(S, drop, fd.kind, f)) && p'.missing == p.missing
    ensures Counted(Reduce(S, drop)[ty], p', marked') && marked' == Mark(Reduce(S, drop)[ty], i, marked)
    decreases f, 3
  {
    var fd := S[ty].fields[i];
    var R := Reduce(S, drop);
    var r := ReduceField(S, drop, fd.kind, f);
    ReduceValid(S, drop);
    assert ValidType(R, R[ty]) && ValidType(S, S[ty]) && ValidField(S, fd) && R[ty].fields[i] == fd;
    marked' := Mark(R[ty], i, marked);
    if f.vals == [] {
      assert FieldBytes(S, fd, f.vals) + tail == tail;
      assert r == p.m.fields[i];
      SetSame(p.m, i);
      p' := p;
    } else if fd.mode == Packed {
      NumbersStay(S, drop, fd, f);
      assert [] + f.vals == f.vals;
      p' := PackedStored(R, ty, i, f.vals, tail, group, p, marked);
    } else if fd.mode == Repeated {
      assert f.vals[0..] == f.vals && [] + r.vals[0..] == r.vals;
      p' := ElementsOut(S, drop, ty, i, f, 0, tail, group, p, marked);
    } else {
      p' := SingleOut(S, drop, ty, i, f, tail, group, p, marked);
    }
  }

  /** What reading the fields of `m` from position k on does: they are there, reduced; what has been
      removed is saved. */
  ghost predicate ReadsOut(S: Schema, drop: Removal, ty: nat, m: Msg, k: nat,
                           p: Progress, marked: set<nat>, p': Progress, marked': set<nat>)
    requires ty < |S| && k <= |m.fields| == |S[ty].fields|
  {
    && |p.m.fields| == |p'.m.fields| == |m.fields| && p'.missing == p.missing
    && p'.m.unknown == p.m.unknown + Removed(S, drop, ty, m, k)
    && (forall j :: 0 <= j < |m.fields| ==>
          p'.m.fields[j] == if j < k then p.m.fields[j] else ReduceMsg(S, drop, ty, m).fields[j])
    && Counted(Reduce(S, drop)[ty], p', marked') && marked <= marked'
    && (forall j :: k <= j && IsRequired(Reduce(S, drop)[ty], j) ==> j in marked')
  }

  lemma OutNone(S: Schema, drop: Removal, ty: nat, m: Msg, p: Progress, marked: set<nat>)
    requires ty < |S| && |p.m.fields| == |m.fields| == |S[ty].fields| && Counted(Reduce(S, drop)[ty], p, marked)
    ensures ReadsOut(S, drop, ty, m, |m.fields|, p, marked, p, marked)
  {
    assert p.m.unknown + [] == p.m.unknown;
  }

  lemma OutSaved(S: Schema, drop: Removal, ty: nat, m: Msg, k: nat,
                 p: Progress, marked: set<nat>, p': Progress, marked': set<nat>)
    requires ty < |S| && k < |m.fields| == |p.m.fields| == |S[ty].fields| && (ty, k) in drop && p.m.fields[k].vals == []
    requires ReadsOut(S, drop, ty, m, k + 1, Saved(p, FieldBytes(S, S[ty].fields[k], m.fields[k].vals)), marked, p',
        marked')
    ensures ReadsOut(S, drop, ty, m, k, p, marked, p', marked')
  {
    Associate(p.m.unknown, FieldBytes(S, S[ty].fields[k], m.fields[k].vals), Removed(S, drop, ty, m, k + 1));
    assert ReduceMsg(S, drop, ty, m).fields[k] == p.m.fields[k];
  }

  lemma OutStored(S: Schema, drop: Removal, ty: nat, m: Msg, k: nat, p: Progress, marked: set<nat>,
                  q: Progress, marks: set<nat>, p': Progress, marked': set<nat>)
    requires ty < |S| && k < |m.fields| == |p.m.fields| == |S[ty].fields| && (ty, k) !in drop
    requires q.m == SetField(p.m, k, ReduceField(S, drop, S[ty].fields[k].kind, m.fields[k])) && q.missing == p.missing
    requires marks == Mark(Reduce(S, drop)[ty], k, marked)
    requires ReadsOut(S, drop, ty, m, k + 1, q, marks, p', marked')
    ensures ReadsOut(S, drop, ty, m, k, p, marked, p', marked')
  {
    assert [] + Removed(S, drop, ty, m, k + 1) == Removed(S, drop, ty, m, k + 1);
  }

  lemma HeadFirst(S: Schema, ty: nat, m: Msg, k: nat, tail: seq<byte>)
    requires ty < |S| && k < |m.fields| == |S[ty].fields|
    ensures var head, more := FieldBytes(S, S[ty].fields[k], m.fields[k].vals), FieldsFrom(S, S[ty], m, k + 1);
            && FieldsFrom(S, S[ty], m, k) + tail == head + (more + tail)
            && |FieldsFrom(S, S[ty], m, k)| == |head| + |more|
  {
    Associate(FieldBytes(S, S[ty].fields[k], m.fields[k].vals), FieldsFrom(S, S[ty], m, k + 1), tail);
  }

  /** A removed field is saved. */
  lemma DroppedOut(S: Schema, drop: Removal, ty: nat, m: Msg, k: nat, tail: seq<byte>, group: bool, p: Progress)
    requires ValidSchema(S) && WellTyped(S, ty, m) && k < |m.fields| && (ty, k) in drop
    requires |FieldBytes(S, S[ty].fields[k], m.fields[k].vals)| < TWO_63
    ensures var head := FieldBytes(S, S[ty].fields[k], m.fields[k].vals);
            DecodeMsg(Reduce(S, drop), ty, head + tail, group, p)
                == DecodeMsg(Reduce(S, drop), ty, tail, group, Saved(p, head))
  {
    var fd := S[ty].fields[k];
    assert ValidType(S, S[ty]) && ValidField(S, fd);
    FieldOk(S, ty, m, k);
    RemovedIsUnknown(S[ty], drop, ty, k);
    FieldSaved(Reduce(S, drop), ty, S, fd, m.fields[k], tail, group, p);
  }

  /** The fields of `m` from position k on can be read: those before it are done. */
  ghost predicate Ready(S: Schema, drop: Removal, ty: nat, m: Msg, k: nat, p: Progress, marked: set<nat>) {
    && ValidSchema(S) && WellTyped(S, ty, m) && Complete(S, ty, m) && k <= |m.fields| == |p.m.fields|
    && Counted(Reduce(S, drop)[ty], p, marked)
    && (forall j :: k <= j < |m.fields| ==> p.m.fields[j].vals == [])
    && |FieldsFrom(S, S[ty], m, k)| < TWO_63
  }

  /** One field: it is saved, or stored reduced. */
  lemma {:induction false} OneOut(S: Schema, drop: Removal, ty: nat, m: Msg, k: nat, tail: seq<byte>, group: bool,
                                  p: Progress, marked: set<nat>)
    returns (q: Progress, marks: set<nat>)
    requires Ready(S, drop, ty, m, k, p, marked) && k < |m.fields|
    ensures DecodeMsg(Reduce(S, drop), ty, FieldsFrom(S, S[ty], m, k) + tail, group, p)
            == DecodeMsg(Reduce(S, drop), ty, FieldsFrom(S, S[ty], m, k + 1) + tail, group, q)
    ensures Ready(S, drop, ty, m, k + 1, q, marks)
    ensures if (ty, k) in drop
            then q == Saved(p, FieldBytes(S, S[ty].fields[k], m.fields[k].vals)) && marks == marked
            else && q.m == SetField(p.m, k, ReduceField(S, drop, S[ty].fields[k].kind, m.fields[k]))
                 && q.missing == p.missing && marks == Mark(Reduce(S, drop)[ty], k, marked)
    decreases m, 4, 0
  {
    var head, more := FieldBytes(S, S[ty].fields[k], m.fields[k].vals), FieldsFrom(S, S[ty], m, k + 1);
    HeadFirst(S, ty, m, k, tail);
    FieldOk(S, ty, m, k);
    if (ty, k) in drop {
      DroppedOut(S, drop, ty, m, k, more + tail, group, p);
      q, marks := Saved(p, head), marked;
    } else {
      q, marks := FieldOut(S, drop, ty, k, m.fields[k], more + tail, group, p, marked);
    }
  }

  /** All fields from position k on. */
  lemma {:induction false} FieldsOut(S: Schema, drop: Removal, ty: nat, m: Msg, k: nat, tail: seq<byte>,
                                     group: bool, p: Progress, marked: set<nat>)
    returns (p': Progress, marked': set<nat>)
    requires Ready(S, drop, ty, m, k, p, marked)
    ensures DecodeMsg(Reduce(S, drop), ty, FieldsFrom(S, S[ty], m, k) + tail, group, p)
        == DecodeMsg(Reduce(S, drop), ty, tail, group, p')
    ensures ReadsOut(S, drop, ty, m, k, p, marked, p', marked')
    decreases m, 4, |m.fields| - k
  {
    if k == |m.fields| {
      assert [] + tail == tail;
      p', marked' := p, marked;
      OutNone(S, drop, ty, m, p, marked);
    } else {
      var q, marks := OneOut(S, drop, ty, m, k, tail, group, p, marked);
      p', marked' := FieldsOut(S, drop, ty, m, k + 1, tail, group, q, marks);
      if (ty, k) in drop {
        OutSaved(S, drop, ty, m, k, p, marked, p', marked');
      } else {
        OutStored(S, drop, ty, m, k, p, marked, q, marks, p', marked');
      }
    }
  }

  /** A whole message, read into an empty one. */
  lemma {:induction false} MessageOut(S: Schema, drop: Removal, ty: nat, m: Msg, tail: seq<byte>,
                                      group: bool, p: Progress, marked: set<nat>)
    returns (p': Progress, marked': set<nat>)
    requires ValidSchema(S) && WellTyped(S, ty, m) && Complete(S, ty, m) && |Ser(S, ty, m)| < TWO_63
    requires p.m == EmptyMsg(Reduce(S, drop)[ty]) && Counted(Reduce(S, drop)[ty], p, marked)
    ensures DecodeMsg(Reduce(S, drop), ty, Ser(S, ty, m) + tail, group, p)
        == DecodeMsg(Reduce(S, drop), ty, tail, group, p')
    ensures p'.m == ReduceMsg(S, drop, ty, m) && p'.missing == p.missing
    ensures var d := Reduce(S, drop)[ty]; Counted(d, p', marked') && forall i :: IsRequired(d, i) ==> i in marked'
    decreases m, 5
  {
    var R := Reduce(S, drop);
    var fields := FieldsFrom(S, S[ty], m, 0);
    FieldsThenUnknown(S, ty, m, tail);
    var p1, marks1 := FieldsOut(S, drop, ty, m, 0, m.unknown + tail, group, p, marked);
    p', marked' := Saved(p1, m.unknown), marks1;
    UnknownOut(S, drop, ty, m, tail, group, p1);
    assert [] + Removed(S, drop, ty, m, 0) == Removed(S, drop, ty, m, 0);
    assert p'.m.fields == ReduceMsg(S, drop, ty, m).fields;
  }

  lemma FieldsThenUnknown(S: Schema, ty: nat, m: Msg, tail: seq<byte>)
    requires WellTyped(S, ty, m)
    ensures Ser(S, ty, m) + tail == FieldsFrom(S, S[ty], m, 0) + (m.unknown + tail)
    ensures |Ser(S, ty, m)| == |FieldsFrom(S, S[ty], m, 0)| + |m.unknown|
  {
    assert Ser(S, ty, m) == FieldsFrom(S, S[ty], m, 0) + m.unknown;
    Associate(FieldsFrom(S, S[ty], m, 0), m.unknown, tail);
  }

  lemma UnknownOut(S: Schema, drop: Removal, ty: nat, m: Msg, tail: seq<byte>, group: bool, p: Progress)
    requires WellTyped(S, ty, m)
    ensures DecodeMsg(Reduce(S, drop), ty, m.unknown + tail, group, p)
            == DecodeMsg(Reduce(S, drop), ty, tail, group, Saved(p, m.unknown))
  {
    if S[ty].keepsUnknown {
      UnknownRunReduced(S[ty], drop, ty, m.unknown);
      UnknownStored(Reduce(S, drop), ty, m.unknown, tail, group, p);
    } else {
      assert m.unknown + tail == tail;
      SavedNothing(p);
    }
  }
}
