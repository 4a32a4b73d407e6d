/** How the decoder gets past the records of one field: the count of required fields and the state
    of the loop behind every element. */
module ProtoAdvance {
  import opened Bytes
  import opened Options
  import opened Sequences
  import opened Varints
  import opened ProtoVarint
  import opened ProtoNumbers
  import opened ProtoWire
  import opened ProtoSchema
  import opened ProtoDecode
  import opened ProtoRecords

  // ---- Required fields ----

  predicate IsRequired(d: MsgDesc, i: nat) {
    i < |d.fields| && d.fields[i].mode == Required
  }

  /** `marked` are positions of required fields that have been decoded. */
  ghost predicate Counted(d: MsgDesc, p: Progress, marked: set<nat>) {
    && (forall i :: i in marked ==> IsRequired(d, i))
    && (forall t :: t in p.seen ==> exists i :: i in marked && d.fields[i].tag == t)
    && p.required + |marked| <= RequiredFrom(d, 0)
  }

  function Mark(d: MsgDesc, i: nat, marked: set<nat>): set<nat> {
    if IsRequired(d, i) then marked + {i} else marked
  }

  ghost predicate Sorted(d: MsgDesc) {
    forall i, j :: 0 <= i < j < |d.fields| ==> d.fields[i].tag < d.fields[j].tag
  }

  lemma CountStep(d: MsgDesc, i: nat, p: Progress, marked: set<nat>)
    requires Sorted(d) && i < |d.fields| && Counted(d, p, marked)
    ensures Counted(d, Count(d.fields[i], p), Mark(d, i, marked))
    ensures Count(d.fields[i], p).m == p.m && Count(d.fields[i], p).missing == p.missing
  {
    var q, marks := Count(d.fields[i], p), Mark(d, i, marked);
    if IsRequired(d, i) {
      assert i in marks && d.fields[i].tag == d.fields[i].tag;
      assert forall j :: j in marked && j != i ==> j < i || i < j;
      forall t | t in q.seen ensures exists j :: j in marks && d.fields[j].tag == t {
        if t in p.seen {
          var j :| j in marked && d.fields[j].tag == t;
          assert j in marks;
        }
      }
    }
  }

  function RequiredSet(d: MsgDesc, i: nat): set<nat> {
    set j | i <= j < |d.fields| && IsRequired(d, j)
  }

  lemma {:induction false} RequiredSetSize(d: MsgDesc, i: nat)
    requires i <= |d.fields|
    ensures |RequiredSet(d, i)| == RequiredFrom(d, i)
    decreases |d.fields| - i
  {
    if i == |d.fields| {
      assert RequiredSet(d, i) == {};
    } else {
      RequiredSetSize(d, i + 1);
      if IsRequired(d, i) {
        assert RequiredSet(d, i) == RequiredSet(d, i + 1) + {i};
      } else {
        assert RequiredSet(d, i) == RequiredSet(d, i + 1);
      }
    }
  }

  /** Once every required field has been decoded, none is counted as missing. */
  lemma AllMarked(d: MsgDesc, p: Progress, marked: set<nat>)
    requires Counted(d, p, marked) && forall i :: IsRequired(d, i) ==> i in marked
    ensures p.required <= 0
  {
    RequiredSetSize(d, 0);
    assert marked == RequiredSet(d, 0);
  }

  // ---- One element ----

  function SetField(m: Msg, i: nat, f: Field): Msg
    requires i < |m.fields|
  {
    m.(fields := m.fields[i := f])
  }

  /** Reading `b` in front of `tail` has appended `vals` to list field `i`, and nothing else. */
  ghost predicate Appends(S: Schema, ty: nat, i: nat, b: seq<byte>, tail: seq<byte>, group: bool,
                          p: Progress, p': Progress, vals: seq<Value>, marked: set<nat>)
    requires ty < |S| && i < |p.m.fields|
  {
    && DecodeMsg(S, ty, b + tail, group, p) == DecodeMsg(S, ty, tail, group, p')
    && p'.m == SetField(p.m, i, Field(p.m.fields[i].vals + vals)) && p'.missing == p.missing
    && Counted(S[ty], p', marked)
  }

  lemma AppendsNone(S: Schema, ty: nat, i: nat, tail: seq<byte>, group: bool, p: Progress, marked: set<nat>)
    requires ty < |S| && i < |p.m.fields| && Counted(S[ty], p, marked)
    ensures Appends(S, ty, i, [], tail, group, p, p, [], marked)
  {
    assert [] + tail == tail;
    assert p.m.fields[i].vals + [] == p.m.fields[i].vals;
    assert SetField(p.m, i, p.m.fields[i]).fields == p.m.fields;
  }

  /** One element and then the others. */
  lemma AppendsMore(S: Schema, ty: nat, i: nat, head: seq<byte>, more: seq<byte>, tail: seq<byte>, group: bool,
                    p: Progress, q: Progress, p': Progress, v: Value, rest: seq<Value>, marked: set<nat>)
    requires ty < |S| && i < |p.m.fields| == |q.m.fields|
    requires Appends(S, ty, i, head, more + tail, group, p, q, [v], marked)
    requires Appends(S, ty, i, more, tail, group, q, p', rest, marked)
    ensures Appends(S, ty, i, head + more, tail, group, p, p', [v] + rest, marked)
  {
    Associate(head, more, tail);
    Associate(p.m.fields[i].vals, [v], rest);
  }

  lemma SingleBytes(S: Schema, fd: FieldDesc, vals: seq<Value>)
    requires |vals| == 1
    ensures Records(S, fd, vals) == Key(fd.tag, WireOf(fd.kind)) + Payload(S, fd, vals[0])
  {
    assert Records(S, fd, vals[1..]) == [];
  }

  /** Behind one element of field `i`: the element is stored and its field counted. */
  lemma ElementStored(S: Schema, ty: nat, i: nat, wire: nat, payload: seq<byte>, tail: seq<byte>,
                      group: bool, p: Progress, marked: set<nat>, vals: seq<Value>) returns (p': Progress)
    requires ty < |S| && ValidType(S, S[ty]) && i < |S[ty].fields| && S[ty].fields[i].mode != Reserved
    requires wire < 8 && wire != 4
    requires |p.m.fields| == |S[ty].fields| && Counted(S[ty], p, marked)
    requires DecodeField(S, S[ty].fields[i], wire, payload + tail, p.m.fields[i].vals) == Got(vals, tail, false)
    ensures DecodeMsg(S, ty, Key(S[ty].fields[i].tag, wire) + payload + tail, group, p)
        == DecodeMsg(S, ty, tail, group, p')
    ensures p'.m == SetField(p.m, i, Field(vals)) && p'.missing == p.missing
    ensures Counted(S[ty], p', Mark(S[ty], i, marked))
  {
    var q := p.(m := SetField(p.m, i, Field(vals)));
    Associate(Key(S[ty].fields[i].tag, wire), payload, tail);
    KnownRecord(S, ty, i, wire, payload + tail, group, p);
    p' := Step(S[ty], i, p, vals, false);
    assert p' == Count(S[ty].fields[i], q);
    CountStep(S[ty], i, q, marked);
  }

  /** A number or a text. */
  lemma ScalarStored(S: Schema, ty: nat, i: nat, Y: Schema, v: Value, tail: seq<byte>,
                     group: bool, p: Progress, marked: set<nat>) returns (p': Progress)
    requires ty < |S| && ValidType(S, S[ty]) && i < |S[ty].fields| && S[ty].fields[i].mode != Reserved
    requires |p.m.fields| == |S[ty].fields| && Counted(S[ty], p, marked)
    requires var fd := S[ty].fields[i];
             (fd.kind.Numeric? || fd.kind.Text?) && WellTypedValue(S, fd.kind, v) && |Payload(Y, fd, v)| < TWO_63
    ensures var fd := S[ty].fields[i];
            && DecodeMsg(S, ty, Key(fd.tag, WireOf(fd.kind)) + Payload(Y, fd, v) + tail, group, p)
                == DecodeMsg(S, ty, tail, group, p')
            && p'.m == SetField(p.m, i, Field(Store(fd, p.m.fields[i].vals, v))) && p'.missing == p.missing
    ensures Counted(S[ty], p', Mark(S[ty], i, marked))
  {
    var fd := S[ty].fields[i];
    var vals := p.m.fields[i].vals;
    assert ValidField(S, fd);
    if fd.kind.Numeric? {
      NumberField(S, fd, v, tail, vals);
    } else {
      TextField(S, fd, v.b, tail, vals);
    }
    p' := ElementStored(S, ty, i, WireOf(fd.kind), Payload(Y, fd, v), tail, group, p, marked, Store(fd, vals, v));
  }

  /** A message or a group whose bytes `b` decode to `m`. */
  lemma MessageStored(S: Schema, ty: nat, i: nat, b: seq<byte>, m: Msg, tail: seq<byte>,
                      group: bool, p: Progress, marked: set<nat>) returns (p': Progress)
    requires ty < |S| && ValidType(S, S[ty]) && i < |S[ty].fields| && S[ty].fields[i].mode != Reserved
    requires |p.m.fields| == |S[ty].fields| && Counted(S[ty], p, marked)
    requires var fd := S[ty].fields[i];
             && fd.kind.Message? && fd.kind.ty < |S| && |b| < TWO_63
             && DecodeMsg(S, fd.kind.ty, b, false, Start(S[fd.kind.ty], Target(S[fd.kind.ty], fd,
                 p.m.fields[i].vals))) == Done(m, [], false)
    ensures var fd := S[ty].fields[i];
            && DecodeMsg(S, ty, Key(fd.tag, 2) + LenPrefixed(b) + tail, group, p) == DecodeMsg(S, ty, tail, group, p')
            && p'.m == SetField(p.m, i, Field(Store(fd, p.m.fields[i].vals, Sub(m)))) && p'.missing == p.missing
    ensures Counted(S[ty], p', Mark(S[ty], i, marked))
  {
    var fd := S[ty].fields[i];
    var vals := p.m.fields[i].vals;
    MessageField(S, fd, b, tail, vals, m);
    p' := ElementStored(S, ty, i, 2, LenPrefixed(b), tail, group, p, marked, Store(fd, vals, Sub(m)));
  }

  lemma GroupStored(S: Schema, ty: nat, i: nat, b: seq<byte>, m: Msg, tail: seq<byte>,
                    group: bool, p: Progress, marked: set<nat>) returns (p': Progress)
    requires ty < |S| && ValidType(S, S[ty]) && i < |S[ty].fields| && S[ty].fields[i].mode != Reserved
    requires |p.m.fields| == |S[ty].fields| && Counted(S[ty], p, marked)
    requires var fd := S[ty].fields[i];
             && fd.kind.Group? && fd.kind.ty < |S|
             && DecodeMsg(S, fd.kind.ty, b + tail, true, Start(S[fd.kind.ty], Target(S[fd.kind.ty], fd,
                 p.m.fields[i].vals))) == Done(m, tail, false)
    ensures var fd := S[ty].fields[i];
            && DecodeMsg(S, ty, Key(fd.tag, 3) + b + tail, group, p) == DecodeMsg(S, ty, tail, group, p')
            && p'.m == SetField(p.m, i, Field(Store(fd, p.m.fields[i].vals, Sub(m)))) && p'.missing == p.missing
    ensures Counted(S[ty], p', Mark(S[ty], i, marked))
  {
    var fd := S[ty].fields[i];
    var vals := p.m.fields[i].vals;
    p' := ElementStored(S, ty, i, 3, b, tail, group, p, marked, Store(fd, vals, Sub(m)));
  }

  /** A packed list. */
  lemma PackedStored(S: Schema, ty: nat, i: nat, more: seq<Value>, tail: seq<byte>,
                     group: bool, p: Progress, marked: set<nat>) returns (p': Progress)
    requires ty < |S| && ValidType(S, S[ty]) && i < |S[ty].fields|
    requires |p.m.fields| == |S[ty].fields| && Counted(S[ty], p, marked)
    requires var fd := S[ty].fields[i];
             && fd.kind.Numeric? && IsList(fd.mode)
             && (forall j :: 0 <= j < |more| ==> WellTypedValue(S, fd.kind, more[j]))
             && |Numbers(fd.kind.t, fd.kind.f, more)| < TWO_63
    ensures var fd := S[ty].fields[i];
            && DecodeMsg(S, ty, Key(fd.tag, 2) + LenPrefixed(Numbers(fd.kind.t, fd.kind.f, more)) + tail, group, p)
               == DecodeMsg(S, ty, tail, group, p')
            && p'.m == SetField(p.m, i, Field(p.m.fields[i].vals + more)) && p'.missing == p.missing
    ensures Counted(S[ty], p', Mark(S[ty], i, marked))
  {
    var fd := S[ty].fields[i];
    assert ValidField(S, fd);
    PackedField(S, fd, more, tail, p.m.fields[i].vals);
    p' := ElementStored(S, ty, i, 2, LenPrefixed(Numbers(fd.kind.t, fd.kind.f, more)), tail, group, p, marked,
        p.m.fields[i].vals + more);
  }

  // ---- The end of a message ----

  /** With nothing left to read, or at an end-group key. */
  lemma AtEnd(S: Schema, ty: nat, p: Progress)
    requires ty < |S|
    ensures DecodeMsg(S, ty, [], false, p) == Done(p.m, [], p.missing || p.required > 0)
  {
  }

  lemma AtEndGroup(S: Schema, ty: nat, tag: nat, tail: seq<byte>, p: Progress)
    requires ty < |S| && tag <= MAX_TAG
    ensures DecodeMsg(S, ty, Key(tag, 4) + tail, true, p) == Done(p.m, tail, p.required > 0)
  {
    KeyRoundTrip(tag, 4, tail);
  }

  // ---- Unknown fields ----

  /** A run of unknown records goes to the unknown fields, byte for byte. */
  lemma {:induction false} UnknownStored(S: Schema, ty: nat, u: seq<byte>, tail: seq<byte>, group: bool, p: Progress)
    requires ty < |S| && S[ty].keepsUnknown && UnknownRun(S[ty], u)
    ensures DecodeMsg(S, ty, u + tail, group, p)
        == DecodeMsg(S, ty, tail, group, p.(m := p.m.(unknown := p.m.unknown + u)))
    decreases |u|
  {
    if u == [] {
      assert u + tail == tail && p.m.unknown + u == p.m.unknown;
    } else {
      var n := UnknownHead(S[ty], u).value;
      FirstUnknownStored(S, ty, u, n, u[n..] + tail, tail, group, p);
      UnknownStored(S, ty, u[n..], tail, group, p.(m := p.m.(unknown := p.m.unknown + u[..n])));
      assert u[..n] + u[n..] == u;
      Associate(p.m.unknown, u[..n], u[n..]);
    }
  }

  /** The first record of the run, in front of everything else. */
  lemma FirstUnknownStored(S: Schema, ty: nat, u: seq<byte>, n: nat, rest: seq<byte>, tail: seq<byte>, group: bool,
                           p: Progress)
    requires ty < |S| && S[ty].keepsUnknown && UnknownHead(S[ty], u) == Some(n) && rest == u[n..] + tail
    ensures DecodeMsg(S, ty, u + tail, group, p)
            == DecodeMsg(S, ty, rest, group, p.(m := p.m.(unknown := p.m.unknown + u[..n])))
  {
    var key, k := VarintAt(u).x, VarintAt(u).size;
    VarintLocal(u, tail);
    SkipLocal(key % 8, u[k..], tail);
    CutLonger(u, tail, k);
    CutLonger(u, tail, n);
    UnknownHeadStored(S, ty, u + tail, key, k, n, u[..n], rest, group, p);
  }

  lemma UnknownHeadStored(S: Schema, ty: nat, s: seq<byte>, key: nat, k: nat, n: nat, head: seq<byte>, rest: seq<byte>,
                          group: bool, p: Progress)
    requires ty < |S| && S[ty].keepsUnknown
    requires k <= n <= |s| && VarintAt(s) == Value(key, k) && key % 8 != 4 && key / 8 > 0 && s[..k] == Varint(key)
    requires FieldIndex(S[ty], key / 8).None? && Skip(key % 8, s[k..]) == Some(n - k)
    requires head == s[..n] && rest == s[n..]
    ensures DecodeMsg(S, ty, s, group, p) == DecodeMsg(S, ty, rest, group, p.(m := p.m.(unknown := p.m.unknown + head)))
  {
    assert DecodeMsg(S, ty, s, group, p) == DecodeUnknown(S, ty, key, s[k..], group, p);
    CutTwice(s, k, n);
  }
}
