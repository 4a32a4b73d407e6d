/** Decoding any bytes gives a message of the type: what it holds is what the Go types allow, and its
    unknown fields are whole records. So the laws for marshalled messages apply to decoded ones. */
module ProtoTyped {
  import opened Bytes
  import opened Options
  import opened Sequences
  import opened Varints
  import opened ProtoVarint
  import opened ProtoNumbers
  import opened ProtoWire
  import opened ProtoSchema
  import opened ProtoDecode
  import opened ProtoMerge
  import opened ProtoLoop
  import Laws = ProtoLaws

  // ---- A record that has been skipped can be skipped again ----

  lemma {:induction false} ScanPrefix(s: seq<byte>, c: nat)
    requires Scan(s).Some? && Scan(s).value.1 <= c <= |s|
    ensures Scan(s[..c]) == Scan(s)
  {
    ScanStep(s);
    ScanStep(s[..c]);
    if s[0] >= 128 {
      ScanPrefix(s[1..], c - 1);
      assert s[..c][1..] == s[1..][..c - 1];
    }
  }

  lemma VarintPrefix(s: seq<byte>, c: nat)
    requires VarintAt(s).Value? && VarintAt(s).size <= c <= |s|
    ensures VarintAt(s[..c]) == VarintAt(s)
  {
    ScanPrefix(s, c);
  }

  /** Skipping needs no more than the bytes it consumes. */
  lemma {:induction false} SkipPrefix(wire: nat, s: seq<byte>, e: nat)
    requires Skip(wire, s).Some? && Skip(wire, s).value <= e <= |s|
    ensures Skip(wire, s[..e]) == Skip(wire, s)
    decreases |s|, 1
  {
    match wire {
      case 0 => VarintPrefix(s, e);
      case 2 => VarintPrefix(s, e);
      case 3 => SkipGroupPrefix(s, e);
      case _ =>
    }
  }

  lemma {:induction false} SkipGroupPrefix(s: seq<byte>, e: nat)
    requires SkipGroup(s).Some? && SkipGroup(s).value <= e <= |s|
    ensures SkipGroup(s[..e]) == SkipGroup(s)
    decreases |s|, 0
  {
    VarintPrefix(s, e);
    var u, k := VarintAt(s).x, VarintAt(s).size;
    if u % 8 != 4 {
      SkipItemPrefix(u % 8, s[k..], e - k);
      assert s[..e][k..] == s[k..][..e - k];
    }
  }

  lemma {:induction false} SkipItemPrefix(wire: nat, s: seq<byte>, e: nat)
    requires SkipItem(wire, s).Some? && SkipItem(wire, s).value <= e <= |s|
    ensures SkipItem(wire, s[..e]) == SkipItem(wire, s)
    decreases |s|, 2
  {
    var c := Skip(wire, s).value;
    SkipPrefix(wire, s, e);
    SkipGroupPrefix(s[c..], e - c);
    assert s[..e][c..] == s[c..][..e - c];
  }

  /** What is saved of an unknown record is an unknown record. */
  lemma SavedIsRecord(d: MsgDesc, key: nat, s: seq<byte>, c: nat)
    requires key < TWO_64 && key % 8 != 4 && key / 8 > 0 && FieldIndex(d, key / 8).None? && Skip(key % 8, s) == Some(c)
    ensures UnknownHead(d, Varint(key) + s[..c]) == Some(|Varint(key)| + c)
  {
    var u := Varint(key) + s[..c];
    VarintRoundTrip(key, s[..c]);
    SkipPrefix(key % 8, s, c);
    assert u[..|Varint(key)|] == Varint(key) && u[|Varint(key)|..] == s[..c];
  }

  lemma UnknownHeadLocal(d: MsgDesc, u: seq<byte>, more: seq<byte>)
    requires UnknownHead(d, u).Some?
    ensures UnknownHead(d, u + more) == UnknownHead(d, u)
  {
    var key, k := VarintAt(u).x, VarintAt(u).size;
    VarintLocal(u, more);
    SkipLocal(key % 8, u[k..], more);
    CutLonger(u, more, k);
  }

  lemma {:induction false} UnknownRunAppends(d: MsgDesc, u: seq<byte>, record: seq<byte>)
    requires UnknownRun(d, u) && UnknownHead(d, record) == Some(|record|)
    ensures UnknownRun(d, u + record)
    decreases |u|
  {
    if u == [] {
      assert u + record == record && record[|record|..] == [];
    } else {
      var n := UnknownHead(d, u).value;
      UnknownHeadLocal(d, u, record);
      CutLonger(u, record, n);
      UnknownRunAppends(d, u[n..], record);
    }
  }

  // ---- Every value is of its type ----

  predicate AllOfKind(S: Schema, kind: Kind, vals: seq<Value>) {
    forall i :: 0 <= i < |vals| ==> WellTypedValue(S, kind, vals[i])
  }

  lemma {:induction false} PackedTyped(S: Schema, t: Type, f: Format, s: seq<byte>, c: nat, nb: nat)
    requires c <= |s| && PackedAt(t, f, s, c, nb).Some?
    ensures AllOfKind(S, Numeric(t, f), PackedAt(t, f, s, c, nb).value.0)
    decreases |s| - c
  {
    if c < nb {
      PackedTyped(S, t, f, s, c + Get(f, s[c..]).size, nb);
    }
  }

  lemma StoreTyped(S: Schema, fd: FieldDesc, vals: seq<Value>, v: Value)
    requires WellTypedField(S, fd, Field(vals)) && fd.mode != Reserved && WellTypedValue(S, fd.kind, v)
    ensures WellTypedField(S, fd, Field(Store(fd, vals, v)))
  {
  }

  lemma StepTyped(S: Schema, ty: nat, i: nat, p: Progress, vals: seq<Value>, missing: bool)
    requires WellTyped(S, ty, p.m) && i < |S[ty].fields| && WellTypedField(S, S[ty].fields[i], Field(vals))
    ensures WellTyped(S, ty, Step(S[ty], i, p, vals, missing).m)
  {
    assert Step(S[ty], i, p, vals, missing).m.fields == p.m.fields[i := Field(vals)];
  }

  /** Whatever the bytes, decoding into a message of the type gives a message of the type. */
  lemma {:induction false} DecodesTyped(S: Schema, ty: nat, s: seq<byte>, group: bool, p: Progress)
    requires ValidSchema(S) && WellTyped(S, ty, p.m)
    ensures var r := DecodeMsg(S, ty, s, group, p); r.Done? ==> WellTyped(S, ty, r.m)
    decreases |s|, 0
  {
    ByRecord(S, ty, s, group, p);
    match FirstRecord(S, ty, s, group) {
      case Strange(saved, rest) =>
        KeepTyped(S, ty, s, group, p);
        DecodesTyped(S, ty, rest, group, Keep(S[ty], p, saved));
      case Known(i, wire, body) =>
        var f := DecodeField(S, S[ty].fields[i], wire, body, FieldVals(p.m, i));
        if f.Got? {
          assert WellTypedField(S, S[ty].fields[i], p.m.fields[i]);
          FieldTyped(S, S[ty], i, wire, body, p.m.fields[i].vals);
          StepTyped(S, ty, i, p, f.vals, f.missing);
          DecodesTyped(S, ty, f.rest, group, Step(S[ty], i, p, f.vals, f.missing));
        }
      case _ =>
    }
  }

  lemma KeepTyped(S: Schema, ty: nat, s: seq<byte>, group: bool, p: Progress)
    requires WellTyped(S, ty, p.m) && FirstRecord(S, ty, s, group).Strange?
    ensures WellTyped(S, ty, Keep(S[ty], p, FirstRecord(S, ty, s, group).saved).m)
  {
    StrangeIsRecord(S, ty, s, group);
    if S[ty].keepsUnknown {
      UnknownRunAppends(S[ty], p.m.unknown, FirstRecord(S, ty, s, group).saved);
    }
  }

  lemma StrangeIsRecord(S: Schema, ty: nat, s: seq<byte>, group: bool)
    requires ty < |S| && FirstRecord(S, ty, s, group).Strange?
    ensures var saved := FirstRecord(S, ty, s, group).saved;
            UnknownHead(S[ty], saved) == Some(|saved|)
  {
    var u, k := VarintAt(s).x, VarintAt(s).size;
    SavedIsRecord(S[ty], u, s[k..], Skip(u % 8, s[k..]).value);
  }

  lemma {:induction false} FieldTyped(S: Schema, d: MsgDesc, i: nat, wire: nat, s: seq<byte>, vals: seq<Value>)
    requires ValidSchema(S) && ValidType(S, d) && i < |d.fields| && d.fields[i].mode != Reserved
    requires WellTypedField(S, d.fields[i], Field(vals)) && DecodeField(S, d.fields[i], wire, s, vals).Got?
    ensures WellTypedField(S, d.fields[i], Field(DecodeField(S, d.fields[i], wire, s, vals).vals))
    decreases |s|, 2
  {
    var fd := d.fields[i];
    assert ValidField(S, fd);
    match fd.kind {
      case Numeric(t, f) =>
        if wire == 3 || wire == WireType(f) {
          StoreTyped(S, fd, vals, Num(Uncarry(t, Get(f, s).x)));
        } else {
          var nb, k := VarintAt(s).x, VarintAt(s).size;
          PackedTyped(S, t, f, s[k..], 0, nb);
        }
      case Text =>
        var (a, b) := RawAt(s).value;
        StoreTyped(S, fd, vals, Blob(s[a..b]));
      case Message(ty) =>
        var (a, b) := RawAt(s).value;
        InnerTyped(S, fd, s[a..b], false, vals);
      case Group(ty) => InnerTyped(S, fd, s, true, vals);
    }
  }

  lemma {:induction false} InnerTyped(S: Schema, fd: FieldDesc, b: seq<byte>, group: bool, vals: seq<Value>)
    requires ValidSchema(S) && ValidField(S, fd) && (fd.kind.Message? || fd.kind.Group?) && fd.mode != Reserved
    requires WellTypedField(S, fd, Field(vals))
    ensures var d := S[fd.kind.ty];
            var r := DecodeMsg(S, fd.kind.ty, b, group, Start(d, Target(d, fd, vals)));
            r.Done? ==> WellTypedField(S, fd, Field(Store(fd, vals, Sub(r.m))))
    decreases |b|, 1
  {
    var d := S[fd.kind.ty];
    var target := Target(d, fd, vals);
    EmptyIsWellTyped(S, fd.kind.ty);
    if vals != [] {
      assert WellTypedValue(S, fd.kind, vals[0]);
    }
    DecodesTyped(S, fd.kind.ty, b, group, Start(d, target));
    var r := DecodeMsg(S, fd.kind.ty, b, group, Start(d, target));
    if r.Done? {
      StoreTyped(S, fd, vals, Sub(r.m));
    }
  }

  // ---- Decoded messages ----

  /** What has been decoded from any bytes, if it is complete, is marshalled to bytes that decode to it
      again. */
  lemma DecodedRoundTrip(S: Schema, ty: nat, s: seq<byte>)
    requires ValidSchema(S) && ty < |S| && Unmarshal(S, ty, s).Done?
    ensures var m := Unmarshal(S, ty, s).m;
            && WellTyped(S, ty, m)
            && (Complete(S, ty, m) && |Ser(S, ty, m)| < TWO_63 ==>
                  Unmarshal(S, ty, Ser(S, ty, m)) == Done(m, [], false))
  {
    var m := Unmarshal(S, ty, s).m;
    EmptyIsWellTyped(S, ty);
    DecodesTyped(S, ty, s, false, Start(S[ty], EmptyMsg(S[ty])));
    if Complete(S, ty, m) && |Ser(S, ty, m)| < TWO_63 {
      Laws.RoundTrip(S, ty, m);
    }
  }
}
