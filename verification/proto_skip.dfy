/** Skipping a record of a canonical message consumes exactly that record, whatever is inside. */
module ProtoSkip {
  import opened Bytes
  import opened Options
  import opened Sequences
  import opened ProtoVarint
  import opened ProtoNumbers
  import opened ProtoWire
  import opened ProtoSchema
  import opened ProtoRecords

  /** Skipping a group over `s` and then over `t` is skipping over both. */
  predicate SkipsOver(s: seq<byte>, t: seq<byte>) {
    SkipGroup(t).Some? ==> SkipGroup(s + t) == Some(|s| + SkipGroup(t).value)
  }

  lemma SkipsConcat(a: seq<byte>, b: seq<byte>, t: seq<byte>)
    requires SkipsOver(b, t) && SkipsOver(a, b + t)
    ensures SkipsOver(a + b, t)
  {
    Associate(a, b, t);
  }

  /** One payload of a group, with more behind it. */
  lemma SkipItemStep(wire: nat, s: seq<byte>, c: nat, rest: seq<byte>, e: nat)
    requires Skip(wire, s) == Some(c) && s[c..] == rest && SkipGroup(rest) == Some(e)
    ensures SkipItem(wire, s) == Some(c + e)
  {
  }

  lemma SkipsRecord(tag: nat, wire: nat, payload: seq<byte>, t: seq<byte>)
    requires tag <= MAX_TAG && wire < 8 && wire != 4 && Skip(wire, payload + t) == Some(|payload|)
    ensures SkipsOver(Key(tag, wire) + payload, t)
  {
    var key := Key(tag, wire);
    Associate(key, payload, t);
    KeyRoundTrip(tag, wire, payload + t);
    if SkipGroup(t).Some? {
      SkipItemStep(wire, payload + t, |payload|, t, SkipGroup(t).value);
    }
  }

  lemma {:induction false} SkipsUnknown(d: MsgDesc, u: seq<byte>, t: seq<byte>)
    requires UnknownRun(d, u)
    ensures SkipsOver(u, t)
    decreases |u|
  {
    if u == [] {
      assert u + t == t;
    } else {
      var n := UnknownHead(d, u).value;
      SkipsUnknown(d, u[n..], t);
      if SkipGroup(t).Some? {
        SkipsHead(u, VarintAt(u).x, VarintAt(u).size, n, t, SkipGroup(u[n..] + t).value);
      }
    }
  }

  lemma SkipsHead(u: seq<byte>, key: nat, k: nat, n: nat, t: seq<byte>, e: nat)
    requires k <= n <= |u| && VarintAt(u) == Value(key, k) && key % 8 != 4
    requires Skip(key % 8, u[k..]) == Some(n - k) && SkipGroup(u[n..] + t) == Some(e)
    ensures SkipGroup(u + t) == Some(n + e)
  {
    VarintLocal(u, t);
    SkipLocal(key % 8, u[k..], t);
    DropsBehind(u, t, k, n);
    SkipItemStep(key % 8, u[k..] + t, n - k, u[n..] + t, e);
    SkipGroupStep(u + t, key, k, u[k..] + t, n - k + e);
  }

  lemma SkipGroupStep(s: seq<byte>, key: nat, k: nat, rest: seq<byte>, e: nat)
    requires VarintAt(s) == Value(key, k) && k <= |s| && s[k..] == rest && key % 8 != 4
    requires SkipItem(key % 8, rest) == Some(e)
    ensures SkipGroup(s) == Some(k + e)
  {
  }

  lemma DropsBehind(u: seq<byte>, t: seq<byte>, k: nat, n: nat)
    requires k <= n <= |u|
    ensures (u + t)[k..] == u[k..] + t && (u[k..] + t)[n - k..] == u[n..] + t
  {
  }

  /** The payload of a number is skipped as a whole. */
  lemma SkipsNumber(t: Type, f: Format, v: Value, rest: seq<byte>)
    requires v.Num? && InType(t, v.n)
    ensures Skip(WireType(f), NumberBytes(t, f, v) + rest) == Some(|NumberBytes(t, f, v)|)
  {
    var x := Carry(t, v.n);
    match f {
      case VarintFormat => VarintRoundTrip(x, rest);
      case Zigzag32 => VarintRoundTrip(Zigzag32Of(x), rest);
      case Zigzag64 => VarintRoundTrip(Zigzag64Of(x), rest);
      case _ =>
    }
  }

  lemma {:induction false} SkipsPayload(S: Schema, fd: FieldDesc, v: Value, t: seq<byte>)
    requires ValidSchema(S) && ValidField(S, fd) && WellTypedValue(S, fd.kind, v)
    requires |Payload(S, fd, v)| < TWO_63
    ensures Skip(WireOf(fd.kind), Payload(S, fd, v) + t) == Some(|Payload(S, fd, v)|)
    decreases v, 1
  {
    match fd.kind {
      case Numeric(ty, f) => SkipsNumber(ty, f, v, t);
      case Text => RawRoundTrip(v.b, t);
      case Message(ty) => RawRoundTrip(Ser(S, ty, v.m), t);
      case Group(ty) =>
        var end := Key(fd.tag, 4);
        KeyRoundTrip(fd.tag, 4, t);
        SerSkips(S, ty, v.m, end + t);
        Associate(Ser(S, ty, v.m), end, t);
    }
  }

  lemma {:induction false} RecordsSkip(S: Schema, fd: FieldDesc, f: Field, k: nat, t: seq<byte>)
    requires ValidSchema(S) && ValidField(S, fd) && WellTypedField(S, fd, f) && k <= |f.vals|
    requires |Records(S, fd, f.vals[k..])| < TWO_63
    ensures SkipsOver(Records(S, fd, f.vals[k..]), t)
    decreases f, 2, |f.vals| - k
  {
    var vals := f.vals[k..];
    if vals == [] {
      assert [] + t == t;
    } else {
      var more := Records(S, fd, f.vals[k + 1..]);
      assert vals[1..] == f.vals[k + 1..];
      RecordsSkip(S, fd, f, k + 1, t);
      SkipsPayload(S, fd, vals[0], more + t);
      SkipsRecord(fd.tag, WireOf(fd.kind), Payload(S, fd, vals[0]), more + t);
      SkipsConcat(Key(fd.tag, WireOf(fd.kind)) + Payload(S, fd, vals[0]), more, t);
    }
  }

  lemma {:induction false} FieldSkips(S: Schema, fd: FieldDesc, f: Field, t: seq<byte>)
    requires ValidSchema(S) && ValidField(S, fd) && WellTypedField(S, fd, f)
    requires |FieldBytes(S, fd, f.vals)| < TWO_63
    ensures SkipsOver(FieldBytes(S, fd, f.vals), t)
    decreases f, 3
  {
    if fd.mode == Packed && fd.kind.Numeric? {
      if f.vals == [] {
        assert [] + t == t;
      } else {
        var b := Numbers(fd.kind.t, fd.kind.f, f.vals);
        RawRoundTrip(b, t);
        SkipsRecord(fd.tag, 2, LenPrefixed(b), t);
      }
    } else {
      assert f.vals[0..] == f.vals;
      RecordsSkip(S, fd, f, 0, t);
    }
  }

  lemma {:induction false} FieldsSkip(S: Schema, ty: nat, m: Msg, i: nat, t: seq<byte>)
    requires ValidSchema(S) && WellTyped(S, ty, m) && i <= |m.fields|
    requires |FieldsFrom(S, S[ty], m, i)| < TWO_63
    ensures SkipsOver(FieldsFrom(S, S[ty], m, i), t)
    decreases m, 4, |m.fields| - i
  {
    if i == |m.fields| {
      assert [] + t == t;
    } else {
      var more := FieldsFrom(S, S[ty], m, i + 1);
      assert ValidType(S, S[ty]);
      FieldsSkip(S, ty, m, i + 1, t);
      FieldSkips(S, S[ty].fields[i], m.fields[i], more + t);
      SkipsConcat(FieldBytes(S, S[ty].fields[i], m.fields[i].vals), more, t);
    }
  }

  /** A message inside a skipped group is passed over as a whole. */
  lemma {:induction false} SerSkips(S: Schema, ty: nat, m: Msg, t: seq<byte>)
    requires ValidSchema(S) && WellTyped(S, ty, m) && |Ser(S, ty, m)| < TWO_63
    ensures SkipsOver(Ser(S, ty, m), t)
    decreases m, 5
  {
    var fields := FieldsFrom(S, S[ty], m, 0);
    var u := if S[ty].keepsUnknown then m.unknown else [];
    SkipsUnknown(S[ty], u, t);
    FieldsSkip(S, ty, m, 0, u + t);
    SkipsConcat(fields, u, t);
  }
}
