/** How the decoder of ProtoDecode gets past one canonical record. */
module ProtoRecords {
  import opened Bytes
  import opened Options
  import opened Sequences
  import opened Varints
  import opened ProtoVarint
  import opened ProtoNumbers
  import opened ProtoWire
  import opened ProtoSchema
  import opened ProtoDecode

  lemma KeyRoundTrip(tag: nat, wire: nat, rest: seq<byte>)
    requires tag <= MAX_TAG && wire < 8
    ensures VarintAt(Key(tag, wire) + rest) == Value(8 * tag + wire, |Key(tag, wire)|)
    ensures (8 * tag + wire) % 8 == wire && (8 * tag + wire) / 8 == tag
    ensures (Key(tag, wire) + rest)[|Key(tag, wire)|..] == rest
  {
    VarintRoundTrip(8 * tag + wire, rest);
  }

  lemma FieldIndexIs(d: MsgDesc, i: nat)
    requires i < |d.fields| && d.fields[i].mode != Reserved
    requires forall a, b :: 0 <= a < b < |d.fields| ==> d.fields[a].tag < d.fields[b].tag
    ensures FieldIndex(d, d.fields[i].tag) == Some(i)
  {
    var r := FieldIndex(d, d.fields[i].tag);
    assert r.Some?;
    assert !(r.value < i) && !(i < r.value);
  }

  /** A record of a known field goes to that field's decoder. */
  lemma KnownRecord(S: Schema, ty: nat, i: nat, wire: nat, payload: seq<byte>, group: bool, p: Progress)
    requires ty < |S| && ValidType(S, S[ty]) && i < |S[ty].fields| && S[ty].fields[i].mode != Reserved
    requires wire < 8 && wire != 4
    ensures DecodeMsg(S, ty, Key(S[ty].fields[i].tag, wire) + payload, group, p)
            == DecodeKnown(S, ty, i, wire, payload, group, p)
  {
    var fd := S[ty].fields[i];
    assert ValidField(S, fd);
    KeyRoundTrip(fd.tag, wire, payload);
    FieldIndexIs(S[ty], i);
  }

  /** A record of an unknown field is saved as it is, if the type keeps unknown fields. */
  lemma UnknownRecord(S: Schema, ty: nat, tag: nat, wire: nat, payload: seq<byte>, tail: seq<byte>, group: bool,
      p: Progress)
    requires ty < |S| && 1 <= tag <= MAX_TAG && FieldIndex(S[ty], tag).None? && S[ty].keepsUnknown
    requires wire < 8 && wire != 4 && Skip(wire, payload + tail) == Some(|payload|)
    ensures DecodeMsg(S, ty, Key(tag, wire) + (payload + tail), group, p) ==
            DecodeMsg(S, ty, tail, group, p.(m := p.m.(unknown := p.m.unknown + (Key(tag, wire) + payload))))
  {
    KeyRoundTrip(tag, wire, payload + tail);
    assert DecodeMsg(S, ty, Key(tag, wire) + (payload + tail), group, p)
           == DecodeUnknown(S, ty, 8 * tag + wire, payload + tail, group, p);
    assert (payload + tail)[..|payload|] == payload && (payload + tail)[|payload|..] == tail;
  }

  lemma RawRoundTrip(b: seq<byte>, rest: seq<byte>)
    requires |b| < TWO_63
    ensures var n := |Varint(|b|)|;
            var s := LenPrefixed(b) + rest;
            && RawAt(s) == Some((n, n + |b|)) && s[n..n + |b|] == b && s[n + |b|..] == rest
    ensures |LenPrefixed(b)| == |Varint(|b|)| + |b|
  {
    assert LenPrefixed(b) + rest == Varint(|b|) + (b + rest);
    VarintRoundTrip(|b|, b + rest);
  }

  lemma NumberField(S: Schema, fd: FieldDesc, v: Value, rest: seq<byte>, vals: seq<Value>)
    requires ValidField(S, fd) && fd.kind.Numeric? && WellTypedValue(S, fd.kind, v)
    ensures DecodeField(S, fd, WireType(fd.kind.f), NumberBytes(fd.kind.t, fd.kind.f, v) + rest, vals)
            == Got(Store(fd, vals, v), rest, false)
  {
    var b := NumberBytes(fd.kind.t, fd.kind.f, v);
    NumberRoundTrip(fd.kind.f, fd.kind.t, v.n, rest);
    assert (b + rest)[|b|..] == rest;
  }

  lemma TextField(S: Schema, fd: FieldDesc, b: seq<byte>, rest: seq<byte>, vals: seq<Value>)
    requires fd.kind.Text? && |b| < TWO_63
    ensures DecodeField(S, fd, 2, LenPrefixed(b) + rest, vals) == Got(Store(fd, vals, Blob(b)), rest, false)
  {
    RawRoundTrip(b, rest);
  }

  lemma MessageField(S: Schema, fd: FieldDesc, b: seq<byte>, rest: seq<byte>, vals: seq<Value>, m: Msg)
    requires fd.kind.Message? && fd.kind.ty < |S| && |b| < TWO_63
    requires var d := S[fd.kind.ty];
             DecodeMsg(S, fd.kind.ty, b, false, Start(d, Target(d, fd, vals))) == Done(m, [], false)
    ensures DecodeField(S, fd, 2, LenPrefixed(b) + rest, vals) == Got(Store(fd, vals, Sub(m)), rest, false)
  {
    RawRoundTrip(b, rest);
  }

  lemma NumberAt(t: Type, f: Format, v: Value, rest: seq<byte>)
    requires Keeps(f, t) && v.Num? && InType(t, v.n)
    ensures var b := NumberBytes(t, f, v);
            Get(f, b + rest) == Value(Received(f, Carry(t, v.n)), |b|) && (b + rest)[|b|..] == rest
    ensures Num(Uncarry(t, Received(f, Carry(t, v.n)))) == v
  {
    GetPut(f, Carry(t, v.n), rest);
    KeepsIff(f, t);
  }

  lemma PackedOne(t: Type, f: Format, v: Value, s: seq<byte>, c: nat, nb: nat, tail: seq<byte>, vals: seq<Value>,
      e: nat)
    requires Keeps(f, t) && v.Num? && InType(t, v.n)
    requires c <= |s| && c < nb && s[c..] == NumberBytes(t, f, v) + tail
    requires PackedAt(t, f, s, c + |NumberBytes(t, f, v)|, nb) == Some((vals, e))
    ensures PackedAt(t, f, s, c, nb) == Some(([v] + vals, e))
  {
    NumberAt(t, f, v, tail);
    PackedStep(t, f, v, s, c, nb, Received(f, Carry(t, v.n)), |NumberBytes(t, f, v)|, vals, e);
  }

  lemma PackedStep(t: Type, f: Format, v: Value, s: seq<byte>, c: nat, nb: nat, x: nat, n: nat, vals: seq<Value>,
      e: nat)
    requires c + n <= |s| && c < nb && Get(f, s[c..]) == Value(x, n) && Num(Uncarry(t, x)) == v
    requires PackedAt(t, f, s, c + n, nb) == Some((vals, e))
    ensures PackedAt(t, f, s, c, nb) == Some(([v] + vals, e))
  {
  }

  lemma {:induction false} PackedNumbers(t: Type, f: Format, vals: seq<Value>, s: seq<byte>, c: nat, rest: seq<byte>,
      nb: nat)
    requires Keeps(f, t) && forall i :: 0 <= i < |vals| ==> vals[i].Num? && InType(t, vals[i].n)
    requires c <= |s| && s[c..] == Numbers(t, f, vals) + rest && nb == c + |Numbers(t, f, vals)|
    ensures PackedAt(t, f, s, c, nb) == Some((vals, nb))
  {
    if vals == [] {
    } else {
      var b, more := NumberBytes(t, f, vals[0]), Numbers(t, f, vals[1..]);
      Associate(b, more, rest);
      var k := c + |b|;
      DropMore(s, c, b, more + rest);
      PackedNumbers(t, f, vals[1..], s, k, rest, nb);
      PackedOne(t, f, vals[0], s, c, nb, more + rest, vals[1..], nb);
      assert [vals[0]] + vals[1..] == vals;
    }
  }

  lemma DropMore(s: seq<byte>, c: nat, b: seq<byte>, tail: seq<byte>)
    requires c <= |s| && s[c..] == b + tail
    ensures c + |b| <= |s| && s[c + |b|..] == tail
  {
    assert |s[c..]| == |b| + |tail|;
    assert s[c + |b|..] == s[c..][|b|..];
  }

  lemma PackedField(S: Schema, fd: FieldDesc, more: seq<Value>, rest: seq<byte>, vals: seq<Value>)
    requires ValidField(S, fd) && fd.kind.Numeric? && IsList(fd.mode)
    requires forall i :: 0 <= i < |more| ==> WellTypedValue(S, fd.kind, more[i])
    requires |Numbers(fd.kind.t, fd.kind.f, more)| < TWO_63
    ensures DecodeField(S, fd, 2, LenPrefixed(Numbers(fd.kind.t, fd.kind.f, more)) + rest, vals)
        == Got(vals + more, rest, false)
  {
    var b := Numbers(fd.kind.t, fd.kind.f, more);
    var k := |Varint(|b|)|;
    assert LenPrefixed(b) + rest == Varint(|b|) + (b + rest);
    VarintRoundTrip(|b|, b + rest);
    var s := LenPrefixed(b) + rest;
    assert s[k..] == b + rest;
    PackedNumbers(fd.kind.t, fd.kind.f, more, s[k..], 0, rest, |b|);
    assert s[k + |b|..] == rest;
  }
}
