/** The laws of the protobuf codec, for every schema and every message of its types. */
module ProtoLaws {
  import opened Bytes
  import opened Options
  import opened ProtoNumbers
  import opened ProtoSchema
  import opened ProtoMerge
  import opened ProtoReduce
  import opened ProtoDecode
  import opened ProtoAdvance
  import opened ProtoOut
  import opened ProtoBack

  /** Decoding what was marshalled for `b` into a message `a` combines the two. */
  lemma DecodeInto(S: Schema, ty: nat, a: Msg, b: Msg, tail: seq<byte>, p: Progress, marked: set<nat>)
    returns (p': Progress, marked': set<nat>)
    requires ValidSchema(S) && WellTyped(S, ty, a) && WellTyped(S, ty, b) && Complete(S, ty, b)
    requires |Ser(S, ty, b)| < TWO_63 && p.m == a && Counted(S[ty], p, marked)
    ensures DecodeMsg(S, ty, Ser(S, ty, b) + tail, false, p) == DecodeMsg(S, ty, tail, false, p')
    ensures p'.m == Combine(S, ty, a, b) && p'.missing == p.missing
    ensures Counted(S[ty], p', marked') && p'.required <= 0
  {
    ReduceNothing(S);
    ReduceMsgNothing(S, ty, b);
    p', marked' := MessageBack(S, {}, ty, a, b, tail, false, p, marked);
    AllMarked(S[ty], p', marked');
  }

  /** Unmarshalling a marshalled message gives the message back. */
  lemma RoundTrip(S: Schema, ty: nat, m: Msg)
    requires ValidSchema(S) && WellTyped(S, ty, m) && Complete(S, ty, m) && |Ser(S, ty, m)| < TWO_63
    ensures Unmarshal(S, ty, Ser(S, ty, m)) == Done(m, [], false)
  {
    EmptyIsWellTyped(S, ty);
    CombineEmpty(S, ty, m);
    var e := EmptyMsg(S[ty]);
    var p, marked := DecodeInto(S, ty, e, m, [], Start(S[ty], e), {});
    assert Ser(S, ty, m) + [] == Ser(S, ty, m);
  }

  /** Two marshalled messages behind each other decode to the two combined, which is what merging
      gives exactly when no merged message has unknown fields on both sides. */
  lemma ConcatenationIsMerge(S: Schema, ty: nat, a: Msg, b: Msg)
    requires ValidSchema(S) && WellTyped(S, ty, a) && Complete(S, ty, a) && WellTyped(S, ty, b) && Complete(S, ty, b)
    requires |Ser(S, ty, a)| < TWO_63 && |Ser(S, ty, b)| < TWO_63
    ensures Unmarshal(S, ty, Ser(S, ty, a) + Ser(S, ty, b)) == Done(Combine(S, ty, a, b), [], false)
    ensures Unmarshal(S, ty, Ser(S, ty, a) + Ser(S, ty, b)) == Done(Merge(S, ty, a, b), [], false)
        <==> NoClash(S, ty, a, b)
  {
    EmptyIsWellTyped(S, ty);
    CombineEmpty(S, ty, a);
    var e := EmptyMsg(S[ty]);
    var p, marked := DecodeInto(S, ty, e, a, Ser(S, ty, b), Start(S[ty], e), {});
    var q, marks := DecodeInto(S, ty, a, b, [], p, marked);
    assert Ser(S, ty, b) + [] == Ser(S, ty, b);
    CombineIsMergeIff(S, ty, a, b);
  }

  /** A program built against a schema with fewer fields loses nothing: what it reads, it can write,
      and a reader with the full schema gets the original message, removed fields and all. */
  lemma UnknownFieldsPreserved(S: Schema, drop: Removal, ty: nat, m: Msg)
    requires ValidSchema(S) && WellTyped(S, ty, m) && Complete(S, ty, m) && |Ser(S, ty, m)| < TWO_63
    ensures var R, r := Reduce(S, drop), ReduceMsg(S, drop, ty, m);
            && Unmarshal(R, ty, Ser(S, ty, m)) == Done(r, [], false)
            && Unmarshal(S, ty, Ser(R, ty, r)) == Done(m, [], false)
            && |Ser(R, ty, r)| == |Ser(S, ty, m)|
  {
    ReducedSize(S, drop, ty, m);
    var R, r := Reduce(S, drop), ReduceMsg(S, drop, ty, m);
    var p, marked := MessageOut(S, drop, ty, m, [], false, Start(R[ty], EmptyMsg(R[ty])), {});
    AllMarked(R[ty], p, marked);
    assert Ser(S, ty, m) + [] == Ser(S, ty, m);
    EmptyIsWellTyped(S, ty);
    CombineEmpty(S, ty, m);
    var e := EmptyMsg(S[ty]);
    var q, marks := MessageBack(S, drop, ty, e, m, [], false, Start(S[ty], e), {});
    AllMarked(S[ty], q, marks);
    assert Ser(R, ty, r) + [] == Ser(R, ty, r);
  }

  /** Unknown fields on both sides: the smallest messages for which the two laws part. */
  lemma MergeDropsUnknownFields()
    ensures var S := [MsgDesc([], true)];
            var a, b := Msg([], [8, 1]), Msg([], [8, 2]);
            && ValidSchema(S) && WellTyped(S, 0, a) && WellTyped(S, 0, b)
            && Unmarshal(S, 0, Ser(S, 0, a) + Ser(S, 0, b)) == Done(Msg([], [8, 1, 8, 2]), [], false)
            && Merge(S, 0, a, b) == Msg([], [8, 2])
  {
    var S := [MsgDesc([], true)];
    var a, b := Msg([], [8, 1]), Msg([], [8, 2]);
    OneUnknown(S[0], a.unknown);
    OneUnknown(S[0], b.unknown);
    ConcatenationIsMerge(S, 0, a, b);
    assert Combine(S, 0, a, b) == Msg([], [8, 1, 8, 2]);
  }

  lemma OneUnknown(d: MsgDesc, u: seq<byte>)
    requires d.fields == [] && |u| == 2 && u[0] == 8 && u[1] < 128
    ensures UnknownRun(d, u)
  {
    assert u[..1] == [8] && u[1..] == [u[1]] && u[2..] == [];
    assert UnknownHead(d, u) == Some(2);
  }
}
