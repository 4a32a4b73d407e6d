/** When decoding notices that a message lacks a required field of its own. Fields with numbers up to
    64 are told apart by a bitmap, those above are only counted, so that one of them sent often enough
    can stand in for another. */
module ProtoRequired {
  import opened Bytes
  import opened ProtoSchema
  import opened ProtoDecode
  import opened ProtoAdvance
  import opened ProtoLoop
  import opened ProtoSilent
  import opened ProtoForge
  import opened Sets

  predicate LacksRequired(d: MsgDesc, m: Msg) {
    exists i | 0 <= i < |d.fields| :: IsRequired(d, i) && FieldVals(m, i) == []
  }

  /** Whatever the input, a message that lacks a required field of its own is reported. */
  ghost predicate Reliable(S: Schema, ty: nat)
    requires ty < |S|
  {
    forall s: seq<byte> :: Reports(S, ty, s)
  }

  predicate Reports(S: Schema, ty: nat, s: seq<byte>)
    requires ty < |S|
  {
    match Unmarshal(S, ty, s)
    case Done(m, _, missing) => LacksRequired(S[ty], m) ==> missing
    case Failed => true
  }

  /** There is at most one required field, or the bitmap has room for all of them. */
  predicate Countable(d: MsgDesc) {
    RequiredFrom(d, 0) <= 1 || forall i | 0 <= i < |d.fields| :: IsRequired(d, i) ==> d.fields[i].tag <= 64
  }

  /** There is at most one required field, or those above 64 are always reported missing themselves. */
  predicate Accountable(S: Schema, d: MsgDesc) {
    || RequiredFrom(d, 0) <= 1
    || forall i: nat | i < |d.fields| :: IsRequired(d, i) && d.fields[i].tag > 64 ==> !Fillable(S, d.fields[i])
  }

  // ---- What the counter knows ----

  /** Required fields that are set. */
  ghost predicate AreSet(d: MsgDesc, m: Msg, marked: set<nat>) {
    forall i :: i in marked ==> IsRequired(d, i) && FieldVals(m, i) != []
  }

  /** Required fields at positions `marked` have been read, and the counter and the bitmap know. */
  ghost predicate Tally(d: MsgDesc, p: Progress, marked: set<nat>) {
    && |p.m.fields| == |d.fields| && AreSet(d, p.m, marked)
    && (marked == {} ==> p.required == RequiredFrom(d, 0))
    && (RequiredFrom(d, 0) > 1 ==> p.required == RequiredFrom(d, 0) - |marked| && Bitmap(d, p.seen, marked))
  }

  lemma StoresSomething(S: Schema, fd: FieldDesc, wire: nat, s: seq<byte>, vals: seq<Value>)
    requires fd.mode == Required && DecodeField(S, fd, wire, s, vals).Got?
    ensures DecodeField(S, fd, wire, s, vals).vals != []
  {
  }

  lemma TallyStarts(d: MsgDesc, m: Msg)
    requires |m.fields| == |d.fields|
    ensures Tally(d, Start(d, m), {})
  {
  }

  /** Storing into one field changes that field only. */
  lemma StepFields(d: MsgDesc, i: nat, p: Progress, vals: seq<Value>, missing: bool, marked: set<nat>)
    requires i < |d.fields| == |p.m.fields| && AreSet(d, p.m, marked) && (IsRequired(d, i) ==> vals != [])
    ensures |Step(d, i, p, vals, missing).m.fields| == |d.fields|
    ensures AreSet(d, Step(d, i, p, vals, missing).m, Mark(d, i, marked))
  {
    assert Step(d, i, p, vals, missing).m.fields == p.m.fields[i := Field(vals)];
  }

  lemma TallyStep(d: MsgDesc, i: nat, p: Progress, vals: seq<Value>, missing: bool, marked: set<nat>)
    requires Sorted(d) && i < |d.fields| && Tally(d, p, marked)
    requires IsRequired(d, i) ==> vals != [] && (RequiredFrom(d, 0) > 1 ==> d.fields[i].tag <= 64)
    ensures Tally(d, Step(d, i, p, vals, missing), Mark(d, i, marked))
  {
    StepFields(d, i, p, vals, missing, marked);
    if IsRequired(d, i) && RequiredFrom(d, 0) > 1 {
      if d.fields[i].tag in p.seen {
        assert i in marked && marked + {i} == marked;
      } else {
        BitmapStep(d, i, p.seen, marked);
      }
    }
  }

  /** A counter that has run down has seen every required field. */
  lemma TallyEnds(d: MsgDesc, p: Progress, marked: set<nat>)
    requires Tally(d, p, marked) && p.required <= 0
    ensures forall i: nat :: IsRequired(d, i) ==> i in marked
  {
    RequiredSetSize(d, 0);
    var all := RequiredSet(d, 0);
    assert marked <= all;
    if all != {} {
      assert marked != {};
      SameSize(marked, all);
    }
    assert forall i: nat :: IsRequired(d, i) ==> i in all;
  }

  /** What is true all along: the counter is right, unless a missing field has been noticed inside a
      message, and every required field that has been read has a silent payload. */
  ghost predicate Counts(S: Schema, d: MsgDesc, group: bool, p: Progress, marked: set<nat>) {
    (!group && p.missing) || (Tally(d, p, marked) && (!group ==> AllFillable(S, d, marked)))
  }

  ghost predicate AllFillable(S: Schema, d: MsgDesc, marked: set<nat>) {
    forall i :: i in marked && i < |d.fields| ==> Fillable(S, d.fields[i])
  }

  lemma CountsStep(S: Schema, ty: nat, i: nat, wire: nat, s: seq<byte>, group: bool, p: Progress, marked: set<nat>)
    requires ValidSchema(S) && ty < |S| && i < |S[ty].fields| && Counts(S, S[ty], group, p, marked)
    requires if group then Countable(S[ty]) else Accountable(S, S[ty])
    requires DecodeField(S, S[ty].fields[i], wire, s, FieldVals(p.m, i)).Got?
    ensures var f := DecodeField(S, S[ty].fields[i], wire, s, FieldVals(p.m, i));
            Counts(S, S[ty], group, Step(S[ty], i, p, f.vals, f.missing), Mark(S[ty], i, marked))
  {
    var d := S[ty];
    var f := DecodeField(S, d.fields[i], wire, s, FieldVals(p.m, i));
    assert ValidType(S, d);
    if group || !(p.missing || f.missing) {
      if IsRequired(d, i) {
        StoresSomething(S, d.fields[i], wire, s, FieldVals(p.m, i));
        if !group {
          QuietIsFillable(S, d.fields[i], wire, s, FieldVals(p.m, i));
        }
      }
      TallyStep(d, i, p, f.vals, f.missing, marked);
    }
  }

  /** A message that is not reported has its required fields, and these can be silent. */
  lemma {:induction false} CountingTells(S: Schema, ty: nat, s: seq<byte>, group: bool, p: Progress, marked: set<nat>)
    requires ValidSchema(S) && ty < |S| && Counts(S, S[ty], group, p, marked)
    requires if group then Countable(S[ty]) else Accountable(S, S[ty])
    ensures var r := DecodeMsg(S, ty, s, group, p);
            r.Done? && !r.missing ==>
              forall i: nat :: IsRequired(S[ty], i) ==>
                FieldVals(r.m, i) != [] && (!group ==> Fillable(S, S[ty].fields[i]))
    decreases |s|
  {
    ByRecord(S, ty, s, group, p);
    match FirstRecord(S, ty, s, group) {
      case Broken =>
      case End(_) =>
        if !Report(group, p) {
          TallyEnds(S[ty], p, marked);
        }
      case Strange(saved, rest) => CountingTells(S, ty, rest, group, Keep(S[ty], p, saved), marked);
      case Known(i, wire, body) =>
        var f := DecodeField(S, S[ty].fields[i], wire, body, FieldVals(p.m, i));
        if f.Got? {
          CountsStep(S, ty, i, wire, body, group, p, marked);
          CountingTells(S, ty, f.rest, group, Step(S[ty], i, p, f.vals, f.missing), Mark(S[ty], i, marked));
        }
    }
  }

  // ---- The law ----

  /** As many silent records of one required field above 64 as there are required fields make silence. */
  lemma HidesSilently(S: Schema, ty: nat, i: nat) returns (p: Progress)
    requires ValidSchema(S) && ty < |S|
    requires IsRequired(S[ty], i) && S[ty].fields[i].tag > 64 && Fillable(S, S[ty].fields[i])
    ensures Unmarshal(S, ty, Again(S, S[ty], i, true))
            == Done(p.m, [], false)
    ensures |p.m.fields| == |S[ty].fields| && forall j: nat :: j != i ==> FieldVals(p.m, j) == []
  {
    var d := S[ty];
    var s := Again(S, d, i, true);
    p := AgainRead(S, ty, i, true, [], false, EmptyMsg(d));
    assert s + [] == s;
    AtEnd(S, ty, p);
  }

  /** With a second required field, as many silent records of one above 64 as there are required fields
      hide that the second is missing. */
  lemma Hides(S: Schema, ty: nat, i: nat)
    requires ValidSchema(S) && ty < |S| && RequiredFrom(S[ty], 0) > 1
    requires IsRequired(S[ty], i) && S[ty].fields[i].tag > 64 && Fillable(S, S[ty].fields[i])
    ensures !Reports(S, ty, Again(S, S[ty], i, true))
  {
    var d := S[ty];
    var p := HidesSilently(S, ty, i);
    RequiredSetSize(d, 0);
    var other := OtherThan(RequiredSet(d, 0), i);
    assert FieldVals(p.m, other) == [];
  }

  lemma OtherThan(a: set<nat>, x: nat) returns (y: nat)
    requires |a| > 1
    ensures y in a && y != x
  {
    assert |a - {x}| >= |a| - 1;
    y :| y in a - {x};
  }

  /** A message's own missing required fields are always reported exactly for the accountable types. */
  lemma ReliableIff(S: Schema, ty: nat)
    requires ValidSchema(S) && ty < |S|
    ensures Reliable(S, ty) <==> Accountable(S, S[ty])
  {
    var d := S[ty];
    if Accountable(S, d) {
      forall s: seq<byte> ensures Reports(S, ty, s) {
        TallyStarts(d, EmptyMsg(d));
        CountingTells(S, ty, s, false, Start(d, EmptyMsg(d)), {});
      }
    } else {
      var i: nat :| IsRequired(d, i) && d.fields[i].tag > 64 && Fillable(S, d.fields[i]);
      Hides(S, ty, i);
    }
  }
}
