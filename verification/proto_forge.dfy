/** Inputs made on purpose: records that set the required fields of a message, and records that are
    repeated, with silent payloads or just the smallest. */
module ProtoForge {
  import opened Bytes
  import opened Sequences
  import opened Varints
  import opened ProtoSchema
  import opened ProtoDecode
  import opened ProtoAdvance
  import opened ProtoFill
  import opened ProtoPrice
  import opened ProtoSilent

  function BodyFor(S: Schema, fd: FieldDesc, quiet: bool): seq<byte> {
    if quiet then SilentBody(S, fd) else Trivial(fd)
  }

  function RecordFor(S: Schema, fd: FieldDesc, quiet: bool): seq<byte> {
    Key(fd.tag, WireOf(fd.kind)) + BodyFor(S, fd, quiet)
  }

  /** Every required field has a silent payload. */
  predicate CanFill(S: Schema, d: MsgDesc) {
    forall i: nat | i < |d.fields| :: IsRequired(d, i) ==> Fillable(S, d.fields[i])
  }

  lemma BodyForDecodes(S: Schema, fd: FieldDesc, quiet: bool)
    requires ValidSchema(S) && ValidField(S, fd) && (quiet ==> Fillable(S, fd))
    ensures Decodes(S, fd, BodyFor(S, fd, quiet), quiet)
  {
    if quiet {
      FillableIff(S, fd);
    } else {
      TrivialDecodes(S, fd);
      Louder(S, fd, Trivial(fd), fd.kind.Numeric? || fd.kind.Text?);
    }
  }

  lemma RecordForRead(S: Schema, ty: nat, i: nat, quiet: bool, tail: seq<byte>, group: bool, p: Progress)
    returns (f: FieldOutcome)
    requires ValidSchema(S) && ty < |S| && IsRequired(S[ty], i)
    requires quiet ==> Fillable(S, S[ty].fields[i])
    ensures f.Got? && (quiet ==> !f.missing)
    ensures DecodeMsg(S, ty, RecordFor(S, S[ty].fields[i], quiet) + tail, group, p)
            == DecodeMsg(S, ty, tail, group, Step(S[ty], i, p, f.vals, f.missing))
  {
    var fd := S[ty].fields[i];
    assert ValidType(S, S[ty]) && ValidField(S, fd);
    BodyForDecodes(S, fd, quiet);
    f := RecordRead(S, ty, i, BodyFor(S, fd, quiet), tail, group, p, quiet);
  }

  // ---- All required fields but one ----

  /** Records of the required fields from position `k` on, but for `skip`. */
  function Filling(S: Schema, d: MsgDesc, quiet: bool, skip: nat, k: nat): seq<byte>
    requires k <= |d.fields|
    decreases |d.fields| - k
  {
    if k == |d.fields| then []
    else
      (if IsRequired(d, k) && k != skip then RecordFor(S, d.fields[k], quiet) else [])
      + Filling(S, d, quiet, skip, k + 1)
  }

  /** What reading records of required fields from position `k` on, but for `skip`, has done. */
  ghost predicate Filled(d: MsgDesc, skip: nat, quiet: bool, k: nat, p: Progress, marked: set<nat>, p': Progress,
                         marked': set<nat>) {
    && Counted(d, p', marked') && marked <= marked'
    && (forall i :: k <= i && IsRequired(d, i) && i != skip ==> i in marked')
    && |p'.m.fields| == |p.m.fields| && FieldVals(p'.m, skip) == FieldVals(p.m, skip)
    && (quiet ==> p'.missing == p.missing)
  }

  /** One record of the required field at position `k`. */
  lemma RequiredRead(S: Schema, ty: nat, k: nat, quiet: bool, tail: seq<byte>, group: bool, p: Progress,
                     marked: set<nat>)
    returns (q: Progress)
    requires ValidSchema(S) && ty < |S| && IsRequired(S[ty], k) && Counted(S[ty], p, marked)
    requires quiet ==> Fillable(S, S[ty].fields[k])
    ensures DecodeMsg(S, ty, RecordFor(S, S[ty].fields[k], quiet) + tail, group, p) == DecodeMsg(S, ty, tail, group, q)
    ensures Counted(S[ty], q, Mark(S[ty], k, marked)) && |q.m.fields| == |p.m.fields|
    ensures (forall j: nat :: j != k ==> FieldVals(q.m, j) == FieldVals(p.m, j)) && (quiet ==> q.missing == p.missing)
  {
    var d := S[ty];
    var f := RecordForRead(S, ty, k, quiet, tail, group, p);
    q := Step(d, k, p, f.vals, f.missing);
    var stored := p.(m := p.m.(fields := q.m.fields), missing := p.missing || f.missing);
    assert ValidType(S, d) && q == Count(d.fields[k], stored);
    CountStep(d, k, stored, marked);
  }

  lemma FilledMore(d: MsgDesc, skip: nat, quiet: bool, k: nat, p: Progress, marked: set<nat>, q: Progress,
                   p': Progress, marked': set<nat>)
    requires IsRequired(d, k) && k != skip && Filled(d, skip, quiet, k + 1, q, Mark(d, k, marked), p', marked')
    requires |q.m.fields| == |p.m.fields| && (quiet ==> q.missing == p.missing)
    requires forall j: nat :: j != k ==> FieldVals(q.m, j) == FieldVals(p.m, j)
    ensures Filled(d, skip, quiet, k, p, marked, p', marked')
  {
  }

  lemma FilledSame(d: MsgDesc, skip: nat, quiet: bool, k: nat, p: Progress, marked: set<nat>, p': Progress,
                   marked': set<nat>)
    requires Filled(d, skip, quiet, k + 1, p, marked, p', marked') && !(IsRequired(d, k) && k != skip)
    ensures Filled(d, skip, quiet, k, p, marked, p', marked')
  {
  }

  /** The record of the required field at position `k` and then the others. */
  lemma NextFilled(S: Schema, ty: nat, skip: nat, quiet: bool, k: nat, tail: seq<byte>, group: bool, p: Progress,
                   marked: set<nat>)
    returns (q: Progress)
    requires ValidSchema(S) && ty < |S| && IsRequired(S[ty], k) && k != skip && Counted(S[ty], p, marked)
    requires quiet ==> CanFill(S, S[ty])
    ensures DecodeMsg(S, ty, Filling(S, S[ty], quiet, skip, k) + tail, group, p)
            == DecodeMsg(S, ty, Filling(S, S[ty], quiet, skip, k + 1) + tail, group, q)
    ensures Counted(S[ty], q, Mark(S[ty], k, marked)) && |q.m.fields| == |p.m.fields|
    ensures (forall j: nat :: j != k ==> FieldVals(q.m, j) == FieldVals(p.m, j)) && (quiet ==> q.missing == p.missing)
  {
    var more := Filling(S, S[ty], quiet, skip, k + 1);
    Associate(RecordFor(S, S[ty].fields[k], quiet), more, tail);
    q := RequiredRead(S, ty, k, quiet, more + tail, group, p, marked);
  }

  lemma {:induction false} FillingRead(S: Schema, ty: nat, skip: nat, quiet: bool, k: nat, tail: seq<byte>,
                                       group: bool, p: Progress, marked: set<nat>)
    returns (p': Progress, marked': set<nat>)
    requires ValidSchema(S) && ty < |S| && k <= |S[ty].fields| && Counted(S[ty], p, marked)
    requires quiet ==> CanFill(S, S[ty])
    ensures DecodeMsg(S, ty, Filling(S, S[ty], quiet, skip, k) + tail, group, p) == DecodeMsg(S, ty, tail, group, p')
    ensures Filled(S[ty], skip, quiet, k, p, marked, p', marked')
    decreases |S[ty].fields| - k
  {
    var d := S[ty];
    if k == |d.fields| {
      assert [] + tail == tail;
      p', marked' := p, marked;
    } else if IsRequired(d, k) && k != skip {
      var q := NextFilled(S, ty, skip, quiet, k, tail, group, p, marked);
      p', marked' := FillingRead(S, ty, skip, quiet, k + 1, tail, group, q, Mark(d, k, marked));
      FilledMore(d, skip, quiet, k, p, marked, q, p', marked');
    } else {
      assert [] + Filling(S, d, quiet, skip, k + 1) == Filling(S, d, quiet, skip, k + 1);
      p', marked' := FillingRead(S, ty, skip, quiet, k + 1, tail, group, p, marked);
      FilledSame(d, skip, quiet, k, p, marked, p', marked');
    }
  }

  lemma {:induction false} FillingSize(S: Schema, d: MsgDesc, quiet: bool, skip: nat, k: nat, w: nat)
    requires k <= |d.fields|
    requires forall i: nat :: IsRequired(d, i) && i != skip ==> |RecordFor(S, d.fields[i], quiet)| <= w
    ensures |Filling(S, d, quiet, skip, k)| <= (|d.fields| - k) * w
    decreases |d.fields| - k
  {
    if k < |d.fields| {
      FillingSize(S, d, quiet, skip, k + 1, w);
      assert (|d.fields| - k) * w == (|d.fields| - k - 1) * w + w;
    }
  }

  lemma ShortKey(tag: nat, wire: nat)
    requires tag <= MAX_TAG && wire < 8
    ensures |Key(tag, wire)| <= 5
  {
    Pow128Values();
    VarintSize(8 * tag + wire, 5);
  }

  lemma ShortTrivial(fd: FieldDesc)
    requires fd.tag <= MAX_TAG
    ensures |Key(fd.tag, WireOf(fd.kind))| + |Trivial(fd)| <= 16
  {
    ShortKey(fd.tag, WireOf(fd.kind));
  }

  // ---- Repeated records ----

  /** Prices by which only field `i` is to be had. */
  function Only(d: MsgDesc, i: nat, size: nat): seq<Size> {
    seq(|d.fields|, j requires 0 <= j < |d.fields| => if j == i then Bytes(size) else Never)
  }

  function BodiesFor(S: Schema, d: MsgDesc, quiet: bool): seq<seq<byte>> {
    seq(|d.fields|, j requires 0 <= j < |d.fields| => BodyFor(S, d.fields[j], quiet))
  }

  /** The record of field `i`, which is numbered above 64, once for every required field. */
  function Again(S: Schema, d: MsgDesc, i: nat, quiet: bool): seq<byte>
    requires i < |d.fields|
  {
    Chosen(d, BodiesFor(S, d, quiet), Only(d, i, |RecordFor(S, d.fields[i], quiet)|), 0)
  }

  /** It can stand in for all of them. */
  lemma OnlyPays(d: MsgDesc, i: nat, size: nat)
    requires IsRequired(d, i) && d.fields[i].tag > 64
    ensures AtMost(Total(d, Only(d, i, size), 0), Bytes(RequiredFrom(d, 0) * size))
  {
    var costs := Only(d, i, size);
    assert Repeatable(d, costs, i);
    assert Spare(d, costs) == Bytes(size);
    OwedAtMost(d, costs, {}, 0);
    UnmarkedIs(d, {}, 0);
    RequiredSetSize(d, 0);
    assert RequiredSet(d, 0) - {} == RequiredSet(d, 0);
  }

  lemma AgainSize(S: Schema, d: MsgDesc, i: nat, quiet: bool)
    requires IsRequired(d, i) && d.fields[i].tag > 64 && ValidSchema(S) && ValidField(S, d.fields[i])
    requires quiet ==> Fillable(S, d.fields[i])
    ensures |Again(S, d, i, quiet)| <= RequiredFrom(d, 0) * |RecordFor(S, d.fields[i], quiet)|
  {
    var size := |RecordFor(S, d.fields[i], quiet)|;
    OnlyPays(d, i, size);
    OnlyFits(S, d, i, quiet);
    ChosenSize(S, d, BodiesFor(S, d, quiet), Only(d, i, size), quiet, 0);
  }

  lemma OnlyFits(S: Schema, d: MsgDesc, i: nat, quiet: bool)
    requires IsRequired(d, i) && ValidSchema(S) && ValidField(S, d.fields[i])
    requires quiet ==> Fillable(S, d.fields[i])
    ensures Fits(S, d, BodiesFor(S, d, quiet), Only(d, i, |RecordFor(S, d.fields[i], quiet)|), quiet)
  {
    BodyForDecodes(S, d.fields[i], quiet);
  }

  /** Every time a required field numbered above 64 is read, one field less is thought to be missing:
      read as often as there are required fields, it hides that the others are. */
  lemma AgainRead(S: Schema, ty: nat, i: nat, quiet: bool, tail: seq<byte>, group: bool, m: Msg)
    returns (p': Progress)
    requires ValidSchema(S) && ty < |S| && IsRequired(S[ty], i) && S[ty].fields[i].tag > 64
    requires quiet ==> Fillable(S, S[ty].fields[i])
    ensures DecodeMsg(S, ty, Again(S, S[ty], i, quiet) + tail, group, Start(S[ty], m))
            == DecodeMsg(S, ty, tail, group, p')
    ensures p'.required == 0 && (quiet ==> !p'.missing) && |p'.m.fields| == |m.fields|
    ensures forall j: nat :: j < |S[ty].fields| && j != i ==> FieldVals(p'.m, j) == FieldVals(m, j)
  {
    var d := S[ty];
    var costs := Only(d, i, |RecordFor(S, d.fields[i], quiet)|);
    assert ValidType(S, d);
    OnlyPays(d, i, |RecordFor(S, d.fields[i], quiet)|);
    OnlyFits(S, d, i, quiet);
    p' := ChosenRead(S, ty, BodiesFor(S, d, quiet), costs, quiet, 0, tail, group, Start(d, m));
    forall j: nat | j < |d.fields| && j != i ensures FieldVals(p'.m, j) == FieldVals(m, j) {
      assert costs[j].Never?;
    }
  }

  lemma {:induction false} RequiredAtMost(d: MsgDesc, k: nat)
    requires k <= |d.fields|
    ensures RequiredFrom(d, k) <= |d.fields| - k
    decreases |d.fields| - k
  {
    if k < |d.fields| {
      RequiredAtMost(d, k + 1);
    }
  }
}
