/** Which message types have every missing required field reported, at any depth: decided by the schema
    for each type by itself. */
module ProtoDeep {
  import opened Bytes
  import opened ProtoVarint
  import opened ProtoNumbers
  import opened ProtoSchema
  import opened ProtoDecode
  import opened ProtoRecords
  import opened ProtoAdvance
  import opened ProtoPrice
  import opened ProtoSilent
  import opened ProtoForge
  import opened ProtoRequired
  import opened ProtoNested
  import opened Reachability

  function NotDependable(S: Schema): nat -> bool {
    (ty: nat) => !Dependable(S, ty)
  }

  /** From a type whose messages can be silent to the types of the messages in them. */
  function SilentlyHolds(S: Schema): Edge {
    (ty: nat, inner: nat) =>
      && ty < |S| && CanFill(S, S[ty])
      && exists i: nat | i < |S[ty].fields| :: HoldsMessages(S[ty], i) && S[ty].fields[i].kind.ty == inner
  }

  predicate HoldsMessages(d: MsgDesc, i: nat) {
    Embeds(d, i) && d.fields[i].kind.Message?
  }

  /** The type, or that of a message at most `n` levels deep in messages that can be silent, is not
      dependable. */
  predicate LeaksWithin(S: Schema, ty: nat, n: nat) {
    Reaches(|S|, NotDependable(S), SilentlyHolds(S), ty, n)
  }

  /** What the schema says of a type: nothing that is missing goes unreported. */
  predicate AlwaysReports(S: Schema, ty: nat) {
    !LeaksWithin(S, ty, |S|)
  }

  // ---- Nothing goes unreported ----

  lemma AlwaysReportsBelow(S: Schema, ty: nat, i: nat)
    requires ty < |S| && AlwaysReports(S, ty) && CanFill(S, S[ty]) && HoldsMessages(S[ty], i)
    ensures AlwaysReports(S, S[ty].fields[i].kind.ty)
  {
    var inner := S[ty].fields[i].kind.ty;
    if LeaksWithin(S, inner, |S|) {
      assert SilentlyHolds(S)(ty, inner);
      assert LeaksWithin(S, ty, |S| + 1);
      ReachesWithin(|S|, NotDependable(S), SilentlyHolds(S), ty, |S| + 1);
    }
  }

  lemma ReportsDeeply(S: Schema, ty: nat)
    requires ValidSchema(S) && ty < |S| && AlwaysReports(S, ty)
    ensures DeeplyReliable(S, ty)
  {
    var types := set t: nat | t < |S| && AlwaysReports(S, t);
    forall t | t in types && CanFill(S, S[t]) ensures MessagesAmong(S[t], types) {
      forall i: nat | Embeds(S[t], i) && S[t].fields[i].kind.Message? ensures S[t].fields[i].kind.ty in types {
        assert ValidType(S, S[t]) && ValidField(S, S[t].fields[i]);
        AlwaysReportsBelow(S, t, i);
      }
    }
    DependableReports(S, types);
  }

  // ---- Something goes unreported ----

  /** A message inside that is silent and not complete, with silent payloads for the required fields. */
  lemma LeakOutside(S: Schema, ty: nat, i: nat, b: seq<byte>) returns (s: seq<byte>)
    requires ValidSchema(S) && ty < |S| && CanFill(S, S[ty]) && HoldsMessages(S[ty], i)
    requires |b| < TWO_63 && S[ty].fields[i].kind.ty < |S| && !ReportsAll(S, S[ty].fields[i].kind.ty, b)
    ensures !ReportsAll(S, ty, s)
    ensures |s| <= |Filling(S, S[ty], true, i, 0)| + |b| + 16
  {
    var d := S[ty];
    var fd := d.fields[i];
    var inner := fd.kind.ty;
    assert ValidType(S, d) && ValidField(S, fd);
    var v := Unmarshal(S, inner, b).m;
    var record := Key(fd.tag, 2) + LenPrefixed(b);
    ShortEnclosed(fd, b);
    RawRoundTrip(b, []);
    assert record + [] == record && Target(S[inner], fd, []) == EmptyMsg(S[inner]);
    var p, marked;
    s, p, marked := FillingMessage(S, ty, i, record);
    var q := InnerRead(S, ty, i, LenPrefixed(b), [], false, p, marked, v);
    AtEnd(S, ty, q);
    AllMarked(d, q, Mark(d, i, marked));
    LacksInside(S, ty, q.m, i, v);
  }

  /** No type has more than `f` fields, and silent records of required fields take at most `w` bytes. */
  predicate Modest(S: Schema, f: nat, w: nat) {
    && 16 <= w && Room(S, f, w, |S|) < TWO_63
    && forall ty: nat | ty < |S| :: |S[ty].fields| <= f && RecordsWithin(S, S[ty], w)
  }

  predicate RecordsWithin(S: Schema, d: MsgDesc, w: nat) {
    forall i: nat | i < |d.fields| :: IsRequired(d, i) && Fillable(S, d.fields[i]) ==>
      |RecordFor(S, d.fields[i], true)| <= w
  }

  /** The size of a leak through `n` messages. */
  function Room(S: Schema, f: nat, w: nat, n: nat): nat {
    (n + 2) * (f * w + 48) + 16 * |S|
  }

  lemma RoomSteps(S: Schema, f: nat, w: nat, n: nat)
    requires w >= 16
    ensures f * w + f * 16 + 16 * |S| + 40 <= Room(S, f, w, n)
    ensures f * w + Room(S, f, w, n) + 16 <= Room(S, f, w, n + 1)
    ensures 16 * |S| < Room(S, f, w, n)
    ensures forall m: nat :: m <= n ==> Room(S, f, w, m) <= Room(S, f, w, n)
  {
    var u := f * w + 48;
    MulMonotone(16, w, f);
    assert f * 16 == 16 * f && f * w == w * f;
    assert (n + 3) * u == (n + 2) * u + u;
    MulMonotone(2, n + 2, u);
    forall m: nat | m <= n ensures Room(S, f, w, m) <= Room(S, f, w, n) {
      MulMonotone(m + 2, n + 2, u);
    }
  }

  lemma SilentsSize(S: Schema, ty: nat, skip: nat, f: nat, w: nat)
    requires ty < |S| && Modest(S, f, w) && CanFill(S, S[ty])
    ensures |Filling(S, S[ty], true, skip, 0)| <= f * w
  {
    var d := S[ty];
    assert RecordsWithin(S, d, w);
    FillingSize(S, d, true, skip, 0, w);
    MulMonotone(|d.fields|, f, w);
  }

  /** A type that is not dependable has a leak. */
  lemma LeakHere(S: Schema, ty: nat, f: nat, w: nat) returns (s: seq<byte>)
    requires ValidSchema(S) && ty < |S| && Modest(S, f, w) && !Dependable(S, ty)
    ensures !ReportsAll(S, ty, s) && |s| <= Room(S, f, w, 0)
  {
    var d := S[ty];
    RoomSteps(S, f, w, 0);
    RoomSteps(S, f, w, |S|);
    if Accountable(S, d) {
      var i: nat :| i < |d.fields| && Embeds(d, i) && d.fields[i].kind.Group? && !GroupSound(S, d.fields[i].kind.ty);
      assert ValidType(S, d) && ValidField(S, d.fields[i]);
      s := LeakInMessage(S, ty, i);
      SilentsSize(S, ty, i, f, w);
    } else {
      var i: nat :| i < |d.fields| && IsRequired(d, i) && d.fields[i].tag > 64 && Fillable(S, d.fields[i]);
      s := LeakByRepeating(S, ty, i, f, w);
    }
  }

  lemma LeakByRepeating(S: Schema, ty: nat, i: nat, f: nat, w: nat) returns (s: seq<byte>)
    requires ValidSchema(S) && ty < |S| && Modest(S, f, w) && RequiredFrom(S[ty], 0) > 1
    requires IsRequired(S[ty], i) && S[ty].fields[i].tag > 64 && Fillable(S, S[ty].fields[i])
    ensures !ReportsAll(S, ty, s) && |s| <= f * w
  {
    var d := S[ty];
    var n := RequiredFrom(d, 0);
    s := Again(S, d, i, true);
    Hides(S, ty, i);
    UnreportedIsIncomplete(S, ty, s);
    assert RecordsWithin(S, d, w);
    assert ValidType(S, d) && ValidField(S, d.fields[i]);
    AgainSize(S, d, i, true);
    RequiredAtMost(d, 0);
    MulAtMost(n, |RecordFor(S, d.fields[i], true)|, f, w);
  }

  /** A leak further in is a leak. */
  lemma {:induction false} Leak(S: Schema, ty: nat, n: nat, f: nat, w: nat) returns (s: seq<byte>)
    requires ValidSchema(S) && Modest(S, f, w) && n <= |S| && LeaksWithin(S, ty, n)
    ensures ty < |S| && !ReportsAll(S, ty, s) && |s| <= Room(S, f, w, n)
    decreases n
  {
    if !Dependable(S, ty) {
      s := LeakHere(S, ty, f, w);
      RoomSteps(S, f, w, n);
    } else {
      var inner: nat :| inner < |S| && SilentlyHolds(S)(ty, inner) && LeaksWithin(S, inner, n - 1);
      var i: nat :| i < |S[ty].fields| && HoldsMessages(S[ty], i) && S[ty].fields[i].kind.ty == inner;
      var b := Leak(S, inner, n - 1, f, w);
      RoomSteps(S, f, w, n - 1);
      RoomSteps(S, f, w, |S|);
      s := LeakOutside(S, ty, i, b);
      SilentsSize(S, ty, i, f, w);
    }
  }

  // ---- The law ----

  /** Every required field that is missing from a message of the type, at whatever depth, is reported for
      all bytes if and only if the schema says so. What the schema says is always enough. That less is
      not enough is shown by leaks, in which every message must fit its length prefix: hence the bound
      on fields and on silent records. */
  lemma DeeplyReliableIff(S: Schema, ty: nat, f: nat, w: nat)
    requires ValidSchema(S) && ty < |S|
    ensures AlwaysReports(S, ty) ==> DeeplyReliable(S, ty)
    ensures Modest(S, f, w) ==> (DeeplyReliable(S, ty) <==> AlwaysReports(S, ty))
  {
    if AlwaysReports(S, ty) {
      ReportsDeeply(S, ty);
    } else if Modest(S, f, w) {
      var s := Leak(S, ty, |S|, f, w);
    }
  }

  // ---- Two schemas ----

  /** A type with two required fields of its own type, one of them above 64. */
  const SELF_SCHEMA: Schema := [MsgDesc([FieldDesc(1, Message(0), Required),
                                         FieldDesc(65, Message(0), Required)], false)]

  lemma {:induction false} NeverSilent(n: nat)
    ensures LeastSize(SELF_SCHEMA, 0, n) == Never
  {
    if n > 0 {
      NeverSilent(n - 1);
    }
    var d := SELF_SCHEMA[0];
    var costs := Costs(SELF_SCHEMA, d, n);
    assert costs[0] == Cost(SELF_SCHEMA, d.fields[0], n) && costs[1] == Cost(SELF_SCHEMA, d.fields[1], n);
    assert IsRequired(d, 0) && Price(d, costs, 0) == Never;
  }

  /** It has no silent message, so that repeating the field above 64 hides nothing. */
  lemma NoSilenceInCycles()
    ensures ValidSchema(SELF_SCHEMA) && !Countable(SELF_SCHEMA[0])
    ensures forall s: seq<byte> :: !IsSilent(SELF_SCHEMA, 0, s)
    ensures AlwaysReports(SELF_SCHEMA, 0)
  {
    var S := SELF_SCHEMA;
    var d := S[0];
    NeverSilent(1);
    ShortestSilent(S, 0);
    assert RequiredFrom(d, 0) == 2;
    assert IsRequired(d, 0);
    assert AlwaysReports(S, 0);
  }

  /** The schema tells the message around the group, where a report is lost, from the same fields as a
      message, where none is. */
  lemma SchemaTellsTheGroup()
    ensures !AlwaysReports(GROUP_SCHEMA, 0) && AlwaysReports(GROUP_SCHEMA, 1)
  {
    var S := GROUP_SCHEMA;
    assert !Dependable(S, 0);
    assert RequiredFrom(S[1], 0) == 0 && RequiredFrom(S[2], 0) == 1;
    assert Dependable(S, 1) && Dependable(S, 2);
    assert forall inner: nat :: !SilentlyHolds(S)(2, inner);
    assert !LeaksWithin(S, 2, 2);
    assert forall inner: nat :: SilentlyHolds(S)(1, inner) ==> inner == 2;
    assert !LeaksWithin(S, 1, 3);
  }
}
