/** When decoding notices every missing required field, at any depth. Embedded messages pass their
    report on; groups drop what has been noticed inside them and report their own fields only. */
module ProtoNested {
  import opened Bytes
  import opened Options
  import opened Sequences
  import opened ProtoNumbers
  import opened ProtoVarint
  import opened ProtoWire
  import opened ProtoSchema
  import opened ProtoDecode
  import opened ProtoRecords
  import opened ProtoAdvance
  import opened ProtoLoop
  import opened ProtoForge
  import opened ProtoRequired
  import opened Reachability

  /** Whatever the input, a message that is not reported is complete, inside too. */
  ghost predicate DeeplyReliable(S: Schema, ty: nat)
    requires ty < |S|
  {
    forall s: seq<byte> :: ReportsAll(S, ty, s)
  }

  ghost predicate ReportsAll(S: Schema, ty: nat, s: seq<byte>)
    requires ty < |S|
  {
    var r := Unmarshal(S, ty, s);
    r.Done? && !r.missing ==> Complete(S, ty, r.m)
  }

  // ---- The condition ----

  /** Field `i` holds messages or groups. */
  predicate Embeds(d: MsgDesc, i: nat) {
    i < |d.fields| && d.fields[i].mode != Reserved && (d.fields[i].kind.Message? || d.fields[i].kind.Group?)
  }

  function HasRequired(S: Schema): nat -> bool {
    (ty: nat) => ty < |S| && RequiredFrom(S[ty], 0) > 0
  }

  function Embedding(S: Schema): Edge {
    (ty: nat, inner: nat) =>
      ty < |S| && exists i: nat | i < |S[ty].fields| :: Embeds(S[ty], i) && S[ty].fields[i].kind.ty == inner
  }

  /** The type, or one embedded in it at most `n` levels deep, has a required field. */
  predicate Needs(S: Schema, ty: nat, n: nat) {
    Reaches(|S|, HasRequired(S), Embedding(S), ty, n)
  }

  /** A message of the type can lack a required field, its own or one further in; as many levels as
      there are types are enough. */
  predicate MayLack(S: Schema, ty: nat) {
    Needs(S, ty, |S|)
  }

  /** Field `i` holds messages or groups that have one, a level less deep. */
  predicate Leads(S: Schema, ty: nat, i: nat, n: nat)
    requires ty < |S|
  {
    n > 0 && Embeds(S[ty], i) && Needs(S, S[ty].fields[i].kind.ty, n - 1)
  }

  lemma NeedsBelow(S: Schema, ty: nat, n: nat)
    requires Needs(S, ty, n) && RequiredFrom(S[ty], 0) == 0
    ensures exists i: nat :: Leads(S, ty, i, n)
  {
    var inner: nat :| inner < |S| && Embedding(S)(ty, inner) && Needs(S, inner, n - 1);
    var i: nat :| i < |S[ty].fields| && Embeds(S[ty], i) && S[ty].fields[i].kind.ty == inner;
    assert Leads(S, ty, i, n);
  }

  lemma MayLackAbove(S: Schema, ty: nat, i: nat)
    requires ty < |S| && Embeds(S[ty], i) && MayLack(S, S[ty].fields[i].kind.ty)
    ensures MayLack(S, ty)
  {
    assert Embedding(S)(ty, S[ty].fields[i].kind.ty);
    assert Needs(S, ty, |S| + 1);
    ReachesWithin(|S|, HasRequired(S), Embedding(S), ty, |S| + 1);
  }

  /** A group that reports every required field that is missing: its own are counted exactly, and
      nothing inside it can lack any. */
  predicate GroupSound(S: Schema, ty: nat) {
    && ty < |S| && Countable(S[ty])
    && forall i: nat | i < |S[ty].fields| :: Embeds(S[ty], i) ==> !MayLack(S, S[ty].fields[i].kind.ty)
  }

  /** What a message type must be like: its own required fields are counted exactly, and if a message
      of the type can be silent at all, its groups are sound. */
  predicate Dependable(S: Schema, ty: nat) {
    && ty < |S| && Accountable(S, S[ty])
    && (CanFill(S, S[ty]) ==> GroupsSound(S, S[ty]))
  }

  predicate GroupsSound(S: Schema, d: MsgDesc) {
    forall i: nat | i < |d.fields| :: Embeds(d, i) && d.fields[i].kind.Group? ==> GroupSound(S, d.fields[i].kind.ty)
  }

  /** With a type that can be silent, `types` has the types of the messages in it. */
  ghost predicate Closed(S: Schema, types: set<nat>) {
    forall ty :: ty in types ==> ty < |S| && (CanFill(S, S[ty]) ==> MessagesAmong(S[ty], types))
  }

  ghost predicate MessagesAmong(d: MsgDesc, types: set<nat>) {
    forall i: nat :: Embeds(d, i) && d.fields[i].kind.Message? ==> d.fields[i].kind.ty in types
  }

  // ---- Dependable types are deeply reliable ----

  ghost predicate ValuesComplete(S: Schema, kind: Kind, vals: seq<Value>) {
    forall j :: 0 <= j < |vals| ==> CompleteValue(S, kind, vals[j])
  }

  /** Everything inside the message is complete. */
  ghost predicate NestedComplete(S: Schema, d: MsgDesc, m: Msg) {
    && |m.fields| == |d.fields|
    && forall i :: 0 <= i < |d.fields| ==> ValuesComplete(S, d.fields[i].kind, m.fields[i].vals)
  }

  lemma CompleteFromNested(S: Schema, ty: nat, m: Msg)
    requires ty < |S| && NestedComplete(S, S[ty], m)
    requires forall i: nat :: IsRequired(S[ty], i) ==> FieldVals(m, i) != []
    ensures Complete(S, ty, m)
  {
    forall i | 0 <= i < |m.fields| ensures CompleteField(S, S[ty].fields[i], m.fields[i]) {
      assert ValuesComplete(S, S[ty].fields[i].kind, m.fields[i].vals);
      assert IsRequired(S[ty], i) ==> FieldVals(m, i) != [];
    }
  }

  lemma NestedFromComplete(S: Schema, ty: nat, m: Msg)
    requires Complete(S, ty, m)
    ensures NestedComplete(S, S[ty], m)
  {
    forall i | 0 <= i < |m.fields| ensures ValuesComplete(S, S[ty].fields[i].kind, m.fields[i].vals) {
      assert CompleteField(S, S[ty].fields[i], m.fields[i]);
    }
  }

  lemma NestedStep(S: Schema, d: MsgDesc, i: nat, p: Progress, vals: seq<Value>, missing: bool)
    requires i < |d.fields| && NestedComplete(S, d, p.m) && ValuesComplete(S, d.fields[i].kind, vals)
    ensures NestedComplete(S, d, Step(d, i, p, vals, missing).m)
  {
    assert Step(d, i, p, vals, missing).m.fields == p.m.fields[i := Field(vals)];
  }

  /** The message that is decoded into: what is there, or an empty one. */
  lemma TargetNested(S: Schema, fd: FieldDesc, vals: seq<Value>)
    requires (fd.kind.Message? || fd.kind.Group?) && fd.kind.ty < |S| && ValuesComplete(S, fd.kind, vals)
    ensures NestedComplete(S, S[fd.kind.ty], Target(S[fd.kind.ty], fd, vals))
  {
    if !IsList(fd.mode) && vals != [] {
      assert CompleteValue(S, fd.kind, vals[0]);
      NestedFromComplete(S, fd.kind.ty, vals[0].m);
    }
  }

  /** Decoding an embedded message or group is decoding no more than these bytes. */
  lemma EmbeddedDecode(S: Schema, fd: FieldDesc, wire: nat, s: seq<byte>, vals: seq<Value>) returns (b: seq<byte>)
    requires (fd.kind.Message? || fd.kind.Group?) && fd.kind.ty < |S| && DecodeField(S, fd, wire, s, vals).Got?
    ensures |b| <= |s|
    ensures var f := DecodeField(S, fd, wire, s, vals);
            var d := S[fd.kind.ty];
            var r := DecodeMsg(S, fd.kind.ty, b, fd.kind.Group?, Start(d, Target(d, fd, vals)));
            r.Done? && f.vals == Store(fd, vals, Sub(r.m)) && f.missing == r.missing
  {
    if fd.kind.Message? {
      var (i, j) := RawAt(s).value;
      b := s[i..j];
    } else {
      b := s;
    }
  }

  lemma StoreComplete(S: Schema, fd: FieldDesc, vals: seq<Value>, m: Msg)
    requires (fd.kind.Message? || fd.kind.Group?) && ValuesComplete(S, fd.kind, vals) && Complete(S, fd.kind.ty, m)
    ensures ValuesComplete(S, fd.kind, Store(fd, vals, Sub(m)))
  {
  }

  /** Where nothing inside can lack a required field, everything inside is always complete. */
  lemma {:induction false} FreeNested(S: Schema, ty: nat, s: seq<byte>, group: bool, p: Progress)
    requires ValidSchema(S) && ty < |S| && NestedComplete(S, S[ty], p.m)
    requires forall i: nat :: Embeds(S[ty], i) ==> !MayLack(S, S[ty].fields[i].kind.ty)
    ensures var r := DecodeMsg(S, ty, s, group, p); r.Done? ==> NestedComplete(S, S[ty], r.m)
    decreases |s|, 0
  {
    ByRecord(S, ty, s, group, p);
    match FirstRecord(S, ty, s, group) {
      case Strange(saved, rest) => FreeNested(S, ty, rest, group, Keep(S[ty], p, saved));
      case Known(i, wire, body) =>
        var f := DecodeField(S, S[ty].fields[i], wire, body, FieldVals(p.m, i));
        if f.Got? {
          FreeField(S, ty, i, wire, body, FieldVals(p.m, i));
          NestedStep(S, S[ty], i, p, f.vals, f.missing);
          FreeNested(S, ty, f.rest, group, Step(S[ty], i, p, f.vals, f.missing));
        }
      case _ =>
    }
  }

  lemma {:induction false} FreeField(S: Schema, ty: nat, i: nat, wire: nat, s: seq<byte>, vals: seq<Value>)
    requires ValidSchema(S) && ty < |S| && i < |S[ty].fields| && S[ty].fields[i].mode != Reserved
    requires ValuesComplete(S, S[ty].fields[i].kind, vals) && DecodeField(S, S[ty].fields[i], wire, s, vals).Got?
    requires Embeds(S[ty], i) ==> !MayLack(S, S[ty].fields[i].kind.ty)
    ensures ValuesComplete(S, S[ty].fields[i].kind, DecodeField(S, S[ty].fields[i], wire, s, vals).vals)
    decreases |s|, 1
  {
    var fd := S[ty].fields[i];
    assert ValidType(S, S[ty]) && ValidField(S, fd);
    if Embeds(S[ty], i) {
      var inner := fd.kind.ty;
      var d := S[inner];
      var b := EmbeddedDecode(S, fd, wire, s, vals);
      var r := DecodeMsg(S, inner, b, fd.kind.Group?, Start(d, Target(d, fd, vals)));
      NothingNeeded(S, inner);
      TargetNested(S, fd, vals);
      FreeNested(S, inner, b, fd.kind.Group?, Start(d, Target(d, fd, vals)));
      CompleteFromNested(S, inner, r.m);
      StoreComplete(S, fd, vals, r.m);
    }
  }

  lemma NothingNeeded(S: Schema, ty: nat)
    requires ty < |S| && !MayLack(S, ty)
    ensures forall i: nat :: !IsRequired(S[ty], i)
    ensures forall i: nat :: Embeds(S[ty], i) ==> !MayLack(S, S[ty].fields[i].kind.ty)
  {
    RequiredSetSize(S[ty], 0);
    forall i: nat ensures !IsRequired(S[ty], i) {
      assert i !in RequiredSet(S[ty], 0);
    }
    forall i: nat | Embeds(S[ty], i) ensures !MayLack(S, S[ty].fields[i].kind.ty) {
      if MayLack(S, S[ty].fields[i].kind.ty) {
        MayLackAbove(S, ty, i);
      }
    }
  }

  /** A sound group that is not reported is complete. */
  lemma GroupTells(S: Schema, ty: nat, s: seq<byte>, m: Msg)
    requires ValidSchema(S) && GroupSound(S, ty) && NestedComplete(S, S[ty], m)
    ensures var r := DecodeMsg(S, ty, s, true, Start(S[ty], m)); r.Done? && !r.missing ==> Complete(S, ty, r.m)
  {
    var r := DecodeMsg(S, ty, s, true, Start(S[ty], m));
    TallyStarts(S[ty], m);
    CountingTells(S, ty, s, true, Start(S[ty], m), {});
    FreeNested(S, ty, s, true, Start(S[ty], m));
    if r.Done? && !r.missing {
      CompleteFromNested(S, ty, r.m);
    }
  }

  /** A message of a dependable type that is not reported is complete. */
  lemma {:induction false} MessageTells(S: Schema, types: set<nat>, ty: nat, s: seq<byte>, m: Msg)
    requires ValidSchema(S) && Closed(S, types) && ty in types && NestedComplete(S, S[ty], m)
    requires forall t :: t in types ==> Dependable(S, t)
    ensures var r := DecodeMsg(S, ty, s, false, Start(S[ty], m)); r.Done? && !r.missing ==> Complete(S, ty, r.m)
    decreases |s|, 2
  {
    var r := DecodeMsg(S, ty, s, false, Start(S[ty], m));
    if r.Done? && !r.missing {
      TallyStarts(S[ty], m);
      CountingTells(S, ty, s, false, Start(S[ty], m), {});
      assert Dependable(S, ty);
      MessageNested(S, types, ty, s, Start(S[ty], m));
      CompleteFromNested(S, ty, r.m);
    }
  }

  lemma {:induction false} MessageNested(S: Schema, types: set<nat>, ty: nat, s: seq<byte>, p: Progress)
    requires ValidSchema(S) && Closed(S, types) && ty in types && CanFill(S, S[ty])
    requires forall t :: t in types ==> Dependable(S, t)
    requires p.missing || NestedComplete(S, S[ty], p.m)
    ensures var r := DecodeMsg(S, ty, s, false, p); r.Done? ==> r.missing || NestedComplete(S, S[ty], r.m)
    decreases |s|, 0
  {
    ByRecord(S, ty, s, false, p);
    match FirstRecord(S, ty, s, false) {
      case Strange(saved, rest) => MessageNested(S, types, ty, rest, Keep(S[ty], p, saved));
      case Known(i, wire, body) =>
        var f := DecodeField(S, S[ty].fields[i], wire, body, FieldVals(p.m, i));
        if f.Got? {
          if !p.missing && !f.missing {
            FieldTells(S, types, ty, i, wire, body, FieldVals(p.m, i));
            NestedStep(S, S[ty], i, p, f.vals, f.missing);
          }
          MessageNested(S, types, ty, f.rest, Step(S[ty], i, p, f.vals, f.missing));
        }
      case _ =>
    }
  }

  lemma {:induction false} FieldTells(S: Schema, types: set<nat>, ty: nat, i: nat, wire: nat, s: seq<byte>,
                                      vals: seq<Value>)
    requires ValidSchema(S) && Closed(S, types) && ty in types && CanFill(S, S[ty])
    requires forall t :: t in types ==> Dependable(S, t)
    requires i < |S[ty].fields| && S[ty].fields[i].mode != Reserved && ValuesComplete(S, S[ty].fields[i].kind, vals)
    requires DecodeField(S, S[ty].fields[i], wire, s, vals).Got?
        && !DecodeField(S, S[ty].fields[i], wire, s, vals).missing
    ensures ValuesComplete(S, S[ty].fields[i].kind, DecodeField(S, S[ty].fields[i], wire, s, vals).vals)
    decreases |s|, 3
  {
    var fd := S[ty].fields[i];
    assert ValidType(S, S[ty]) && ValidField(S, fd) && Dependable(S, ty);
    if Embeds(S[ty], i) {
      var inner := fd.kind.ty;
      var target := Target(S[inner], fd, vals);
      var b := EmbeddedDecode(S, fd, wire, s, vals);
      TargetNested(S, fd, vals);
      if fd.kind.Group? {
        GroupTells(S, inner, b, target);
      } else {
        MessageTells(S, types, inner, b, target);
      }
      StoreComplete(S, fd, vals, DecodeMsg(S, inner, b, fd.kind.Group?, Start(S[inner], target)).m);
    }
  }

  // ---- Types that are deeply reliable are dependable ----

  /** An embedded message or group with these contents. */
  function Enclosed(fd: FieldDesc, b: seq<byte>): seq<byte> {
    if fd.kind.Group? then b + Key(fd.tag, 4) else LenPrefixed(b)
  }

  /** A message that lacks a required field at most `n` levels deep, and has nothing else. */
  ghost function Gap(S: Schema, ty: nat, n: nat): seq<byte>
    requires Needs(S, ty, n)
    decreases n
  {
    if RequiredFrom(S[ty], 0) > 0 then []
    else
      NeedsBelow(S, ty, n);
      var i: nat :| Leads(S, ty, i, n);
      var fd := S[ty].fields[i];
      Key(fd.tag, WireOf(fd.kind)) + Enclosed(fd, Gap(S, fd.kind.ty, n - 1))
  }

  lemma LacksOne(S: Schema, ty: nat, m: Msg, i: nat)
    requires ty < |S| && IsRequired(S[ty], i) && FieldVals(m, i) == []
    ensures !Complete(S, ty, m)
  {
    if Complete(S, ty, m) {
      assert CompleteField(S, S[ty].fields[i], m.fields[i]);
    }
  }

  lemma LacksInside(S: Schema, ty: nat, m: Msg, i: nat, v: Msg)
    requires ty < |S| && Embeds(S[ty], i) && FieldVals(m, i) == [Sub(v)] && !Complete(S, S[ty].fields[i].kind.ty, v)
    ensures !Complete(S, ty, m)
  {
    assert m.fields[i].vals[0] == Sub(v);
    assert !CompleteValue(S, S[ty].fields[i].kind, Sub(v));
    assert !CompleteField(S, S[ty].fields[i], m.fields[i]);
  }

  lemma ShortEnclosed(fd: FieldDesc, b: seq<byte>)
    requires fd.tag <= MAX_TAG && |b| < TWO_63
    ensures |Key(fd.tag, WireOf(fd.kind)) + Enclosed(fd, b)| <= |b| + 16
  {
    ShortKey(fd.tag, WireOf(fd.kind));
    ShortKey(fd.tag, 4);
    Varints.Pow128Values();
    Varints.VarintSize(|b|, 9);
  }

  lemma {:induction false} GapIsShort(S: Schema, ty: nat, n: nat)
    requires ValidSchema(S) && Needs(S, ty, n) && 16 * n < TWO_63
    ensures |Gap(S, ty, n)| <= 16 * n
    decreases n
  {
    if RequiredFrom(S[ty], 0) == 0 {
      var i, b := GapStep(S, ty, n);
      assert ValidType(S, S[ty]) && ValidField(S, S[ty].fields[i]);
      GapIsShort(S, S[ty].fields[i].kind.ty, n - 1);
      ShortEnclosed(S[ty].fields[i], b);
    }
  }

  lemma GapStep(S: Schema, ty: nat, n: nat) returns (i: nat, b: seq<byte>)
    requires Needs(S, ty, n) && RequiredFrom(S[ty], 0) == 0
    ensures n > 0 && Embeds(S[ty], i) && Needs(S, S[ty].fields[i].kind.ty, n - 1)
        && b == Gap(S, S[ty].fields[i].kind.ty, n - 1)
    ensures Gap(S, ty, n) == Key(S[ty].fields[i].tag, WireOf(S[ty].fields[i].kind)) + Enclosed(S[ty].fields[i], b)
  {
    NeedsBelow(S, ty, n);
    i :| Leads(S, ty, i, n)
         && Gap(S, ty, n) == Key(S[ty].fields[i].tag, WireOf(S[ty].fields[i].kind))
                             + Enclosed(S[ty].fields[i], Gap(S, S[ty].fields[i].kind.ty, n - 1));
    b := Gap(S, S[ty].fields[i].kind.ty, n - 1);
  }

  /** A record of field `i` that is decoded into nothing. */
  lemma InnerRead(S: Schema, ty: nat, i: nat, body: seq<byte>, tail: seq<byte>, group: bool, p: Progress,
                  marked: set<nat>, v: Msg)
    returns (p': Progress)
    requires ValidSchema(S) && ty < |S| && Embeds(S[ty], i) && |p.m.fields| == |S[ty].fields| && FieldVals(p.m, i) == []
    requires Counted(S[ty], p, marked)
    requires var f := DecodeField(S, S[ty].fields[i], WireOf(S[ty].fields[i].kind), body + tail, []);
             f.Got? && f.rest == tail && f.vals == [Sub(v)]
    ensures DecodeMsg(S, ty, (Key(S[ty].fields[i].tag, WireOf(S[ty].fields[i].kind)) + body) + tail, group, p)
            == DecodeMsg(S, ty, tail, group, p')
    ensures FieldVals(p'.m, i) == [Sub(v)] && Counted(S[ty], p', Mark(S[ty], i, marked))
    ensures var f := DecodeField(S, S[ty].fields[i], WireOf(S[ty].fields[i].kind), body + tail, []);
            !f.missing ==> p'.missing == p.missing
  {
    var fd := S[ty].fields[i];
    assert ValidType(S, S[ty]);
    Associate(Key(fd.tag, WireOf(fd.kind)), body, tail);
    KnownRecord(S, ty, i, WireOf(fd.kind), body + tail, group, p);
    var missing := DecodeField(S, fd, WireOf(fd.kind), body + tail, []).missing;
    p' := Step(S[ty], i, p, [Sub(v)], missing);
    var stored := p.(m := SetField(p.m, i, Field([Sub(v)])), missing := p.missing || missing);
    assert p' == Count(fd, stored);
    CountStep(S[ty], i, stored, marked);
  }

  /** A gap is read as a message that is not complete. */
  lemma {:induction false} GapRead(S: Schema, ty: nat, n: nat, tail: seq<byte>, group: bool)
    returns (p': Progress)
    requires ValidSchema(S) && Needs(S, ty, n) && 16 * n < TWO_63
    ensures DecodeMsg(S, ty, Gap(S, ty, n) + tail, group, Start(S[ty], EmptyMsg(S[ty])))
        == DecodeMsg(S, ty, tail, group, p')
    ensures !Complete(S, ty, p'.m)
    decreases n, 1
  {
    var d := S[ty];
    var p := Start(d, EmptyMsg(d));
    if RequiredFrom(d, 0) > 0 {
      assert [] + tail == tail;
      p' := p;
      RequiredSetSize(d, 0);
      var i :| i in RequiredSet(d, 0);
      LacksOne(S, ty, p.m, i);
    } else {
      var i, b := GapStep(S, ty, n);
      assert ValidType(S, d) && ValidField(S, d.fields[i]);
      var v := GapField(S, d.fields[i], n - 1, tail);
      p' := InnerRead(S, ty, i, Enclosed(d.fields[i], b), tail, group, p, {}, v);
      LacksInside(S, ty, p'.m, i, v);
    }
  }

  lemma {:induction false} GapField(S: Schema, fd: FieldDesc, n: nat, tail: seq<byte>) returns (v: Msg)
    requires ValidSchema(S) && ValidField(S, fd) && (fd.kind.Message? || fd.kind.Group?) && fd.mode != Reserved
    requires Needs(S, fd.kind.ty, n) && 16 * n < TWO_63
    ensures var f := DecodeField(S, fd, WireOf(fd.kind), Enclosed(fd, Gap(S, fd.kind.ty, n)) + tail, []);
            f.Got? && f.rest == tail && f.vals == [Sub(v)] && !Complete(S, fd.kind.ty, v)
    decreases n, 2
  {
    var b := Gap(S, fd.kind.ty, n);
    if fd.kind.Group? {
      var q := GapRead(S, fd.kind.ty, n, Key(fd.tag, 4) + tail, true);
      Associate(b, Key(fd.tag, 4), tail);
      AtEndGroup(S, fd.kind.ty, fd.tag, tail, q);
      v := q.m;
    } else {
      GapIsShort(S, fd.kind.ty, n);
      var q := GapRead(S, fd.kind.ty, n, [], false);
      assert b + [] == b;
      RawRoundTrip(b, tail);
      AtEnd(S, fd.kind.ty, q);
      v := q.m;
    }
  }

  // ---- Groups that are not sound ----

  /** The bytes of a group that is silent and not complete. */
  ghost predicate Leaks(S: Schema, ty: nat, body: seq<byte>, v: Msg)
    requires ty < |S|
  {
    DecodeMsg(S, ty, body, true, Start(S[ty], EmptyMsg(S[ty]))) == Done(v, [], false) && !Complete(S, ty, v)
  }

  /** In a group that is not sound one required field can be repeated, or there can be a gap inside. */
  lemma GroupLeaks(S: Schema, ty: nat, tag: nat) returns (body: seq<byte>, v: Msg)
    requires ValidSchema(S) && ty < |S| && 1 <= tag <= MAX_TAG && 16 * |S| < TWO_63 && !GroupSound(S, ty)
    ensures Leaks(S, ty, body, v) && |body| <= |S[ty].fields| * 16 + 16 * |S| + 32
  {
    var d := S[ty];
    if Countable(d) {
      var i: nat :| Embeds(d, i) && MayLack(S, d.fields[i].kind.ty);
      body, v := GapLeaks(S, ty, tag, i);
    } else {
      var i :| 0 <= i < |d.fields| && IsRequired(d, i) && d.fields[i].tag > 64;
      body, v := RepeatLeaks(S, ty, tag, i);
    }
  }

  lemma RepeatLeaks(S: Schema, ty: nat, tag: nat, i: nat) returns (body: seq<byte>, v: Msg)
    requires ValidSchema(S) && ty < |S| && 1 <= tag <= MAX_TAG
    requires IsRequired(S[ty], i) && S[ty].fields[i].tag > 64 && RequiredFrom(S[ty], 0) > 1
    ensures Leaks(S, ty, body, v) && |body| <= |S[ty].fields| * 16 + 16
  {
    var d, end := S[ty], Key(tag, 4);
    body := Again(S, d, i, false) + end;
    var p := AgainRead(S, ty, i, false, end, true, EmptyMsg(d));
    assert end + [] == end;
    AtEndGroup(S, ty, tag, [], p);
    v := p.m;
    RequiredSetSize(d, 0);
    var other := OtherThan(RequiredSet(d, 0), i);
    LacksOne(S, ty, v, other);
    RepeatSize(S, d, i, tag);
  }

  lemma RepeatSize(S: Schema, d: MsgDesc, i: nat, tag: nat)
    requires ValidSchema(S) && IsRequired(d, i) && ValidField(S, d.fields[i]) && d.fields[i].tag > 64 && tag <= MAX_TAG
    ensures |Again(S, d, i, false) + Key(tag, 4)| <= |d.fields| * 16 + 16
  {
    ShortTrivial(d.fields[i]);
    AgainSize(S, d, i, false);
    RequiredAtMost(d, 0);
    MulAtMost(RequiredFrom(d, 0), |RecordFor(S, d.fields[i], false)|, |d.fields|, 16);
    ShortKey(tag, 4);
  }

  lemma GapLeaks(S: Schema, ty: nat, tag: nat, i: nat) returns (body: seq<byte>, v: Msg)
    requires ValidSchema(S) && ty < |S| && 1 <= tag <= MAX_TAG && 16 * |S| < TWO_63
    requires Embeds(S[ty], i) && MayLack(S, S[ty].fields[i].kind.ty)
    ensures Leaks(S, ty, body, v) && |body| <= |S[ty].fields| * 16 + 16 * |S| + 32
  {
    var d, end := S[ty], Key(tag, 4);
    ShortKey(tag, 4);
    var p, marked, record;
    body, record, p, marked := FillingGroup(S, ty, i, end);
    var u := GapField(S, d.fields[i], |S|, end);
    var b := Enclosed(d.fields[i], Gap(S, d.fields[i].kind.ty, |S|));
    var q := InnerRead(S, ty, i, b, end, true, p, marked, u);
    assert end + [] == end;
    AtEndGroup(S, ty, tag, [], q);
    AllMarked(d, q, Mark(d, i, marked));
    v := q.m;
    LacksInside(S, ty, v, i, u);
  }

  /** Up to the gap: the required fields but for `i`, which comes next. */
  lemma FillingGroup(S: Schema, ty: nat, i: nat, end: seq<byte>)
    returns (body: seq<byte>, record: seq<byte>, p: Progress, marked: set<nat>)
    requires ValidSchema(S) && ty < |S| && Embeds(S[ty], i) && MayLack(S, S[ty].fields[i].kind.ty)
    ensures ValidField(S, S[ty].fields[i]) && Needs(S, S[ty].fields[i].kind.ty, |S|)
    ensures var fd := S[ty].fields[i];
            record == Key(fd.tag, WireOf(fd.kind)) + Enclosed(fd, Gap(S, fd.kind.ty, |S|))
    ensures 16 * |S| < TWO_63 ==> |body| <= |S[ty].fields| * 16 + 16 * |S| + 16 + |end|
    ensures DecodeMsg(S, ty, body, true, Start(S[ty], EmptyMsg(S[ty]))) == DecodeMsg(S, ty, record + end, true, p)
    ensures Filled(S[ty], i, false, 0, Start(S[ty], EmptyMsg(S[ty])), {}, p, marked)
  {
    var d := S[ty];
    var fd := d.fields[i];
    assert ValidType(S, d);
    record := Key(fd.tag, WireOf(fd.kind)) + Enclosed(fd, Gap(S, fd.kind.ty, |S|));
    body := Filling(S, d, false, i, 0) + (record + end);
    p, marked := FillingRead(S, ty, i, false, 0, record + end, true, Start(d, EmptyMsg(d)), {});
    if 16 * |S| < TWO_63 {
      GapSize(S, ty, i);
    }
  }

  lemma GapSize(S: Schema, ty: nat, i: nat)
    requires ValidSchema(S) && ty < |S| && Embeds(S[ty], i) && MayLack(S, S[ty].fields[i].kind.ty)
    requires 16 * |S| < TWO_63
    ensures |Filling(S, S[ty], false, i, 0)| <= |S[ty].fields| * 16
    ensures var fd := S[ty].fields[i];
            |Key(fd.tag, WireOf(fd.kind)) + Enclosed(fd, Gap(S, fd.kind.ty, |S|))| <= 16 * |S| + 16
  {
    var d := S[ty];
    assert ValidType(S, d);
    forall k: nat | IsRequired(d, k)
      ensures |RecordFor(S, d.fields[k], false)| <= 16
    {
      assert ValidField(S, d.fields[k]);
      ShortTrivial(d.fields[k]);
    }
    FillingSize(S, d, false, i, 0, 16);
    GapIsShort(S, d.fields[i].kind.ty, |S|);
    ShortEnclosed(d.fields[i], Gap(S, d.fields[i].kind.ty, |S|));
  }

  /** Up to the group: silent payloads for the required fields but for `i`, which comes next. */
  lemma FillingMessage(S: Schema, ty: nat, i: nat, record: seq<byte>)
    returns (s: seq<byte>, p: Progress, marked: set<nat>)
    requires ValidSchema(S) && ty < |S| && CanFill(S, S[ty]) && Embeds(S[ty], i)
    ensures s == Filling(S, S[ty], true, i, 0) + record
    ensures Unmarshal(S, ty, s) == DecodeMsg(S, ty, record, false, p)
    ensures Filled(S[ty], i, true, 0, Start(S[ty], EmptyMsg(S[ty])), {}, p, marked)
  {
    var d := S[ty];
    s := Filling(S, d, true, i, 0) + record;
    p, marked := FillingRead(S, ty, i, true, 0, record, false, Start(d, EmptyMsg(d)), {});
  }

  /** Silent payloads for the required fields, and a group that leaks. */
  lemma LeakInMessage(S: Schema, ty: nat, i: nat) returns (s: seq<byte>)
    requires ValidSchema(S) && ty < |S| && CanFill(S, S[ty]) && 16 * |S| < TWO_63
    requires Embeds(S[ty], i) && S[ty].fields[i].kind.Group? && !GroupSound(S, S[ty].fields[i].kind.ty)
    ensures !ReportsAll(S, ty, s)
    ensures var inner := S[S[ty].fields[i].kind.ty];
            |s| <= |Filling(S, S[ty], true, i, 0)| + |inner.fields| * 16 + 16 * |S| + 40
  {
    ShortKey(S[ty].fields[i].tag, 3);
    var d := S[ty];
    var fd := d.fields[i];
    assert ValidType(S, d) && ValidField(S, fd);
    var b, v := GroupLeaks(S, fd.kind.ty, fd.tag);
    assert b + [] == b;
    var record := Key(fd.tag, 3) + b;
    var p, marked;
    s, p, marked := FillingMessage(S, ty, i, record);
    assert record + [] == record;
    var q := InnerRead(S, ty, i, b, [], false, p, marked, v);
    AtEnd(S, ty, q);
    AllMarked(d, q, Mark(d, i, marked));
    LacksInside(S, ty, q.m, i, v);
  }

  lemma UnreportedIsIncomplete(S: Schema, ty: nat, s: seq<byte>)
    requires ty < |S| && !Reports(S, ty, s)
    ensures !ReportsAll(S, ty, s)
  {
    var m := Unmarshal(S, ty, s).m;
    var i :| 0 <= i < |S[ty].fields| && IsRequired(S[ty], i) && FieldVals(m, i) == [];
    LacksOne(S, ty, m, i);
  }

  lemma MustBeDependable(S: Schema, ty: nat)
    requires ValidSchema(S) && ty < |S| && 16 * |S| < TWO_63 && DeeplyReliable(S, ty)
    ensures Dependable(S, ty)
  {
    forall s: seq<byte> ensures Reports(S, ty, s) {
      assert ReportsAll(S, ty, s);
      if !Reports(S, ty, s) {
        UnreportedIsIncomplete(S, ty, s);
      }
    }
    ReliableIff(S, ty);
    if !Dependable(S, ty) {
      var i: nat :| Embeds(S[ty], i) && S[ty].fields[i].kind.Group? && !GroupSound(S, S[ty].fields[i].kind.ty);
      var s := LeakInMessage(S, ty, i);
    }
  }

  // ---- The law ----

  /** Messages of a dependable type are reported whenever they lack a required field anywhere, if the
      types of the messages inside, at any depth, are dependable too. */
  lemma DependableReports(S: Schema, types: set<nat>)
    requires ValidSchema(S) && Closed(S, types) && forall ty :: ty in types ==> Dependable(S, ty)
    ensures forall ty :: ty in types ==> DeeplyReliable(S, ty)
  {
    forall ty, s: seq<byte> | ty in types ensures ReportsAll(S, ty, s) {
      MessageTells(S, types, ty, s, EmptyMsg(S[ty]));
    }
  }

  // ---- The smallest case ----

  /** An optional group with an optional message with a required number. */
  const GROUP_SCHEMA: Schema := [MsgDesc([FieldDesc(1, Group(1), Optional)], false),
                                 MsgDesc([FieldDesc(1, Message(2), Optional)], false),
                                 MsgDesc([FieldDesc(1, Numeric(Int32, VarintFormat), Required)], false)]

  lemma OneByte(s: seq<byte>)
    requires s != [] && s[0] < 128
    ensures VarintAt(s) == Value(s[0], 1)
  {
    Varints.ScanStep(s);
  }

  /** The inside of the group: a message without its required field, whose report the group drops. */
  lemma InsideGroup()
    ensures DecodeMsg(GROUP_SCHEMA, 1, [0x0a, 0x00, 0x0c], true, Start(GROUP_SCHEMA[1], EmptyMsg(GROUP_SCHEMA[1])))
            == Done(Msg([Field([Sub(EmptyMsg(GROUP_SCHEMA[2]))])], []), [], false)
  {
    var S := GROUP_SCHEMA;
    var s: seq<byte> := [0x0a, 0x00, 0x0c];
    var p := Start(S[1], EmptyMsg(S[1]));
    OneByte(s);
    OneByte(s[1..]);
    OneByte(s[2..]);
    assert s[1..][1..] == s[2..] && s[2..][1..] == [] && s[1..][1..1] == [];
    AtEnd(S, 2, Start(S[2], EmptyMsg(S[2])));
    assert RequiredFrom(S[1], 0) == 0;
    var f := DecodeField(S, S[1].fields[0], 2, s[1..], []);
    assert f == Got([Sub(EmptyMsg(S[2]))], s[2..], f.missing);
    assert FieldIndex(S[1], 1) == Some(0);
    assert DecodeMsg(S, 1, s, true, p) == DecodeMsg(S, 1, s[2..], true, Step(S[1], 0, p, f.vals, f.missing));
  }

  lemma GroupSchemaIsValid()
    ensures ValidSchema(GROUP_SCHEMA) && forall ty :: 0 <= ty < 3 ==> Countable(GROUP_SCHEMA[ty])
  {
    forall ty | 0 <= ty < 3 ensures Countable(GROUP_SCHEMA[ty]) && ValidType(GROUP_SCHEMA, GROUP_SCHEMA[ty]) {
      assert |GROUP_SCHEMA[ty].fields| == 1;
    }
  }

  lemma GroupAround(inner: Msg)
    requires DecodeMsg(GROUP_SCHEMA, 1, [0x0a, 0x00, 0x0c], true, Start(GROUP_SCHEMA[1], EmptyMsg(GROUP_SCHEMA[1])))
             == Done(inner, [], false)
    ensures DecodeField(GROUP_SCHEMA, GROUP_SCHEMA[0].fields[0], 3, [0x0a, 0x00, 0x0c], [])
            == Got([Sub(inner)], [], false)
  {
  }

  lemma AroundGroup(inner: Msg)
    requires DecodeMsg(GROUP_SCHEMA, 1, [0x0a, 0x00, 0x0c], true, Start(GROUP_SCHEMA[1], EmptyMsg(GROUP_SCHEMA[1])))
             == Done(inner, [], false)
    ensures Unmarshal(GROUP_SCHEMA, 0, [0x0b, 0x0a, 0x00, 0x0c]) == Done(Msg([Field([Sub(inner)])], []), [], false)
  {
    var S := GROUP_SCHEMA;
    var s: seq<byte> := [0x0b, 0x0a, 0x00, 0x0c];
    var p := Start(S[0], EmptyMsg(S[0]));
    OneByte(s);
    assert s[1..] == [0x0a, 0x00, 0x0c];
    assert FieldIndex(S[0], 1) == Some(0);
    GroupAround(inner);
    var q := Step(S[0], 0, p, [Sub(inner)], false);
    assert DecodeMsg(S, 0, s, false, p) == DecodeMsg(S, 0, [], false, q);
    AtEnd(S, 0, q);
    assert RequiredFrom(S[0], 0) == 0;
  }

  /** Every type counts its own required fields exactly, and still nothing is reported. */
  lemma GroupsHideWhatIsInside()
    ensures ValidSchema(GROUP_SCHEMA) && forall ty :: 0 <= ty < 3 ==> Countable(GROUP_SCHEMA[ty])
    ensures !ReportsAll(GROUP_SCHEMA, 0, [0x0b, 0x0a, 0x00, 0x0c])
  {
    var S := GROUP_SCHEMA;
    var inner := Msg([Field([Sub(EmptyMsg(S[2]))])], []);
    GroupSchemaIsValid();
    InsideGroup();
    AroundGroup(inner);
    LacksOne(S, 2, EmptyMsg(S[2]), 0);
    LacksInside(S, 1, inner, 0, EmptyMsg(S[2]));
    LacksInside(S, 0, Msg([Field([Sub(inner)])], []), 0, inner);
  }
}
