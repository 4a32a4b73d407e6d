/** That the price of a type is exactly the length of the shortest bytes that are decoded as a message of
    the type without a report: bytes of that length, and that none are shorter. */
module ProtoSilent {
  import opened Bytes
  import opened Sequences
  import opened Varints
  import opened ProtoVarint
  import opened ProtoNumbers
  import opened ProtoWire
  import opened ProtoSchema
  import opened ProtoDecode
  import opened ProtoRecords
  import opened ProtoAdvance
  import opened ProtoLoop
  import opened ProtoFill
  import opened ProtoPrice

  /** The bytes are decoded without a report. */
  predicate IsSilent(S: Schema, ty: nat, s: seq<byte>)
    requires ty < |S|
  {
    Unmarshal(S, ty, s).Done? && !Unmarshal(S, ty, s).missing
  }

  // ---- Bytes of the least size ----

  /** For every required field from `k` on the record that is picked. */
  function Chosen(d: MsgDesc, bodies: seq<seq<byte>>, costs: seq<Size>, k: nat): seq<byte>
    requires k <= |bodies| == |costs| == |d.fields|
    decreases |costs| - k
  {
    if k == |costs| then []
    else
      (if IsRequired(d, k) then RecordOf(d, bodies, Pick(d, costs, k)) else []) + Chosen(d, bodies, costs, k + 1)
  }

  function RecordOf(d: MsgDesc, bodies: seq<seq<byte>>, i: nat): seq<byte>
    requires i < |bodies| == |d.fields|
  {
    Key(d.fields[i].tag, WireOf(d.fields[i].kind)) + bodies[i]
  }

  /** The shortest group that reports nothing; what is missing inside it is dropped. */
  function LeastGroup(d: MsgDesc): seq<byte> {
    Chosen(d, GroupBodies(d), GroupCosts(d), 0) + [END_GROUP]
  }

  function GroupBodies(d: MsgDesc): seq<seq<byte>> {
    seq(|d.fields|, i requires 0 <= i < |d.fields| => Trivial(d.fields[i]))
  }

  function LeastBodies(S: Schema, d: MsgDesc, n: nat): seq<seq<byte>>
    decreases n, 1
  {
    seq(|d.fields|, i requires 0 <= i < |d.fields| => LeastBody(S, d.fields[i], n))
  }

  function LeastBody(S: Schema, fd: FieldDesc, n: nat): seq<byte>
    decreases n, 0
  {
    match fd.kind
    case Message(ty) => if n == 0 then [] else LenPrefixed(LeastBytes(S, ty, n - 1))
    case Group(ty) => if ty < |S| then LeastGroup(S[ty]) else []
    case _ => Trivial(fd)
  }

  function LeastBytes(S: Schema, ty: nat, n: nat): seq<byte>
    decreases n, 2
  {
    if ty < |S| then Chosen(S[ty], LeastBodies(S, S[ty], n), Costs(S, S[ty], n), 0) else []
  }

  /** The bodies are decoded everywhere and have the sizes they are said to have. */
  ghost predicate Fits(S: Schema, d: MsgDesc, bodies: seq<seq<byte>>, costs: seq<Size>, quiet: bool)
    requires |bodies| == |costs| == |d.fields|
  {
    forall i: nat :: i < |costs| && costs[i].Bytes? && IsRequired(d, i) ==>
      && costs[i].n == |RecordOf(d, bodies, i)|
      && Decodes(S, d.fields[i], bodies[i], quiet)
  }

  lemma {:induction false} ChosenSize(S: Schema, d: MsgDesc, bodies: seq<seq<byte>>, costs: seq<Size>, quiet: bool,
                                      k: nat)
    requires k <= |bodies| == |costs| == |d.fields| && Fits(S, d, bodies, costs, quiet) && Total(d, costs, k).Bytes?
    ensures |Chosen(d, bodies, costs, k)| == Total(d, costs, k).n
    decreases |costs| - k
  {
    if k < |costs| {
      ChosenSize(S, d, bodies, costs, quiet, k + 1);
      if IsRequired(d, k) {
        var j := Pick(d, costs, k);
        assert IsRequired(d, j) && costs[j].Bytes?;
      }
    }
  }

  /** Only fields before `k` are in the bitmap. */
  ghost predicate SeenBefore(d: MsgDesc, p: Progress, k: nat) {
    forall i: nat :: k <= i && IsRequired(d, i) ==> d.fields[i].tag !in p.seen
  }

  /** One count less, and no later field seen. */
  ghost predicate Down(d: MsgDesc, k: nat, n: nat, quiet: bool, p: Progress, q: Progress) {
    q.required == p.required - n && (quiet ==> q.missing == p.missing) && SeenBefore(d, q, k)
  }

  /** Fields that have no price stay as they are. */
  ghost predicate Stays(costs: seq<Size>, p: Progress, q: Progress) {
    && |q.m.fields| == |p.m.fields|
    && forall j: nat :: j < |costs| && costs[j].Never? ==> FieldVals(q.m, j) == FieldVals(p.m, j)
  }

  lemma PickedRead(S: Schema, ty: nat, bodies: seq<seq<byte>>, costs: seq<Size>, quiet: bool, k: nat,
                   tail: seq<byte>, group: bool, p: Progress)
    returns (q: Progress)
    requires ValidSchema(S) && ty < |S| && k < |bodies| == |costs| == |S[ty].fields|
    requires Fits(S, S[ty], bodies, costs, quiet) && IsRequired(S[ty], k) && Price(S[ty], costs, k).Bytes?
    requires SeenBefore(S[ty], p, k)
    ensures DecodeMsg(S, ty, RecordOf(S[ty], bodies, Pick(S[ty], costs, k)) + tail, group, p)
            == DecodeMsg(S, ty, tail, group, q)
    ensures Down(S[ty], k + 1, 1, quiet, p, q) && Stays(costs, p, q)
  {
    var d := S[ty];
    var j := Pick(d, costs, k);
    assert ValidType(S, d) && IsRequired(d, j) && costs[j].Bytes?;
    var f := RecordRead(S, ty, j, bodies[j], tail, group, p, quiet);
    q := Step(d, j, p, f.vals, f.missing);
  }

  lemma {:induction false} ChosenRead(S: Schema, ty: nat, bodies: seq<seq<byte>>, costs: seq<Size>, quiet: bool,
                                      k: nat, tail: seq<byte>, group: bool, p: Progress)
    returns (q: Progress)
    requires ValidSchema(S) && ty < |S| && k <= |bodies| == |costs| == |S[ty].fields|
    requires Fits(S, S[ty], bodies, costs, quiet) && Total(S[ty], costs, k).Bytes? && SeenBefore(S[ty], p, k)
    ensures DecodeMsg(S, ty, Chosen(S[ty], bodies, costs, k) + tail, group, p) == DecodeMsg(S, ty, tail, group, q)
    ensures q.required == p.required - RequiredFrom(S[ty], k) && (quiet ==> q.missing == p.missing)
    ensures Stays(costs, p, q)
    decreases |costs| - k
  {
    var d := S[ty];
    if k == |costs| {
      assert [] + tail == tail;
      q := p;
    } else {
      var more := Chosen(d, bodies, costs, k + 1);
      if IsRequired(d, k) {
        Associate(RecordOf(d, bodies, Pick(d, costs, k)), more, tail);
        var p' := PickedRead(S, ty, bodies, costs, quiet, k, more + tail, group, p);
        q := ChosenRead(S, ty, bodies, costs, quiet, k + 1, tail, group, p');
      } else {
        assert [] + more == more;
        q := ChosenRead(S, ty, bodies, costs, quiet, k + 1, tail, group, p);
      }
    }
  }

  lemma GroupFits(S: Schema, ty: nat)
    requires ValidSchema(S) && ty < |S|
    ensures Fits(S, S[ty], GroupBodies(S[ty]), GroupCosts(S[ty]), false)
  {
    var d := S[ty];
    forall i: nat | IsRequired(d, i) ensures Decodes(S, d.fields[i], GroupBodies(d)[i], false) {
      var fd := d.fields[i];
      assert ValidType(S, d) && ValidField(S, fd);
      TrivialDecodes(S, fd);
      Louder(S, fd, Trivial(fd), fd.kind.Numeric? || fd.kind.Text?);
    }
  }

  /** In a group every field has a price. */
  lemma {:induction false} GroupTotal(d: MsgDesc, k: nat)
    requires k <= |d.fields|
    ensures Total(d, GroupCosts(d), k).Bytes?
    decreases |d.fields| - k
  {
    if k < |d.fields| {
      GroupTotal(d, k + 1);
    }
  }

  lemma LeastGroupDecodes(S: Schema, fd: FieldDesc)
    requires ValidSchema(S) && ValidField(S, fd) && fd.kind.Group?
    ensures Decodes(S, fd, LeastGroup(S[fd.kind.ty]), true)
    ensures Total(S[fd.kind.ty], GroupCosts(S[fd.kind.ty]), 0) == Bytes(|LeastGroup(S[fd.kind.ty])| - 1)
  {
    var ty := fd.kind.ty;
    var d := S[ty];
    var records := Chosen(d, GroupBodies(d), GroupCosts(d), 0);
    GroupFits(S, ty);
    GroupTotal(d, 0);
    ChosenSize(S, d, GroupBodies(d), GroupCosts(d), false, 0);
    forall rest: seq<byte>, vals: seq<Value>
      ensures DecodesTo(DecodeField(S, fd, 3, LeastGroup(d) + rest, vals), rest, true)
    {
      var p := Start(d, Target(d, fd, vals));
      Associate(records, [END_GROUP], rest);
      var q := ChosenRead(S, ty, GroupBodies(d), GroupCosts(d), false, 0, [END_GROUP] + rest, true, p);
      AtAnyEnd(S, ty, rest, q);
    }
  }

  lemma SilentMessageDecodes(S: Schema, fd: FieldDesc, b: seq<byte>)
    requires ValidSchema(S) && ValidField(S, fd) && fd.kind.Message? && |b| < TWO_63 && IsSilent(S, fd.kind.ty, b)
    ensures Decodes(S, fd, LenPrefixed(b), true)
  {
    var ty := fd.kind.ty;
    forall rest: seq<byte>, vals: seq<Value>
      ensures DecodesTo(DecodeField(S, fd, 2, LenPrefixed(b) + rest, vals), rest, true)
    {
      RawRoundTrip(b, rest);
      SameReport(S, ty, b, false, Start(S[ty], EmptyMsg(S[ty])), Start(S[ty], Target(S[ty], fd, vals)));
    }
  }

  /** Every record that has a price has a body of just that price, which is decoded silently. */
  lemma {:induction false} LeastBodyDecodes(S: Schema, fd: FieldDesc, n: nat)
    requires ValidSchema(S) && ValidField(S, fd) && Cost(S, fd, n).Bytes?
    ensures Decodes(S, fd, LeastBody(S, fd, n), true)
    ensures Cost(S, fd, n).n == KeySize(fd) + |LeastBody(S, fd, n)|
    decreases n, 0
  {
    match fd.kind {
      case Message(ty) =>
        LeastBytesDecode(S, ty, n - 1);
        SilentMessageDecodes(S, fd, LeastBytes(S, ty, n - 1));
      case Group(ty) =>
        GroupTotal(S[ty], 0);
        LeastGroupDecodes(S, fd);
      case _ => TrivialDecodes(S, fd);
    }
  }

  lemma {:induction false} LeastBytesDecode(S: Schema, ty: nat, n: nat)
    requires ValidSchema(S) && LeastSize(S, ty, n).Bytes?
    ensures |LeastBytes(S, ty, n)| == LeastSize(S, ty, n).n && IsSilent(S, ty, LeastBytes(S, ty, n))
    decreases n, 1
  {
    var d := S[ty];
    var bodies, costs := LeastBodies(S, d, n), Costs(S, d, n);
    forall i: nat | i < |costs| && costs[i].Bytes? && IsRequired(d, i)
      ensures costs[i].n == |RecordOf(d, bodies, i)| && Decodes(S, d.fields[i], bodies[i], true)
    {
      assert ValidType(S, d) && ValidField(S, d.fields[i]);
      LeastBodyDecodes(S, d.fields[i], n);
    }
    ChosenSize(S, d, bodies, costs, true, 0);
    var q := ChosenRead(S, ty, bodies, costs, true, 0, [], false, Start(d, EmptyMsg(d)));
    assert LeastBytes(S, ty, n) + [] == LeastBytes(S, ty, n);
    AtEnd(S, ty, q);
  }

  // ---- No bytes are shorter ----

  /** The bitmap has the numbers of the fields in `marked`. */
  ghost predicate Bitmap(d: MsgDesc, seen: set<nat>, marked: set<nat>) {
    forall i: nat :: IsRequired(d, i) && d.fields[i].tag <= 64 ==> (d.fields[i].tag in seen <==> i in marked)
  }

  lemma SameTag(d: MsgDesc, i: nat, j: nat)
    requires Sorted(d) && i < |d.fields| && j < |d.fields| && d.fields[i].tag == d.fields[j].tag
    ensures i == j
  {
    assert !(i < j) && !(j < i);
  }

  lemma BitmapStep(d: MsgDesc, i: nat, seen: set<nat>, marked: set<nat>)
    requires Sorted(d) && IsRequired(d, i) && Bitmap(d, seen, marked)
    ensures Bitmap(d, seen + {d.fields[i].tag}, marked + {i})
  {
    forall j: nat | j < |d.fields| && d.fields[j].tag == d.fields[i].tag ensures j == i {
      SameTag(d, i, j);
    }
  }

  /** The counter is down by the fields in `marked`, which the bitmap knows, and `extra` other records. */
  ghost predicate Tracks(d: MsgDesc, costs: seq<Size>, p: Progress, marked: set<nat>, extra: nat)
    requires |costs| == |d.fields|
  {
    && (forall i :: i in marked ==> IsRequired(d, i) && d.fields[i].tag <= 64)
    && Bitmap(d, p.seen, marked)
    && p.required == RequiredFrom(d, 0) - |marked| - extra
    && (extra > 0 ==> Spare(d, costs).Bytes?)
  }

  /** `paid` bytes are enough for what is owed, where every extra record has been paid for already. */
  ghost predicate Pays(d: MsgDesc, costs: seq<Size>, marked: set<nat>, extra: nat, paid: int)
    requires |costs| == |d.fields|
  {
    var owed := Owed(d, costs, marked, 0);
    owed.Bytes? && owed.n <= paid + Credit(Spare(d, costs), extra)
  }

  /** `c` bytes more pay for what is owed before, if what is owed afterwards can be paid. */
  ghost predicate Covers(d: MsgDesc, costs: seq<Size>, marked: set<nat>, extra: nat, marked': set<nat>, extra': nat,
                         c: int)
    requires |costs| == |d.fields|
  {
    var owed, owed' := Owed(d, costs, marked, 0), Owed(d, costs, marked', 0);
    var spare := Spare(d, costs);
    owed'.Bytes? ==> owed.Bytes? && owed.n - Credit(spare, extra) <= owed'.n - Credit(spare, extra') + c
  }

  lemma CoversPays(d: MsgDesc, costs: seq<Size>, marked: set<nat>, extra: nat, marked': set<nat>, extra': nat, c: int,
                   paid: int)
    requires |costs| == |d.fields| && Covers(d, costs, marked, extra, marked', extra', c)
    requires Pays(d, costs, marked', extra', paid)
    ensures Pays(d, costs, marked, extra, paid + c)
  {
  }

  function Credit(spare: Size, extra: nat): nat {
    if spare.Bytes? then extra * spare.n else 0
  }

  lemma CreditMore(spare: Size, extra: nat)
    requires spare.Bytes?
    ensures Credit(spare, extra + 1) == Credit(spare, extra) + spare.n
  {
  }

  /** How many required fields from `k` on are not marked. */
  ghost function Unmarked(d: MsgDesc, marked: set<nat>, k: nat): nat
    requires k <= |d.fields|
    decreases |d.fields| - k
  {
    if k == |d.fields| then 0
    else (if IsRequired(d, k) && k !in marked then 1 else 0) + Unmarked(d, marked, k + 1)
  }

  lemma {:induction false} UnmarkedIs(d: MsgDesc, marked: set<nat>, k: nat)
    requires k <= |d.fields|
    ensures Unmarked(d, marked, k) == |RequiredSet(d, k) - marked|
    decreases |d.fields| - k
  {
    if k == |d.fields| {
      assert RequiredSet(d, k) == {};
    } else {
      UnmarkedIs(d, marked, k + 1);
      if IsRequired(d, k) && k !in marked {
        assert RequiredSet(d, k) - marked == (RequiredSet(d, k + 1) - marked) + {k};
      } else {
        assert RequiredSet(d, k) - marked == RequiredSet(d, k + 1) - marked;
      }
    }
  }

  /** Fields that are not marked cost no more than as many spare records. */
  lemma {:induction false} OwedAtMost(d: MsgDesc, costs: seq<Size>, marked: set<nat>, k: nat)
    requires k <= |costs| == |d.fields|
    ensures Unmarked(d, marked, k) == 0 ==> Owed(d, costs, marked, k) == Bytes(0)
    ensures Spare(d, costs).Bytes? ==>
              AtMost(Owed(d, costs, marked, k), Bytes(Credit(Spare(d, costs), Unmarked(d, marked, k))))
    decreases |costs| - k
  {
    if k < |costs| {
      OwedAtMost(d, costs, marked, k + 1);
      if IsRequired(d, k) && k !in marked && Spare(d, costs).Bytes? {
        CreditMore(Spare(d, costs), Unmarked(d, marked, k + 1));
      }
    }
  }

  lemma CreditGrows(spare: Size, m: nat, n: nat)
    requires m <= n
    ensures Credit(spare, m) <= Credit(spare, n)
  {
    if spare.Bytes? {
      MulMonotone(m, n, spare.n);
    }
  }

  /** Once the counter has run down, nothing is owed that is not paid for. */
  lemma EndPays(d: MsgDesc, costs: seq<Size>, p: Progress, marked: set<nat>, extra: nat)
    requires |costs| == |d.fields| && Tracks(d, costs, p, marked, extra) && p.required <= 0
    ensures Pays(d, costs, marked, extra, 0)
  {
    RequiredSetSize(d, 0);
    OwedAtMost(d, costs, marked, 0);
    UnmarkedIs(d, marked, 0);
    var all := RequiredSet(d, 0);
    assert marked <= all;
    assert |all - marked| == |all| - |marked|;
    CreditGrows(Spare(d, costs), |all - marked|, extra);
  }

  /** Marking a field pays its price. */
  lemma {:induction false} OwedMark(d: MsgDesc, costs: seq<Size>, marked: set<nat>, i: nat, k: nat)
    requires k <= |costs| == |d.fields| && IsRequired(d, i) && i !in marked
    ensures Owed(d, costs, marked, k)
            == if k <= i then Plus(Price(d, costs, i), Owed(d, costs, marked + {i}, k))
               else Owed(d, costs, marked + {i}, k)
    decreases |costs| - k
  {
    if k < |costs| {
      OwedMark(d, costs, marked, i, k + 1);
    }
  }

  /** A record of required field `i` is counted; it takes `c` bytes. */
  lemma CountPays(d: MsgDesc, costs: seq<Size>, i: nat, p: Progress, q: Progress, marked: set<nat>, extra: nat, c: nat)
    returns (marked': set<nat>, extra': nat)
    requires |costs| == |d.fields| && Sorted(d) && Tracks(d, costs, p, marked, extra)
    requires IsRequired(d, i) && q.required == Count(d.fields[i], p).required && q.seen == Count(d.fields[i], p).seen
    requires i < |costs| && AtMost(costs[i], Bytes(c))
    ensures Tracks(d, costs, q, marked', extra')
    ensures Covers(d, costs, marked, extra, marked', extra', c)
  {
    marked', extra' := marked, extra;
    if d.fields[i].tag > 64 {
      extra' := extra + 1;
      assert Repeatable(d, costs, i);
      CreditMore(Spare(d, costs), extra);
    } else if d.fields[i].tag !in p.seen {
      marked' := marked + {i};
      BitmapStep(d, i, p.seen, marked);
      OwedMark(d, costs, marked, i, 0);
    }
  }

  // ---- What a record takes ----

  lemma VarintTakes(s: seq<byte>)
    requires VarintAt(s).Value?
    ensures |Varint(VarintAt(s).x)| <= VarintAt(s).size
  {
    ScanBound(s, []);
    VarintSize(VarintAt(s).x, VarintAt(s).size);
  }

  lemma SameGroupsOfSeven(u: nat, tag: nat, wire: nat, q: nat)
    requires u / 8 == tag && wire < 8 && u < 128 * q
    ensures 8 * tag + wire < 128 * q
  {
  }

  /** A key takes as many bytes for every wire type. */
  lemma KeyTakes(s: seq<byte>, tag: nat, wire: nat)
    requires VarintAt(s).Value? && VarintAt(s).x / 8 == tag && wire < 8
    ensures |Key(tag, wire)| <= VarintAt(s).size
  {
    VarintTakes(s);
    var u := VarintAt(s).x;
    var k := |Varint(u)|;
    VarintSize(u, k);
    SameGroupsOfSeven(u, tag, wire, Pow128(k - 1));
    VarintSize(8 * tag + wire, k);
  }

  lemma RawTakes(s: seq<byte>)
    requires RawAt(s).Some?
    ensures var (i, j) := RawAt(s).value; |Varint(j - i)| <= i && j - i < TWO_63
  {
    VarintTakes(s);
  }

  lemma {:induction false} GroupTakes(S: Schema, ty: nat, s: seq<byte>, p: Progress)
    requires ty < |S| && DecodeMsg(S, ty, s, true, p).Done?
    ensures |DecodeMsg(S, ty, s, true, p).rest| < |s|
    decreases |s|
  {
    ByRecord(S, ty, s, true, p);
    match FirstRecord(S, ty, s, true) {
      case Strange(saved, rest) => GroupTakes(S, ty, rest, Keep(S[ty], p, saved));
      case Known(i, wire, body) =>
        var f := DecodeField(S, S[ty].fields[i], wire, body, FieldVals(p.m, i));
        GroupTakes(S, ty, f.rest, Step(S[ty], i, p, f.vals, f.missing));
      case _ =>
    }
  }

  /** No element of a required field takes less than the trivial one. */
  lemma BodyTakes(S: Schema, fd: FieldDesc, wire: nat, s: seq<byte>, vals: seq<Value>)
    requires fd.mode == Required && ValidField(S, fd) && DecodeField(S, fd, wire, s, vals).Got?
    ensures |Trivial(fd)| <= |s| - |DecodeField(S, fd, wire, s, vals).rest|
  {
    match fd.kind {
      case Group(ty) => GroupTakes(S, ty, s, Start(S[ty], Target(S[ty], fd, vals)));
      case _ =>
    }
  }

  function CostsIn(S: Schema, d: MsgDesc, group: bool, n: nat): seq<Size> {
    if group then GroupCosts(d) else Costs(S, d, n)
  }

  /** A record that is decoded - in a message without a report - takes no less than its price. */
  lemma {:induction false} RecordTakes(S: Schema, ty: nat, n: nat, s: seq<byte>, group: bool, i: nat, wire: nat,
                                       body: seq<byte>, vals: seq<Value>)
    requires ValidSchema(S) && ty < |S| && FirstRecord(S, ty, s, group) == Known(i, wire, body)
    requires IsRequired(S[ty], i) && DecodeField(S, S[ty].fields[i], wire, body, vals).Got?
    requires !group ==> |s| <= n && !DecodeField(S, S[ty].fields[i], wire, body, vals).missing
    ensures AtMost(CostsIn(S, S[ty], group, n)[i],
                   Bytes(|s| - |DecodeField(S, S[ty].fields[i], wire, body, vals).rest|))
    decreases |s|, 0
  {
    var fd := S[ty].fields[i];
    assert ValidType(S, S[ty]) && ValidField(S, fd);
    KeyTakes(s, fd.tag, WireOf(fd.kind));
    if group {
      BodyTakes(S, fd, wire, body, vals);
    } else {
      SilentBodyTakes(S, fd, n, wire, body, vals);
      assert CostsIn(S, S[ty], group, n)[i] == Cost(S, fd, n);
    }
  }

  lemma {:induction false} SilentBodyTakes(S: Schema, fd: FieldDesc, n: nat, wire: nat, s: seq<byte>, vals: seq<Value>)
    requires ValidSchema(S) && ValidField(S, fd) && fd.mode == Required && |s| < n
    requires DecodeField(S, fd, wire, s, vals).Got? && !DecodeField(S, fd, wire, s, vals).missing
    ensures AtMost(Cost(S, fd, n), Bytes(KeySize(fd) + |s| - |DecodeField(S, fd, wire, s, vals).rest|))
    decreases |s|, 4
  {
    match fd.kind {
      case Message(inner) =>
        RawTakes(s);
        var (a, b) := RawAt(s).value;
        SilentTakes(S, inner, n - 1, s[a..b], Target(S[inner], fd, vals));
        VarintGrows(LeastSize(S, inner, n - 1).n, b - a);
      case Group(inner) =>
        GroupTotal(S[inner], 0);
        Spends(S, inner, 0, s, true, Start(S[inner], Target(S[inner], fd, vals)), {}, 0);
      case _ => BodyTakes(S, fd, wire, s, vals);
    }
  }

  /** It pays for the field it is counted for. */
  lemma {:induction false} RecordPays(S: Schema, ty: nat, n: nat, s: seq<byte>, group: bool, i: nat, wire: nat,
                                      body: seq<byte>, p: Progress, marked: set<nat>, extra: nat)
    returns (marked': set<nat>, extra': nat)
    requires ValidSchema(S) && ty < |S| && FirstRecord(S, ty, s, group) == Known(i, wire, body)
    requires DecodeField(S, S[ty].fields[i], wire, body, FieldVals(p.m, i)).Got? && (!group ==> |s| <= n)
    requires (!group && p.missing) || Tracks(S[ty], CostsIn(S, S[ty], group, n), p, marked, extra)
    ensures var f := DecodeField(S, S[ty].fields[i], wire, body, FieldVals(p.m, i));
            var q := Step(S[ty], i, p, f.vals, f.missing);
            var costs := CostsIn(S, S[ty], group, n);
            && ((!group && q.missing) || Tracks(S[ty], costs, q, marked', extra'))
            && Covers(S[ty], costs, marked, extra, marked', extra', |s| - |f.rest|)
    decreases |s|, 1
  {
    var d, costs := S[ty], CostsIn(S, S[ty], group, n);
    var f := DecodeField(S, d.fields[i], wire, body, FieldVals(p.m, i));
    var q := Step(d, i, p, f.vals, f.missing);
    marked', extra' := marked, extra;
    if IsRequired(d, i) && (group || !q.missing) {
      assert ValidType(S, d);
      RecordTakes(S, ty, n, s, group, i, wire, body, FieldVals(p.m, i));
      marked', extra' := CountPays(d, costs, i, p, q, marked, extra, |s| - |f.rest|);
    }
  }

  /** What is left to read of a message without a report pays for what is owed. */
  lemma {:induction false} Spends(S: Schema, ty: nat, n: nat, s: seq<byte>, group: bool, p: Progress, marked: set<nat>,
                                  extra: nat)
    requires ValidSchema(S) && ty < |S| && (!group ==> |s| <= n)
    requires (!group && p.missing) || Tracks(S[ty], CostsIn(S, S[ty], group, n), p, marked, extra)
    ensures var r := DecodeMsg(S, ty, s, group, p);
            r.Done? && !r.missing ==>
              Pays(S[ty], CostsIn(S, S[ty], group, n), marked, extra, |s| - |r.rest| - if group then 1 else 0)
    decreases |s|, 2
  {
    var d, costs := S[ty], CostsIn(S, S[ty], group, n);
    ByRecord(S, ty, s, group, p);
    match FirstRecord(S, ty, s, group) {
      case Broken =>
      case End(_) =>
        if !Report(group, p) {
          EndPays(d, costs, p, marked, extra);
        }
      case Strange(saved, rest) => Spends(S, ty, n, rest, group, Keep(d, p, saved), marked, extra);
      case Known(i, wire, body) =>
        var f := DecodeField(S, d.fields[i], wire, body, FieldVals(p.m, i));
        if f.Got? {
          var marked', extra' := RecordPays(S, ty, n, s, group, i, wire, body, p, marked, extra);
          Spends(S, ty, n, f.rest, group, Step(d, i, p, f.vals, f.missing), marked', extra');
          var r := DecodeMsg(S, ty, s, group, p);
          if r.Done? && !r.missing {
            var end := if group then 1 else 0;
            CoversPays(d, costs, marked, extra, marked', extra', |s| - |f.rest|, |f.rest| - |r.rest| - end);
          }
        }
    }
  }

  /** Bytes that are decoded into any message without a report are no fewer than the least size. */
  lemma {:induction false} SilentTakes(S: Schema, ty: nat, n: nat, s: seq<byte>, m: Msg)
    requires ValidSchema(S) && ty < |S| && |s| <= n
    requires DecodeMsg(S, ty, s, false, Start(S[ty], m)).Done? && !DecodeMsg(S, ty, s, false, Start(S[ty], m)).missing
    ensures AtMost(LeastSize(S, ty, n), Bytes(|s|))
    decreases |s|, 3
  {
    Spends(S, ty, n, s, false, Start(S[ty], m), {}, 0);
  }

  // ---- The exact price ----

  /** The schema decides whether a message of the type can be decoded without a report, and says how
      short it can be: exactly as short as `LeastSize` after one round for every type. */
  lemma ShortestSilent(S: Schema, ty: nat)
    requires ValidSchema(S) && ty < |S|
    ensures match LeastSize(S, ty, |S|)
            case Never => forall s: seq<byte> :: !IsSilent(S, ty, s)
            case Bytes(k) =>
              && |LeastBytes(S, ty, |S|)| == k && IsSilent(S, ty, LeastBytes(S, ty, |S|))
              && forall s: seq<byte> :: IsSilent(S, ty, s) ==> k <= |s|
  {
    if LeastSize(S, ty, |S|).Bytes? {
      LeastBytesDecode(S, ty, |S|);
    }
    forall s: seq<byte> | IsSilent(S, ty, s) ensures AtMost(LeastSize(S, ty, |S|), Bytes(|s|)) {
      SilentTakes(S, ty, |s|, s, EmptyMsg(S[ty]));
      EnoughLevels(S, ty, |s|);
    }
  }

  /** The field has a payload that is decoded without a report. */
  predicate Fillable(S: Schema, fd: FieldDesc) {
    match fd.kind
    case Message(ty) => AtMost(LeastSize(S, ty, |S|), Bytes(TWO_63 - 1))
    case _ => true
  }

  /** Its shortest silent payload. */
  function SilentBody(S: Schema, fd: FieldDesc): seq<byte> {
    LeastBody(S, fd, |S| + 1)
  }

  /** A field is fillable by the schema if and only if it is by bytes. */
  lemma FillableIff(S: Schema, fd: FieldDesc)
    requires ValidSchema(S) && ValidField(S, fd)
    ensures Fillable(S, fd) <==> exists b: seq<byte> :: Decodes(S, fd, b, true)
    ensures Fillable(S, fd) ==> Decodes(S, fd, SilentBody(S, fd), true)
  {
    if Fillable(S, fd) {
      if fd.kind.Group? {
        GroupTotal(S[fd.kind.ty], 0);
      }
      LeastBodyDecodes(S, fd, |S| + 1);
    }
    if b: seq<byte> :| Decodes(S, fd, b, true) {
      assert DecodesTo(DecodeField(S, fd, WireOf(fd.kind), b + [], []), [], true);
      QuietIsFillable(S, fd, WireOf(fd.kind), b + [], []);
    }
  }

  /** Whatever is decoded without a report, into whatever message, shows that the field is fillable. */
  lemma QuietIsFillable(S: Schema, fd: FieldDesc, wire: nat, s: seq<byte>, vals: seq<Value>)
    requires ValidSchema(S) && DecodeField(S, fd, wire, s, vals).Got? && !DecodeField(S, fd, wire, s, vals).missing
    ensures Fillable(S, fd)
  {
    if fd.kind.Message? {
      var ty := fd.kind.ty;
      RawTakes(s);
      var (i, j) := RawAt(s).value;
      SilentTakes(S, ty, j - i, s[i..j], Target(S[ty], fd, vals));
      EnoughLevels(S, ty, j - i);
    }
  }
}
