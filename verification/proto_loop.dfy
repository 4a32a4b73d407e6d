/** The decoding loop one record at a time, and what its outcome does not depend on. */
module ProtoLoop {
  import opened Bytes
  import opened Varints
  import opened ProtoVarint
  import opened ProtoWire
  import opened ProtoSchema
  import opened ProtoDecode

  /** The record at the start of the input: an error, the end of the message, the bytes of an unknown
      record, or a field's key and what follows it. */
  datatype Record =
    | Broken
    | End(rest: seq<byte>)
    | Strange(saved: seq<byte>, rest: seq<byte>)
    | Known(i: nat, wire: nat, body: seq<byte>)

  function FirstRecord(S: Schema, ty: nat, s: seq<byte>, group: bool): (r: Record)
    requires ty < |S|
    ensures r.End? ==> |r.rest| <= |s|
    ensures r.Strange? ==> |r.rest| < |s|
    ensures r.Known? ==> |r.body| < |s| && r.i < |S[ty].fields| && S[ty].fields[r.i].mode != Reserved
  {
    if s == [] then (if group then Broken else End([]))
    else
      match VarintAt(s)
      case Value(u, k) =>
        var wire, tag, rest := u % 8, u / 8, s[k..];
        if wire == 4 then (if group then End(rest) else Broken)
        else if tag == 0 then Broken
        else
          (match FieldIndex(S[ty], tag)
           case None =>
             (match Skip(wire, rest)
              case None => Broken
              case Some(c) => Strange(Varint(u) + rest[..c], rest[c..]))
           case Some(i) => Known(i, wire, rest))
      case _ => Broken
  }

  /** The progress behind an unknown record. */
  function Keep(d: MsgDesc, p: Progress, saved: seq<byte>): Progress {
    p.(m := p.m.(unknown := if d.keepsUnknown then p.m.unknown + saved else p.m.unknown))
  }

  /** What a message reports at its end; a group looks at its own counter only. */
  function Report(group: bool, p: Progress): bool {
    (!group && p.missing) || p.required > 0
  }

  /** The outcome of the loop is that of its first record and then of the rest. */
  lemma ByRecord(S: Schema, ty: nat, s: seq<byte>, group: bool, p: Progress)
    requires ty < |S|
    ensures Unrolls(S, ty, s, group, p, FirstRecord(S, ty, s, group), DecodeMsg(S, ty, s, group, p))
  {
  }

  /** `all` is the outcome of the record `r` and then of the rest. */
  ghost predicate Unrolls(S: Schema, ty: nat, s: seq<byte>, group: bool, p: Progress, r: Record, all: Outcome)
    requires ty < |S|
  {
    match r
    case Broken => all == Failed
    case End(rest) => all == Done(p.m, rest, Report(group, p))
    case Strange(saved, rest) => all == DecodeMsg(S, ty, rest, group, Keep(S[ty], p, saved))
    case Known(i, wire, body) =>
      i < |S[ty].fields| &&
      var f := DecodeField(S, S[ty].fields[i], wire, body, FieldVals(p.m, i));
      if f.Bad? then all == Failed
      else |f.rest| < |s| && all == DecodeMsg(S, ty, f.rest, group, Step(S[ty], i, p, f.vals, f.missing))
  }

  /** Two outcomes that differ in the message at most. */
  predicate Alike(a: Outcome, b: Outcome) {
    a.Done? == b.Done? && (a.Done? ==> a.rest == b.rest && a.missing == b.missing)
  }

  predicate AlikeFields(a: FieldOutcome, b: FieldOutcome) {
    a.Got? == b.Got? && (a.Got? ==> a.rest == b.rest && a.missing == b.missing)
  }

  /** Whether decoding succeeds, where it ends and what it reports do not depend on the message that is
      decoded into. */
  lemma {:induction false} SameReport(S: Schema, ty: nat, s: seq<byte>, group: bool, p: Progress, q: Progress)
    requires ty < |S| && p.required == q.required && p.seen == q.seen && p.missing == q.missing
    ensures Alike(DecodeMsg(S, ty, s, group, p), DecodeMsg(S, ty, s, group, q))
    decreases |s|, 0
  {
    ByRecord(S, ty, s, group, p);
    ByRecord(S, ty, s, group, q);
    match FirstRecord(S, ty, s, group) {
      case Strange(saved, rest) => SameReport(S, ty, rest, group, Keep(S[ty], p, saved), Keep(S[ty], q, saved));
      case Known(i, wire, body) =>
        var fd := S[ty].fields[i];
        SameFieldReport(S, fd, wire, body, FieldVals(p.m, i), FieldVals(q.m, i));
        var f, g := DecodeField(S, fd, wire, body, FieldVals(p.m, i)),
                    DecodeField(S, fd, wire, body, FieldVals(q.m, i));
        if f.Got? {
          SameReport(S, ty, f.rest, group, Step(S[ty], i, p, f.vals, f.missing), Step(S[ty], i, q, g.vals, f.missing));
        }
      case _ =>
    }
  }

  lemma {:induction false} SameFieldReport(S: Schema, fd: FieldDesc, wire: nat, s: seq<byte>, vals: seq<Value>,
                                           vals': seq<Value>)
    ensures AlikeFields(DecodeField(S, fd, wire, s, vals), DecodeField(S, fd, wire, s, vals'))
    decreases |s|, 1
  {
    match fd.kind {
      case Message(ty) =>
        if ty < |S| && RawAt(s).Some? {
          var (i, j) := RawAt(s).value;
          SameReport(S, ty, s[i..j], false, Start(S[ty], Target(S[ty], fd, vals)),
                     Start(S[ty], Target(S[ty], fd, vals')));
        }
      case Group(ty) =>
        if ty < |S| {
          SameReport(S, ty, s, true, Start(S[ty], Target(S[ty], fd, vals)), Start(S[ty], Target(S[ty], fd, vals')));
        }
      case _ =>
    }
  }
}
