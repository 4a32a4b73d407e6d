/** What unmarshalType of golang/protobuf/proto/decode.go computes, as functions on the bytes that
    remain. Which error is reported is not distinguished, except that a missing required field does
    not stop decoding. */
module ProtoDecode {
  import opened Bytes
  import opened Options
  import opened Varints
  import opened ProtoVarint
  import opened ProtoNumbers
  import opened ProtoWire
  import opened ProtoSchema

  /** What the decoding loop carries: the message, the counter of required fields, the bitmap of
      those with numbers up to 64, and whether an inner message lacked one. */
  datatype Progress = Progress(m: Msg, required: int, seen: set<nat>, missing: bool)

  datatype Outcome = Done(m: Msg, rest: seq<byte>, missing: bool) | Failed

  datatype FieldOutcome = Got(vals: seq<Value>, rest: seq<byte>, missing: bool) | Bad

  function RequiredFrom(d: MsgDesc, i: nat): nat
    requires i <= |d.fields|
    decreases |d.fields| - i
  {
    if i == |d.fields| then 0
    else (if d.fields[i].mode == Required then 1 else 0) + RequiredFrom(d, i + 1)
  }

  function Start(d: MsgDesc, m: Msg): Progress {
    Progress(m, RequiredFrom(d, 0), {}, false)
  }

  /** Stores a decoded element: appended to a list, otherwise in place of what was there. */
  function Store(fd: FieldDesc, vals: seq<Value>, v: Value): seq<Value> {
    if IsList(fd.mode) then vals + [v]
    else if fd.mode == Implicit && IsZero(v) then []
    else [v]
  }

  /** The numbers of a packed list of `nb` bytes, read from `c` on; the last one may reach beyond. */
  function PackedAt(t: Type, f: Format, s: seq<byte>, c: nat, nb: nat): (r: Option<(seq<Value>, nat)>)
    requires c <= |s|
    ensures r.Some? ==> c <= r.value.1 <= |s|
    decreases |s| - c
  {
    if c >= nb then Some(([], c))
    else
      match Get(f, s[c..])
      case Value(x, n) =>
        (match PackedAt(t, f, s, c + n, nb)
         case Some((vals, e)) => Some(([Num(Uncarry(t, x))] + vals, e))
         case None => None)
      case _ => None
  }

  /** The message to decode into: the one that is there, or a new one. */
  function Target(d: MsgDesc, fd: FieldDesc, vals: seq<Value>): Msg {
    if !IsList(fd.mode) && vals != [] && vals[0].Sub? then vals[0].m else EmptyMsg(d)
  }

  /** The decoder of one field: `s` follows the key, `vals` is what the field holds. */
  function DecodeField(S: Schema, fd: FieldDesc, wire: nat, s: seq<byte>, vals: seq<Value>): (r: FieldOutcome)
    ensures r.Got? ==> |r.rest| <= |s|
    decreases |s|, 1
  {
    match fd.kind
    case Numeric(t, f) =>
      if wire == 3 || wire == WireType(f) then
        match Get(f, s)
        case Value(x, n) => Got(Store(fd, vals, Num(Uncarry(t, x))), s[n..], false)
        case _ => Bad
      else if wire == 2 && IsList(fd.mode) then
        match VarintAt(s)
        case Value(nb, k) =>
          if nb >= TWO_63 then Bad
          else
            (match PackedAt(t, f, s[k..], 0, nb)
             case Some((more, e)) => Got(vals + more, s[k + e..], false)
             case None => Bad)
        case _ => Bad
      else Bad
    case Text =>
      if wire != 3 && wire != 2 then Bad
      else
        (match RawAt(s)
         case Some((i, j)) => Got(Store(fd, vals, Blob(s[i..j])), s[j..], false)
         case None => Bad)
    case Message(ty) =>
      if (wire != 3 && wire != 2) || ty >= |S| then Bad
      else
        (match RawAt(s)
         case Some((i, j)) =>
           (match DecodeMsg(S, ty, s[i..j], false, Start(S[ty], Target(S[ty], fd, vals)))
            case Done(m, _, missing) => Got(Store(fd, vals, Sub(m)), s[j..], missing)
            case Failed => Bad)
         case None => Bad)
    case Group(ty) =>
      if (wire != 3 && wire != 2) || ty >= |S| then Bad
      else
        match DecodeMsg(S, ty, s, true, Start(S[ty], Target(S[ty], fd, vals)))
        case Done(m, rest, missing) => Got(Store(fd, vals, Sub(m)), rest, missing)
        case Failed => Bad
  }

  /** Counting a required field: by the bitmap up to number 64, blindly above. */
  function Count(fd: FieldDesc, p: Progress): Progress {
    if fd.mode != Required then p
    else if fd.tag > 64 then p.(required := p.required - 1)
    else if fd.tag in p.seen then p
    else p.(required := p.required - 1, seen := p.seen + {fd.tag})
  }

  /** After one field: its elements, the count and the pending error. */
  function Step(d: MsgDesc, i: nat, p: Progress, vals: seq<Value>, missing: bool): Progress
    requires i < |d.fields|
  {
    var fields := if i < |p.m.fields| then p.m.fields[i := Field(vals)] else p.m.fields;
    Count(d.fields[i], p.(m := p.m.(fields := fields), missing := p.missing || missing))
  }

  function FieldVals(m: Msg, i: nat): seq<Value> {
    if i < |m.fields| then m.fields[i].vals else []
  }

  /** The decoding loop. A group ends at any end-group key; then only its own count of required
      fields decides whether one is reported missing. */
  function DecodeMsg(S: Schema, ty: nat, s: seq<byte>, group: bool, p: Progress): (r: Outcome)
    requires ty < |S|
    ensures r.Done? ==> |r.rest| <= |s|
    decreases |s|, 0
  {
    if s == [] then
      if group then Failed else Done(p.m, [], p.missing || p.required > 0)
    else
      match VarintAt(s)
      case Value(u, k) =>
        var wire, tag, rest := u % 8, u / 8, s[k..];
        if wire == 4 then
          if group then Done(p.m, rest, p.required > 0) else Failed
        else if tag == 0 then Failed
        else
          (match FieldIndex(S[ty], tag)
           case None => DecodeUnknown(S, ty, u, rest, group, p)
           case Some(i) => DecodeKnown(S, ty, i, wire, rest, group, p))
      case _ => Failed
  }

  /** Goes on behind the key `u` of a field the type does not have. */
  function DecodeUnknown(S: Schema, ty: nat, u: nat, s: seq<byte>, group: bool, p: Progress): (r: Outcome)
    requires ty < |S|
    ensures r.Done? ==> |r.rest| <= |s|
    decreases |s|, 2
  {
    match Skip(u % 8, s)
    case None => Failed
    case Some(c) =>
      var saved := if S[ty].keepsUnknown then p.m.unknown + (Varint(u) + s[..c]) else p.m.unknown;
      DecodeMsg(S, ty, s[c..], group, p.(m := p.m.(unknown := saved)))
  }

  /** Goes on behind a key of the field at position `i`. */
  function DecodeKnown(S: Schema, ty: nat, i: nat, wire: nat, s: seq<byte>, group: bool, p: Progress): (r: Outcome)
    requires ty < |S| && i < |S[ty].fields|
    ensures r.Done? ==> |r.rest| <= |s|
    decreases |s|, 2
  {
    match DecodeField(S, S[ty].fields[i], wire, s, FieldVals(p.m, i))
    case Bad => Failed
    case Got(vals, rest, missing) => DecodeMsg(S, ty, rest, group, Step(S[ty], i, p, vals, missing))
  }

  /** `Unmarshal` into a new message. */
  function Unmarshal(S: Schema, ty: nat, s: seq<byte>): Outcome
    requires ty < |S|
  {
    DecodeMsg(S, ty, s, false, Start(S[ty], EmptyMsg(S[ty])))
  }
}
