/** Payloads that are decoded as an element of a field wherever they stand, and the smallest of them. */
module ProtoFill {
  import opened Bytes
  import opened Sequences
  import opened Varints
  import opened ProtoSchema
  import opened ProtoDecode
  import opened ProtoRecords
  import opened ProtoAdvance

  /** Behind its key, and in front of anything, `body` is decoded as an element of the field, into
      whatever the field holds; if `quiet`, nothing is reported missing. */
  ghost predicate Decodes(S: Schema, fd: FieldDesc, body: seq<byte>, quiet: bool) {
    forall rest: seq<byte>, vals: seq<Value> ::
        DecodesTo(DecodeField(S, fd, WireOf(fd.kind), body + rest, vals), rest, quiet)
  }

  predicate DecodesTo(f: FieldOutcome, rest: seq<byte>, quiet: bool) {
    f.Got? && f.rest == rest && (quiet ==> !f.missing)
  }

  /** One record of a known field. */
  lemma RecordRead(S: Schema, ty: nat, i: nat, body: seq<byte>, tail: seq<byte>, group: bool, p: Progress, quiet: bool)
    returns (f: FieldOutcome)
    requires ty < |S| && ValidType(S, S[ty]) && i < |S[ty].fields| && S[ty].fields[i].mode != Reserved
    requires Decodes(S, S[ty].fields[i], body, quiet)
    ensures f == DecodeField(S, S[ty].fields[i], WireOf(S[ty].fields[i].kind), body + tail, FieldVals(p.m, i))
    ensures f.Got? && (quiet ==> !f.missing)
    ensures DecodeMsg(S, ty, (Key(S[ty].fields[i].tag, WireOf(S[ty].fields[i].kind)) + body) + tail, group, p)
            == DecodeMsg(S, ty, tail, group, Step(S[ty], i, p, f.vals, f.missing))
  {
    var fd := S[ty].fields[i];
    f := DecodeField(S, fd, WireOf(fd.kind), body + tail, FieldVals(p.m, i));
    assert DecodesTo(f, tail, quiet);
    Associate(Key(fd.tag, WireOf(fd.kind)), body, tail);
    KnownRecord(S, ty, i, WireOf(fd.kind), body + tail, group, p);
  }

  // ---- Small payloads ----

  /** The shortest end-group key; its number is not looked at. */
  const END_GROUP: byte := 4

  lemma AtAnyEnd(S: Schema, ty: nat, tail: seq<byte>, p: Progress)
    requires ty < |S|
    ensures DecodeMsg(S, ty, [END_GROUP] + tail, true, p) == Done(p.m, tail, p.required > 0)
  {
    ScanStep([END_GROUP] + tail);
    assert ([END_GROUP] + tail)[1..] == tail;
  }

  /** The smallest payload of one element. */
  function Trivial(fd: FieldDesc): seq<byte> {
    match fd.kind
    case Numeric(t, f) => NumberBytes(t, f, Num(0))
    case Group(_) => [END_GROUP]
    case _ => LenPrefixed([])
  }

  /** It is decoded everywhere, silently unless a message lacks its own required fields. */
  lemma TrivialDecodes(S: Schema, fd: FieldDesc)
    requires ValidField(S, fd)
    ensures Decodes(S, fd, Trivial(fd), fd.kind.Numeric? || fd.kind.Text?)
  {
    forall rest: seq<byte>, vals: seq<Value>
      ensures DecodesTo(DecodeField(S, fd, WireOf(fd.kind), Trivial(fd) + rest, vals), rest,
                        fd.kind.Numeric? || fd.kind.Text?)
    {
      match fd.kind {
        case Numeric(_, _) => NumberField(S, fd, Num(0), rest, vals);
        case Text => TextField(S, fd, [], rest, vals);
        case Message(ty) =>
          RawRoundTrip([], rest);
          AtEnd(S, ty, Start(S[ty], Target(S[ty], fd, vals)));
        case Group(ty) => AtAnyEnd(S, ty, rest, Start(S[ty], Target(S[ty], fd, vals)));
      }
    }
  }

  lemma Louder(S: Schema, fd: FieldDesc, body: seq<byte>, quiet: bool)
    requires Decodes(S, fd, body, quiet)
    ensures Decodes(S, fd, body, false)
  {
    forall rest: seq<byte>, vals: seq<Value>
      ensures DecodesTo(DecodeField(S, fd, WireOf(fd.kind), body + rest, vals), rest, false)
    {
      assert DecodesTo(DecodeField(S, fd, WireOf(fd.kind), body + rest, vals), rest, quiet);
    }
  }
}
