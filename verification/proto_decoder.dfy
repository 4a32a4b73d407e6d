/** The decoding half of proto.Buffer (golang/protobuf/proto/decode.go): methods that advance an
    index through a byte slice, proved against the functions of ProtoDecode. */
module ProtoDecoder {
  import opened Bytes
  import opened Options
  import opened Varints
  import opened ProtoVarint
  import opened ProtoNumbers
  import opened ProtoWire
  import opened ProtoSchema
  import opened ProtoDecode
  import opened ProtoTags

  class Buffer {
    var buf: seq<byte>
    var index: nat

    constructor (e: seq<byte>)
      ensures buf == e && index == 0
    {
      buf, index := e, 0;
    }

    ghost predicate Valid()
      reads this
    {
      index <= |buf|
    }

    ghost function Rest(): seq<byte>
      reads this
      requires Valid()
    {
      buf[index..]
    }

    /** A varint has been read from `s`: the index is behind it, or where it was. */
    ghost predicate Read(r: Decoded, s: seq<byte>, start: nat)
      reads this
    {
      Valid() && r == VarintAt(s) && index == start + (if r.Value? then r.size else 0)
    }

    /** The loop for varints near the end of the buffer. */
    method DecodeVarintSlow() returns (r: Decoded)
      requires Valid()
      modifies this`index
      ensures Read(r, old(Rest()), old(index))
    {
      ghost var s := Rest();
      var x := 0;
      var i := index;
      var shift, n := 0, 0;
      while shift < 64
        invariant shift == 7 * n && n <= 10 && i == index + n <= |buf| && Continues(s, n)
        invariant x == Low(s, n) % TWO_64 && (n < 10 ==> x == Low(s, n))
        invariant index == old(index)
      {
        VarintLow(s, n);
        if i >= |buf| { return UnexpectedEOF; }
        LowStep(s, n);
        var b := buf[i];
        i := i + 1;
        x := x + Shifted(b, n);
        n := n + 1;
        if b < 0x80 {
          index := i;
          return Value(x, n);
        }
        shift := shift + 7;
      }
      VarintLow(s, 10);
      return Overflow;
    }

    /** The unrolled form: whole bytes are added, and the continuation bit is taken away again. */
    method DecodeVarint() returns (r: Decoded)
      requires Valid()
      modifies this`index
      ensures Read(r, old(Rest()), old(index))
    {
      ghost var s := Rest();
      var i := index;
      if i >= |buf| {
        return UnexpectedEOF;
      } else if buf[i] < 0x80 {
        index := index + 1;
        return Value(buf[i], 1);
      } else if |buf| - i < 10 {
        r := DecodeVarintSlow();
        return;
      }
      var x: nat := buf[i] - 0x80;
      i := i + 1;
      LowPowers(s);
      var b: byte;

      b := buf[i];
      i := i + 1;
      UnrolledStep(s, 1, x, b, 0x80);
      x := x + (b as int) * 0x80;
      if b < 0x80 { index := i; return Value(x, 2); }
      x := x - 0x80 * 0x80;

      b := buf[i];
      i := i + 1;
      UnrolledStep(s, 2, x, b, 0x4000);
      x := x + (b as int) * 0x4000;
      if b < 0x80 { index := i; return Value(x, 3); }
      x := x - 0x80 * 0x4000;

      b := buf[i];
      i := i + 1;
      UnrolledStep(s, 3, x, b, 0x20_0000);
      x := x + (b as int) * 0x20_0000;
      if b < 0x80 { index := i; return Value(x, 4); }
      x := x - 0x80 * 0x20_0000;

      b := buf[i];
      i := i + 1;
      UnrolledStep(s, 4, x, b, 0x1000_0000);
      x := x + (b as int) * 0x1000_0000;
      if b < 0x80 { index := i; return Value(x, 5); }
      x := x - 0x80 * 0x1000_0000;

      b := buf[i];
      i := i + 1;
      UnrolledStep(s, 5, x, b, 0x8_0000_0000);
      x := x + (b as int) * 0x8_0000_0000;
      if b < 0x80 { index := i; return Value(x, 6); }
      x := x - 0x80 * 0x8_0000_0000;

      b := buf[i];
      i := i + 1;
      UnrolledStep(s, 6, x, b, 0x400_0000_0000);
      x := x + (b as int) * 0x400_0000_0000;
      if b < 0x80 { index := i; return Value(x, 7); }
      x := x - 0x80 * 0x400_0000_0000;

      b := buf[i];
      i := i + 1;
      UnrolledStep(s, 7, x, b, 0x2_0000_0000_0000);
      x := x + (b as int) * 0x2_0000_0000_0000;
      if b < 0x80 { index := i; return Value(x, 8); }
      x := x - 0x80 * 0x2_0000_0000_0000;

      b := buf[i];
      i := i + 1;
      UnrolledStep(s, 8, x, b, 0x100_0000_0000_0000);
      x := x + (b as int) * 0x100_0000_0000_0000;
      if b < 0x80 { index := i; return Value(x, 9); }
      x := x - 0x80 * 0x100_0000_0000_0000;

      b := buf[i];
      i := i + 1;
      TenthStep(s, x, b);
      x := x + (b as int) * 0x8000_0000_0000_0000 % TWO_64;
      if b < 0x80 { index := i; return Value(x, 10); }
      return Overflow;
    }

    method DecodeFixed64() returns (r: Decoded)
      requires Valid()
      modifies this`index
      ensures Valid() && r == FixedAt(old(Rest()), 8) && index == old(index) + (if r.Value? then r.size else 0)
    {
      ghost var s := Rest();
      var i := index + 8;
      if i > |buf| { return UnexpectedEOF; }
      index := i;
      FixedBytes(s[..8]);
      var x: nat := buf[i - 8] + (buf[i - 7] as int) * 0x100 + (buf[i - 6] as int) * 0x1_0000
        + (buf[i - 5] as int) * 0x100_0000 + (buf[i - 4] as int) * 0x1_0000_0000
        + (buf[i - 3] as int) * 0x100_0000_0000 + (buf[i - 2] as int) * 0x1_0000_0000_0000
        + (buf[i - 1] as int) * 0x100_0000_0000_0000;
      return Value(x, 8);
    }

    method DecodeFixed32() returns (r: Decoded)
      requires Valid()
      modifies this`index
      ensures Valid() && r == FixedAt(old(Rest()), 4) && index == old(index) + (if r.Value? then r.size else 0)
    {
      ghost var s := Rest();
      var i := index + 4;
      if i > |buf| { return UnexpectedEOF; }
      index := i;
      FixedBytes(s[..4]);
      var x: nat := buf[i - 4] + (buf[i - 3] as int) * 0x100 + (buf[i - 2] as int) * 0x1_0000
        + (buf[i - 1] as int) * 0x100_0000;
      return Value(x, 4);
    }

    /** The `valDec` of a field's wire format. */
    method DecodeNumber(f: Format) returns (r: Decoded)
      requires Valid()
      modifies this`index
      ensures Valid() && r == Get(f, old(Rest())) && index == old(index) + (if r.Value? then r.size else 0)
    {
      match f {
        case Fixed32 => r := DecodeFixed32();
        case Fixed64 => r := DecodeFixed64();
        case VarintFormat => r := DecodeVarint();
        case Zigzag32 =>
          r := DecodeVarint();
          if r.Value? { r := Value(Unzigzag32(r.x), r.size); }
        case Zigzag64 =>
          r := DecodeVarint();
          if r.Value? { r := Value(Unzigzag64(r.x), r.size); }
      }
    }

    /** A length and as many bytes. Lengths that do not fit an int64 are errors. */
    method DecodeRawBytes() returns (ok: bool, raw: seq<byte>)
      requires Valid()
      modifies this`index
      ensures Valid() && index >= old(index) && ok == RawAt(old(Rest())).Some?
      ensures ok ==> var (i, j) := RawAt(old(Rest())).value; raw == old(Rest())[i..j] && index == old(index) + j
    {
      ghost var s := Rest();
      raw := [];
      var n := DecodeVarint();
      if !n.Value? { return false, raw; }
      if n.x >= TWO_63 { return false, raw; }
      var end := index + n.x;
      if end > |buf| { return false, raw; }
      raw := buf[index..end];
      index := end;
      return true, raw;
    }

    /** Skips the payload of one record. */
    method Skip(wire: nat) returns (ok: bool)
      requires Valid()
      modifies this`index
      ensures Valid() && index >= old(index) && ok == ProtoWire.Skip(wire, old(Rest())).Some?
      ensures ok ==> index == old(index) + ProtoWire.Skip(wire, old(Rest())).value
      decreases |buf| - index, 2
    {
      if wire == 0 {
        var r := DecodeVarint();
        ok := r.Value?;
      } else if wire == 1 {
        var r := DecodeFixed64();
        ok := r.Value?;
      } else if wire == 2 {
        var raw;
        ok, raw := DecodeRawBytes();
      } else if wire == 5 {
        var r := DecodeFixed32();
        ok := r.Value?;
      } else if wire == 3 {
        ok := SkipGroup();
      } else {
        ok := false;
      }
    }

    /** The loop of `skip` over the records of a group. */
    method SkipGroup() returns (ok: bool)
      requires Valid()
      modifies this`index
      ensures Valid() && index >= old(index) && ok == ProtoWire.SkipGroup(old(Rest())).Some?
      ensures ok ==> index == old(index) + ProtoWire.SkipGroup(old(Rest())).value
      decreases |buf| - index, 1
    {
      ghost var s := Rest();
      var end := false;
      while !end
        invariant Valid() && old(index) <= index
        invariant if end then ProtoWire.SkipGroup(s) == Some(index - old(index))
                  else ProtoWire.SkipGroup(s) == Add(index - old(index), ProtoWire.SkipGroup(Rest()))
        decreases !end, |buf| - index
      {
        ok, end := SkipInGroup();
        if !ok { return false; }
      }
      return true;
    }

    /** One pass of that loop: an end-group key, or one record. */
    method SkipInGroup() returns (ok: bool, end: bool)
      requires Valid()
      modifies this`index
      ensures Valid() && index >= old(index) && (ok ==> index > old(index))
      ensures !ok ==> ProtoWire.SkipGroup(old(Rest())) == None
      ensures ok && end ==> ProtoWire.SkipGroup(old(Rest())) == Some(index - old(index))
      ensures ok && !end ==> ProtoWire.SkipGroup(old(Rest())) == Add(index - old(index), ProtoWire.SkipGroup(Rest()))
      decreases |buf| - index, 0
    {
      ghost var s, start := Rest(), index;
      var u := DecodeVarint();
      if !u.Value? { return false, false; }
      if u.x % 8 == 4 { return true, true; }
      DropDrop(buf, start, index);
      ok := SkipRecord(s, u.x, u.size);
      return ok, false;
    }

    /** Skips the payload behind the key `u`, which takes `k` bytes of the group's rest `s`. */
    method SkipRecord(ghost s: seq<byte>, u: nat, ghost k: nat) returns (ok: bool)
      requires Valid() && VarintAt(s) == Value(u, k) && u % 8 != 4 && Rest() == s[k..]
      modifies this`index
      ensures Valid() && index >= old(index)
      ensures ok == ProtoWire.Skip(u % 8, s[k..]).Some?
      ensures ProtoWire.SkipGroup(s) == if ok then Add(k + (index - old(index)), ProtoWire.SkipGroup(Rest())) else None
      decreases |buf| - index, 3
    {
      ghost var item, at := Rest(), index;
      ok := Skip(u % 8);
      if !ok {
        GroupEnds(s, u, k, item);
        return;
      }
      DropDrop(buf, at, index);
      GroupRecord(s, u, k, item, index - at, Rest(), k + (index - at));
    }

    // ---- Fields ----

    /** The outcome `want` of the specification, as the decoder's methods report it. */
    ghost predicate Reports(want: FieldOutcome, ok: bool, vals: seq<Value>, missing: bool)
      reads this
    {
      Valid() && match want
                 case Got(v, rest, m) => ok && vals == v && missing == m && Rest() == rest
                 case Bad => !ok
    }

    /** One number. */
    method DecodeNumberField(S: Schema, fd: FieldDesc, wire: nat, vals: seq<Value>)
        returns (ok: bool, vals': seq<Value>)
      requires Valid() && fd.kind.Numeric? && (wire == 3 || wire == WireType(fd.kind.f))
      modifies this`index
      ensures Reports(DecodeField(S, fd, wire, old(Rest()), vals), ok, vals', false) && index >= old(index)
    {
      ghost var s := Rest();
      var r := DecodeNumber(fd.kind.f);
      if !r.Value? { return false, vals; }
      assert Rest() == s[r.size..];
      return true, Store(fd, vals, Num(Uncarry(fd.kind.t, r.x)));
    }

    /** A packed list of `nb` bytes; as in the source, its last number may reach beyond them. */
    method DecodePacked(t: Type, f: Format, vals: seq<Value>, nb: nat) returns (ok: bool, vals': seq<Value>)
      requires Valid()
      modifies this`index
      ensures Valid() && index >= old(index)
      ensures Onto(vals, PackedAt(t, f, old(Rest()), 0, nb)) == if ok then Some((vals', index - old(index))) else None
    {
      ghost var s, start := Rest(), index;
      var fin := index + nb;
      vals' := vals;
      while index < fin
        invariant Valid() && start <= index
        invariant PackedSoFar(t, f, s, index - start, nb, vals, vals')
        decreases |buf| - index
      {
        ok, vals' := DecodePackedNumber(t, f, s, start, nb, vals, vals');
        if !ok { return; }
      }
      PackedDone(t, f, s, index - start, nb, vals, vals');
      return true, vals';
    }

    /** One pass of that loop over the list's `s`, which starts at `start`. */
    method DecodePackedNumber(t: Type, f: Format, ghost s: seq<byte>, ghost start: nat, ghost nb: nat,
                              ghost vals: seq<Value>, sofar: seq<Value>)
      returns (ok: bool, sofar': seq<Value>)
      requires Valid() && start <= index < start + nb && s == buf[start..]
      requires PackedSoFar(t, f, s, index - start, nb, vals, sofar)
      modifies this`index
      ensures Valid() && index >= old(index) && (ok ==> index > old(index))
      ensures if ok then PackedSoFar(t, f, s, index - start, nb, vals, sofar') else PackedAt(t, f, s, 0, nb) == None
    {
      ghost var c := index - start;
      DropDrop(buf, start, index);
      var r := DecodeNumber(f);
      PackedMore(t, f, s, c, nb, vals, sofar, r);
      if !r.Value? { return false, sofar; }
      return true, sofar + [Num(Uncarry(t, r.x))];
    }

    method DecodePackedField(S: Schema, fd: FieldDesc, vals: seq<Value>) returns (ok: bool, vals': seq<Value>)
      requires Valid() && fd.kind.Numeric? && IsList(fd.mode)
      modifies this`index
      ensures Reports(DecodeField(S, fd, 2, old(Rest()), vals), ok, vals', false) && index >= old(index)
    {
      ghost var s := Rest();
      var nn := DecodeVarint();
      if !nn.Value? { return false, vals; }
      if nn.x >= TWO_63 { return false, vals; }
      ghost var list, at := Rest(), index;
      assert list == s[nn.size..];
      ok, vals' := DecodePacked(fd.kind.t, fd.kind.f, vals, nn.x);
      if ok {
        assert Rest() == s[nn.size + (index - at)..];
      }
    }

    method DecodeTextField(S: Schema, fd: FieldDesc, wire: nat, vals: seq<Value>) returns (ok: bool, vals': seq<Value>)
      requires Valid() && fd.kind.Text? && (wire == 3 || wire == 2)
      modifies this`index
      ensures Reports(DecodeField(S, fd, wire, old(Rest()), vals), ok, vals', false) && index >= old(index)
    {
      ghost var s, start := Rest(), index;
      var raw;
      ok, raw := DecodeRawBytes();
      if !ok { return false, vals; }
      DropDrop(buf, start, index);
      return true, Store(fd, vals, Blob(raw));
    }

    // ---- Messages ----

    /** Decodes an embedded message from its own bytes: the buffer is swapped for them and back. */
    method DecodeMessageField(S: Schema, tables: seq<TagMap>, fd: FieldDesc, wire: nat, vals: seq<Value>)
      returns (ok: bool, vals': seq<Value>, missing: bool)
      requires Valid() && ValidSchema(S) && AreTables(S, tables) && fd.kind.Message? && fd.kind.ty < |S|
          && (wire == 3 || wire == 2)
      modifies this
      ensures Reports(DecodeField(S, fd, wire, old(Rest()), vals), ok, vals', missing)
      ensures buf == old(buf) && index >= old(index)
      decreases |buf| - index, 2
    {
      ghost var s, start := Rest(), index;
      var raw;
      ok, raw := DecodeRawBytes();
      if !ok { return false, vals, false; }
      DropDrop(buf, start, index);
      var obuf, oi := buf, index;
      buf, index := raw, 0;
      assert Rest() == raw;
      var m;
      ok, m, missing := UnmarshalType(S, tables, fd.kind.ty, false, Target(S[fd.kind.ty], fd, vals));
      buf, index := obuf, oi;
      vals' := Store(fd, vals, Sub(m));
    }

    method DecodeGroupField(S: Schema, tables: seq<TagMap>, fd: FieldDesc, wire: nat, vals: seq<Value>)
      returns (ok: bool, vals': seq<Value>, missing: bool)
      requires Valid() && ValidSchema(S) && AreTables(S, tables) && fd.kind.Group? && fd.kind.ty < |S|
          && (wire == 3 || wire == 2)
      modifies this
      ensures Reports(DecodeField(S, fd, wire, old(Rest()), vals), ok, vals', missing)
      ensures buf == old(buf) && index >= old(index)
      decreases |buf| - index, 2
    {
      var m;
      ok, m, missing := UnmarshalType(S, tables, fd.kind.ty, true, Target(S[fd.kind.ty], fd, vals));
      vals' := Store(fd, vals, Sub(m));
    }

    /** The field's decoder, or an error for a wire type that does not fit. */
    method DecodeAnyField(S: Schema, tables: seq<TagMap>, fd: FieldDesc, wire: nat, vals: seq<Value>)
      returns (ok: bool, vals': seq<Value>, missing: bool)
      requires Valid() && ValidSchema(S) && AreTables(S, tables) && ValidField(S, fd)
      modifies this
      ensures Reports(DecodeField(S, fd, wire, old(Rest()), vals), ok, vals', missing)
      ensures buf == old(buf) && index >= old(index)
      decreases |buf| - index, 3
    {
      vals', missing := vals, false;
      var wireType := if fd.kind.Numeric? then WireType(fd.kind.f) else 2;
      if wire != 3 && wire != wireType {
        if wire == 2 && fd.kind.Numeric? && IsList(fd.mode) {
          ok, vals' := DecodePackedField(S, fd, vals);
        } else {
          ok := false;
        }
        return;
      }
      match fd.kind {
        case Numeric(_, _) => ok, vals' := DecodeNumberField(S, fd, wire, vals);
        case Text => ok, vals' := DecodeTextField(S, fd, wire, vals);
        case Message(_) => ok, vals', missing := DecodeMessageField(S, tables, fd, wire, vals);
        case Group(_) => ok, vals', missing := DecodeGroupField(S, tables, fd, wire, vals);
      }
    }

    /** Skips a record and appends it to the unknown fields. */
    method SkipAndSave(d: MsgDesc, u: nat, unknown: seq<byte>) returns (ok: bool, unknown': seq<byte>)
      requires Valid()
      modifies this`index
      ensures Valid() && index >= old(index)
      ensures match ProtoWire.Skip(u % 8, old(Rest()))
              case None => !ok
              case Some(c) =>
                && ok && index == old(index) + c
                && unknown' == if d.keepsUnknown then unknown + (Varint(u) + old(Rest())[..c]) else unknown
    {
      ghost var s := Rest();
      var oi := index;
      ok := Skip(u % 8);
      unknown' := unknown;
      if !ok { return; }
      if d.keepsUnknown {
        unknown' := unknown + (Varint(u) + buf[oi..index]);
        assert buf[oi..index] == s[..index - oi];
      }
    }

    /** One pass of the decoding loop. */
    method UnmarshalRecord(S: Schema, tables: seq<TagMap>, ty: nat, group: bool, p: Progress)
        returns (pass: Pass, p': Progress)
      requires Valid() && index < |buf| && ValidSchema(S) && AreTables(S, tables) && ty < |S|
      modifies this
      ensures Valid() && buf == old(buf) && index >= old(index)
      ensures Passes(DecodeMsg(S, ty, old(Rest()), group, p), pass, S, ty, group, p')
      ensures pass == More ==> index > old(index)
      decreases |buf| - index, 0
    {
      ghost var s := Rest();
      p' := p;
      var u := DecodeVarint();
      if !u.Value? { return Fail, p'; }
      var wire, tag := u.x % 8, u.x / 8;
      ghost var rest := Rest();
      assert rest == s[u.size..];
      if wire == 4 {
        return if group then End(p.required > 0) else Fail, p';
      }
      if tag == 0 { return Fail, p'; }
      var fieldnum, found := tables[ty].Get(tag);
      if !found {
        pass, p' := UnmarshalUnknown(S, ty, u.x, group, p);
      } else {
        pass, p' := UnmarshalKnown(S, tables, ty, fieldnum, wire, group, p);
      }
    }

    /** A record the type has no field for. */
    method UnmarshalUnknown(S: Schema, ty: nat, u: nat, group: bool, p: Progress) returns (pass: Pass, p': Progress)
      requires Valid() && ty < |S|
      modifies this`index
      ensures Valid() && index >= old(index)
      ensures Passes(DecodeUnknown(S, ty, u, old(Rest()), group, p), pass, S, ty, group, p') && !pass.End?
    {
      ghost var s, start := Rest(), index;
      var ok, unknown := SkipAndSave(S[ty], u, p.m.unknown);
      if !ok { return Fail, p; }
      DropDrop(buf, start, index);
      return More, p.(m := p.m.(unknown := unknown));
    }

    /** A record of the field at position `i`. */
    method UnmarshalKnown(S: Schema, tables: seq<TagMap>, ty: nat, i: nat, wire: nat, group: bool, p: Progress)
        returns (pass: Pass, p': Progress)
      requires Valid() && ValidSchema(S) && AreTables(S, tables) && ty < |S| && i < |S[ty].fields|
      modifies this
      ensures Valid() && buf == old(buf) && index >= old(index)
      ensures Passes(DecodeKnown(S, ty, i, wire, old(Rest()), group, p), pass, S, ty, group, p') && !pass.End?
      decreases |buf| - index, 4
    {
      assert ValidType(S, S[ty]) && ValidField(S, S[ty].fields[i]);
      var ok, vals, missing := DecodeAnyField(S, tables, S[ty].fields[i], wire, FieldVals(p.m, i));
      if !ok { return Fail, p; }
      return More, Step(S[ty], i, p, vals, missing);
    }

    /** What one pass of the loop makes of the outcome `all` of the whole. */
    ghost predicate Passes(all: Outcome, pass: Pass, S: Schema, ty: nat, group: bool, p: Progress)
      reads this
      requires Valid() && ty < |S|
    {
      match pass
      case Fail => all == Failed
      case End(missing) => all == Done(p.m, Rest(), missing)
      case More => all == DecodeMsg(S, ty, Rest(), group, p)
    }

    /** Decodes into `m0` up to the end of the buffer, or of the group. */
    method UnmarshalType(S: Schema, tables: seq<TagMap>, ty: nat, group: bool, m0: Msg)
        returns (ok: bool, m: Msg, missing: bool)
      requires Valid() && ValidSchema(S) && AreTables(S, tables) && ty < |S|
      modifies this
      ensures Valid() && buf == old(buf) && index >= old(index)
      ensures match DecodeMsg(S, ty, old(Rest()), group, Start(S[ty], m0))
              case Done(m', rest, missing') => ok && m == m' && missing == missing' && Rest() == rest
              case Failed => !ok
      decreases |buf| - index, 1
    {
      ghost var all := DecodeMsg(S, ty, Rest(), group, Start(S[ty], m0));
      var p := Start(S[ty], m0);
      while index < |buf|
        invariant Valid() && buf == old(buf) && index >= old(index)
        invariant all == DecodeMsg(S, ty, Rest(), group, p)
        decreases |buf| - index
      {
        var pass;
        pass, p := UnmarshalRecord(S, tables, ty, group, p);
        match pass {
          case Fail => return false, p.m, false;
          case End(lacks) => return true, p.m, lacks;
          case More =>
        }
      }
      assert Rest() == [];
      return !group, p.m, p.missing || p.required > 0;
    }

    /** `Unmarshal` of a whole buffer into a new message. */
    method Unmarshal(S: Schema, ty: nat) returns (ok: bool, m: Msg, missing: bool)
      requires index == 0 && ValidSchema(S) && ty < |S|
      modifies this
      ensures match ProtoDecode.Unmarshal(S, ty, old(buf))
              case Done(m', _, missing') => ok && m == m' && missing == missing'
              case Failed => !ok
    {
      assert buf[0..] == buf;
      var tables := AllTags(S);
      ok, m, missing := UnmarshalType(S, tables, ty, false, EmptyMsg(S[ty]));
    }
  }

  /** How a pass of the decoding loop ends: with an error, at the end of a group, or to go on. */
  datatype Pass = Fail | End(missing: bool) | More

  function Onto(vals: seq<Value>, r: Option<(seq<Value>, nat)>): Option<(seq<Value>, nat)> {
    match r
    case Some((more, e)) => Some((vals + more, e))
    case None => None
  }

  /** What is still to come of a packed list of which `sofar` has been read up to `c`. */
  ghost predicate PackedSoFar(t: Type, f: Format, s: seq<byte>, c: nat, nb: nat, vals: seq<Value>, sofar: seq<Value>) {
    c <= |s| && Onto(vals, PackedAt(t, f, s, 0, nb)) == Onto(sofar, PackedAt(t, f, s, c, nb))
  }

  lemma OntoStep(vals: seq<Value>, v: Value, r: Option<(seq<Value>, nat)>)
    ensures Onto(vals, Onto([v], r)) == Onto(vals + [v], r)
  {
    if r.Some? {
      assert vals + ([v] + r.value.0) == (vals + [v]) + r.value.0;
    }
  }

  lemma PackedDone(t: Type, f: Format, s: seq<byte>, c: nat, nb: nat, vals: seq<Value>, sofar: seq<Value>)
    requires PackedSoFar(t, f, s, c, nb, vals, sofar) && c >= nb
    ensures Onto(vals, PackedAt(t, f, s, 0, nb)) == Some((sofar, c))
  {
    assert sofar + [] == sofar;
  }

  lemma PackedMore(t: Type, f: Format, s: seq<byte>, c: nat, nb: nat, vals: seq<Value>, sofar: seq<Value>, r: Decoded)
    requires PackedSoFar(t, f, s, c, nb, vals, sofar) && c < nb && r == Get(f, s[c..])
    ensures !r.Value? ==> PackedAt(t, f, s, 0, nb) == None
    ensures r.Value? ==> PackedSoFar(t, f, s, c + r.size, nb, vals, sofar + [Num(Uncarry(t, r.x))])
  {
    if r.Value? {
      OntoStep(sofar, Num(Uncarry(t, r.x)), PackedAt(t, f, s, c + r.size, nb));
    }
  }

  lemma DropDrop(s: seq<byte>, i: nat, j: nat)
    requires i <= j <= |s|
    ensures s[i..][j - i..] == s[j..]
  {
  }

  /** One record of a group that is being skipped. */
  lemma GroupRecord(s: seq<byte>, u: nat, k: nat, item: seq<byte>, c: nat, rest: seq<byte>, n: nat)
    requires VarintAt(s) == Value(u, k) && u % 8 != 4 && item == s[k..]
    requires ProtoWire.Skip(u % 8, item) == Some(c) && rest == item[c..] && n == k + c
    ensures SkipGroup(s) == Add(n, SkipGroup(rest))
  {
    assert SkipItem(u % 8, item) == Add(c, SkipGroup(rest));
  }

  lemma GroupEnds(s: seq<byte>, u: nat, k: nat, item: seq<byte>)
    requires VarintAt(s) == Value(u, k) && u % 8 != 4 && item == s[k..]
    requires ProtoWire.Skip(u % 8, item) == None
    ensures SkipGroup(s) == None
  {
  }

  /** Little-endian numbers written out. */
  lemma FixedBytes(s: seq<byte>)
    requires |s| == 4 || |s| == 8
    ensures |s| == 4 ==>
              FromLittleEndian(s) == s[0] + (s[1] as int) * 0x100 + (s[2] as int) * 0x1_0000
                                     + (s[3] as int) * 0x100_0000
    ensures |s| == 8 ==>
              FromLittleEndian(s) == s[0] + (s[1] as int) * 0x100 + (s[2] as int) * 0x1_0000
                                     + (s[3] as int) * 0x100_0000
                                     + (s[4] as int) * 0x1_0000_0000 + (s[5] as int) * 0x100_0000_0000
                                     + (s[6] as int) * 0x1_0000_0000_0000 + (s[7] as int) * 0x100_0000_0000_0000
  {
    FourBytes(s[|s| - 4..]);
    if |s| == 8 {
      var t := s[4..];
      assert FromLittleEndian(s[3..]) == s[3] + 256 * FromLittleEndian(t) by { assert s[3..][1..] == t; }
      assert FromLittleEndian(s[2..]) == s[2] + 256 * FromLittleEndian(s[3..]) by { assert s[2..][1..] == s[3..]; }
      assert FromLittleEndian(s[1..]) == s[1] + 256 * FromLittleEndian(s[2..]) by { assert s[1..][1..] == s[2..]; }
    } else {
      assert s[0..] == s;
    }
  }

  lemma FourBytes(s: seq<byte>)
    requires |s| == 4
    ensures FromLittleEndian(s) == s[0] + (s[1] as int) * 0x100 + (s[2] as int) * 0x1_0000 + (s[3] as int) * 0x100_0000
  {
    assert FromLittleEndian(s[3..]) == s[3] by { assert s[3..][1..] == []; }
    assert FromLittleEndian(s[2..]) == s[2] + 256 * FromLittleEndian(s[3..]) by { assert s[2..][1..] == s[3..]; }
    assert FromLittleEndian(s[1..]) == s[1] + 256 * FromLittleEndian(s[2..]) by { assert s[1..][1..] == s[2..]; }
  }

  lemma LowPowers(s: seq<byte>)
    requires |s| >= 1
    ensures Low(s, 1) == s[0] % 128
    ensures Pow128(1) == 0x80 && Pow128(2) == 0x4000 && Pow128(3) == 0x20_0000 && Pow128(4) == 0x1000_0000
    ensures Pow128(5) == 0x8_0000_0000 && Pow128(6) == 0x400_0000_0000 && Pow128(7) == 0x2_0000_0000_0000
    ensures Pow128(8) == 0x100_0000_0000_0000 && Pow128(9) == 0x8000_0000_0000_0000
  {
    Pow128Values();
  }

  /** One unrolled step: nothing is lost in 64 bits, and the result is the value or its low part. */
  lemma UnrolledStep(s: seq<byte>, n: nat, x: nat, b: byte, p: nat)
    requires n < 9 && n < |s| && Continues(s, n) && x == Low(s, n) && b == s[n] && p == Pow128(n)
    ensures x + (b as int) * p < TWO_64
    ensures b < 128 ==> VarintAt(s) == Value(x + (b as int) * p, n + 1)
    ensures b >= 128 ==> Continues(s, n + 1) && Low(s, n + 1) == x + (b as int) * p - 128 * p
  {
    LowStep(s, n);
    VarintLow(s, n);
    LowBound(s, n);
    Pow128Values();
    PowersGrow(n, 8);
    LowPowers(s);
    MulMonotone(b, 255, p);
    if b >= 128 {
      Distribute(b, p);
    }
  }

  lemma TenthStep(s: seq<byte>, x: nat, b: byte)
    requires 9 < |s| && Continues(s, 9) && x == Low(s, 9) && b == s[9]
    ensures b < 128 ==> VarintAt(s) == Value(x + (b as int) * 0x8000_0000_0000_0000 % TWO_64, 10)
    ensures b >= 128 ==> VarintAt(s) == Overflow
  {
    if b < 128 {
      TenthEnds(s, b);
    } else {
      VarintLow(s, 10);
    }
  }

  lemma TenthEnds(s: seq<byte>, b: byte)
    requires 9 < |s| && Continues(s, 9) && b == s[9] && b < 128
    ensures VarintAt(s) == Value(Low(s, 9) + (b as int) * 0x8000_0000_0000_0000 % TWO_64, 10)
  {
    LowStep(s, 9);
    VarintLow(s, 9);
    Powers(9);
  }

  lemma Distribute(b: nat, p: nat)
    requires b >= 128
    ensures (b - 128) * p == b * p - 128 * p
  {
  }
}
