/** The encoding half of proto.Buffer (golang/protobuf/proto/encode.go): a byte slice that grows by
    appending, with length prefixes put in place behind the message they measure. */
module ProtoEncoder {
  import opened Bytes
  import opened Sequences
  import opened Varints
  import opened ProtoVarint
  import opened ProtoNumbers
  import opened ProtoSchema

  /** 1<<31 - 1 */
  const MAX_MARSHAL_SIZE: nat := 0x7fff_ffff

  /** The errors of the field encoders: an absent field, a missing required field, too many bytes. */
  datatype Error = NoError | ErrNil | RequiredNotSet | ErrTooLarge

  /** A Go slice: the first `len` bytes of a backing array. */
  class Buffer {
    var mem: array<byte>
    var len: nat

    constructor ()
      ensures Valid() && Contents() == [] && fresh(mem)
    {
      mem, len := new byte[0], 0;
    }

    ghost predicate Valid()
      reads this
    {
      len <= mem.Length
    }

    ghost function Contents(): seq<byte>
      reads this, mem
      requires Valid()
    {
      mem[..len]
    }

    /** Appending wrote inside the backing array and changed nothing behind the new end. */
    twostate predicate InPlace()
      reads this, mem
      requires old(Valid()) && Valid()
    {
      mem == old(mem) && forall j :: len <= j < mem.Length ==> mem[j] == old(mem[j])
    }

    /** Go's `append`: in place when there is room, in a larger array otherwise. */
    method Append(b: seq<byte>)
      requires Valid()
      modifies this, mem
      ensures Valid() && (mem == old(mem) || fresh(mem))
      ensures Contents() == old(Contents()) + b
      ensures old(len) + |b| <= old(mem.Length) ==> InPlace()
    {
      if len + |b| > mem.Length {
        var grown := new byte[2 * (len + |b|)];
        CopyInto(grown, 0, mem[..len]);
        SpliceIs(grown[..], 0, mem[..len]);
        assert grown[..len] == mem[..len];
        mem := grown;
      }
      label Room:
      ghost var was := mem[..];
      CopyInto(mem, len, b);
      SpliceIs(was, len, b);
      assert mem[..len + |b|] == was[..len] + b;
      len := len + |b|;
    }

    method EncodeVarint(x0: nat)
      requires Valid()
      modifies this, mem
      ensures Valid() && (mem == old(mem) || fresh(mem))
      ensures Contents() == old(Contents()) + Varint(x0)
      ensures old(len) + |Varint(x0)| <= old(mem.Length) ==> InPlace()
    {
      var x := x0;
      ghost var written: seq<byte> := [];
      assert [] + Varint(x) == Varint(x0);
      assert Contents() + [] == Contents();
      while x >= 0x80
        invariant Valid() && (mem == old(mem) || fresh(mem))
        invariant written + Varint(x) == Varint(x0) && Contents() == old(Contents()) + written
        invariant old(len) + |Varint(x0)| <= old(mem.Length) ==> InPlace()
        decreases x
      {
        Associate(old(Contents()), written, [128 + x % 128]);
        Associate(written, [128 + x % 128], Varint(x / 128));
        Append([128 + x % 128]);
        written := written + [128 + x % 128];
        x := x / 128;
      }
      Associate(old(Contents()), written, [x]);
      Append([x]);
    }

    /** The `valEnc` of a wire format. */
    method EncodeNumber(f: Format, x: nat)
      requires Valid() && x < TWO_64
      modifies this, mem
      ensures Valid() && (mem == old(mem) || fresh(mem))
      ensures Contents() == old(Contents()) + Put(f, x)
    {
      match f {
        case VarintFormat => EncodeVarint(x);
        case Fixed32 =>
          FourBytes(x);
          Append([x % 256, x / 0x100 % 256, x / 0x1_0000 % 256, x / 0x100_0000 % 256]);
        case Fixed64 =>
          EightBytes(x);
          Append([x % 256, x / 0x100 % 256, x / 0x1_0000 % 256, x / 0x100_0000 % 256,
                  x / 0x1_0000_0000 % 256, x / 0x100_0000_0000 % 256, x / 0x1_0000_0000_0000 % 256,
                  x / 0x100_0000_0000_0000 % 256]);
        case Zigzag32 => EncodeVarint(Zigzag32Of(x));
        case Zigzag64 => EncodeVarint(Zigzag64Of(x));
      }
    }

    /** A byte slice or a string behind its length. */
    method EncodeRawBytes(b: seq<byte>)
      requires Valid()
      modifies this, mem
      ensures Valid() && (mem == old(mem) || fresh(mem))
      ensures Contents() == old(Contents()) + LenPrefixed(b)
    {
      EncodeVarint(|b|);
      Append(b);
      Associate(old(Contents()), Varint(|b|), b);
    }

    /** Behind `pre` and `gap` bytes that do not matter there is `msg`, up to the end. */
    ghost predicate Holds(pre: seq<byte>, gap: nat, msg: seq<byte>)
      reads this, mem
    {
      && len == |pre| + gap + |msg| <= mem.Length
      && mem[..|pre|] == pre && mem[|pre| + gap..len] == msg
    }

    /** The end of `enc_len_thing`: behind `pre`, four bytes have been reserved and `msg` written. The
        message moves to where the length leaves off, and the length takes the reserved space. */
    method PlaceLength(iLen: nat, ghost pre: seq<byte>, ghost msg: seq<byte>)
      requires iLen == |pre| && Holds(pre, 4, msg)
      modifies this, mem
      ensures Valid() && (mem == old(mem) || fresh(mem))
      ensures Contents() == pre + LenPrefixed(msg)
    {
      var iMsg := iLen + 4;
      var lMsg := len - iMsg;
      var lLen := SizeVarint(lMsg);
      MoveMessage(iLen, lLen, pre, msg);
      FillGap(iLen, lMsg, pre, msg);
      Associate(pre, Varint(lMsg), msg);
    }

    /** The length goes in front of the message, which the backing array keeps meanwhile. */
    method FillGap(iLen: nat, lMsg: nat, ghost pre: seq<byte>, ghost msg: seq<byte>)
      requires iLen == |pre| && lMsg == |msg| && Holds(pre, |Varint(lMsg)|, msg)
      modifies this, mem
      ensures Valid() && mem == old(mem)
      ensures Contents() == (pre + Varint(lMsg)) + msg
    {
      len := iLen;
      ghost var start := iLen + |Varint(lMsg)|;
      EncodeVarint(lMsg);
      assert mem[start..start + lMsg] == old(mem[start..start + lMsg]);
      ghost var front := Contents();
      len := len + lMsg;
      assert mem[..len] == mem[..start] + mem[start..len];
    }

    /** The switch of `enc_len_thing`: the message moves right, left or not at all. */
    method MoveMessage(iLen: nat, lLen: nat, ghost pre: seq<byte>, ghost msg: seq<byte>)
      requires iLen == |pre| && Holds(pre, 4, msg) && lLen >= 1
      modifies this, mem
      ensures Holds(pre, lLen, msg) && (mem == old(mem) || fresh(mem))
    {
      var iMsg := iLen + 4;
      var lMsg := len - iMsg;
      var x := lLen - (iMsg - iLen);
      if x > 0 {
        Extend(x, pre, 4, msg);
        Shift(iLen, iMsg, lMsg, x, pre, msg);
      } else if x < 0 {
        Shift(iLen, iMsg, lMsg, x, pre, msg);
        len := len + x;
      }
    }

    /** `x` zeroes behind everything make room. */
    method Extend(x: nat, ghost pre: seq<byte>, ghost gap: nat, ghost msg: seq<byte>)
      requires Holds(pre, gap, msg)
      modifies this, mem
      ensures len == old(len) + x <= mem.Length && (mem == old(mem) || fresh(mem))
      ensures mem[..|pre|] == pre && mem[|pre| + gap..len - x] == msg
    {
      ghost var was := Contents();
      Append(seq(x, _ => 0));
      assert mem[..len - x] == Contents()[..len - x] == was;
      assert mem[|pre| + gap..len - x] == was[|pre| + gap..];
      assert mem[..|pre|] == was[..|pre|];
    }

    /** Copies the message at `iMsg` by `x` bytes, left or right. */
    method Shift(iLen: nat, iMsg: nat, lMsg: nat, x: int, ghost pre: seq<byte>, ghost msg: seq<byte>)
      requires iLen == |pre| <= iMsg + x && iLen <= iMsg && lMsg == |msg| && iMsg + lMsg <= mem.Length
      requires iMsg + x + lMsg <= mem.Length
      requires mem[..iLen] == pre && mem[iMsg..iMsg + lMsg] == msg
      modifies mem
      ensures mem[..iLen] == pre && mem[iMsg + x..iMsg + x + lMsg] == msg
    {
      ghost var was := mem[..];
      var moved := mem[iMsg..iMsg + lMsg];
      CopyInto(mem, iMsg + x, moved);
      SpliceIs(was, iMsg + x, moved);
      assert mem[..iLen] == mem[..][..iLen] == was[..iLen];
    }

    // ---- Fields and messages ----

    /** `enc_len_struct`: four bytes are reserved for the length, which is put in place afterwards. */
    method EncLenStruct(S: Schema, ty: nat, m: Msg) returns (err: Error)
      requires Valid() && WellTyped(S, ty, m)
      modifies this, mem
      ensures Valid() && (mem == old(mem) || fresh(mem))
      ensures err == ErrTooLarge <==> TooBig(S, ty, m, old(len) + 4)
      ensures err != ErrTooLarge ==> Contents() == old(Contents()) + LenPrefixed(Ser(S, ty, m))
                                     && Tells(err, Complete(S, ty, m))
      decreases m, 6
    {
      var iLen := len;
      ghost var pre := Contents();
      Append([0, 0, 0, 0]);
      err := EncStruct(S, ty, m);
      if err == ErrTooLarge { return; }
      ghost var msg := Ser(S, ty, m);
      assert mem[..iLen] == Contents()[..iLen] == pre;
      assert mem[iLen + 4..len] == Contents()[iLen + 4..] == msg;
      PlaceLength(iLen, pre, msg);
    }

    /** One element with its key. */
    method EncElement(S: Schema, fd: FieldDesc, v: Value) returns (err: Error)
      requires Valid() && WellTypedValue(S, fd.kind, v)
      modifies this, mem
      ensures Valid() && (mem == old(mem) || fresh(mem))
      ensures err == ErrTooLarge <==> TooBigValue(S, fd, v, old(len))
      ensures err != ErrTooLarge ==>
                && Contents() == old(Contents()) + (Key(fd.tag, WireOf(fd.kind)) + Payload(S, fd, v))
                && Tells(err, CompleteValue(S, fd.kind, v))
      decreases v, 1
    {
      err := NoError;
      ghost var key := Key(fd.tag, WireOf(fd.kind));
      EncodeVarint(8 * fd.tag + WireOf(fd.kind));
      Associate(old(Contents()), key, Payload(S, fd, v));
      match fd.kind {
        case Numeric(t, f) => EncodeNumber(f, Carry(t, v.n));
        case Text => EncodeRawBytes(v.b);
        case Message(ty) => err := EncLenStruct(S, ty, v.m);
        case Group(ty) =>
          ghost var before := Contents();
          err := EncStruct(S, ty, v.m);
          if err == ErrTooLarge { return; }
          EncodeVarint(8 * fd.tag + 4);
          Associate(before, Ser(S, ty, v.m), Key(fd.tag, 4));
      }
    }

    /** The elements of a field one after the other. */
    method EncElements(S: Schema, fd: FieldDesc, f: Field) returns (err: Error)
      requires Valid() && WellTypedField(S, fd, f)
      modifies this, mem
      ensures Valid() && (mem == old(mem) || fresh(mem))
      ensures err == ErrTooLarge <==> TooBigValues(S, fd, f, 0, old(len))
      ensures err != ErrTooLarge ==>
                && Contents() == old(Contents()) + Records(S, fd, f.vals)
                && Tells(err, CompleteFrom(S, fd, f, 0))
      decreases f, 2
    {
      err := NoError;
      var k := 0;
      assert f.vals[0..] == f.vals;
      ghost var all := Contents() + Records(S, fd, f.vals);
      ghost var big, complete := TooBigValues(S, fd, f, 0, len), CompleteFrom(S, fd, f, 0);
      while k < |f.vals|
        invariant Valid() && (mem == old(mem) || fresh(mem)) && k <= |f.vals|
        invariant ValuesSoFar(S, fd, f, k, all, big, complete, Contents(), err)
      {
        ghost var before, err0 := Contents(), err;
        assert WellTypedValue(S, fd.kind, f.vals[k]);
        var e := EncElement(S, fd, f.vals[k]);
        if err == NoError {
          err := e;
        }
        ValuesMore(S, fd, f, k, all, big, complete, before, err0, Contents(), e, err);
        if e == ErrTooLarge { return e; }
        k := k + 1;
      }
      CutAll(f.vals);
      assert Contents() + [] == Contents();
    }

    /** A packed list: the numbers are encoded into a buffer of their own. */
    method EncPacked(S: Schema, fd: FieldDesc, f: Field)
      requires Valid() && fd.kind.Numeric? && WellTypedField(S, fd, f)
      modifies this, mem
      ensures Valid() && (mem == old(mem) || fresh(mem))
      ensures Contents() == old(Contents()) + (Key(fd.tag, 2) + LenPrefixed(Numbers(fd.kind.t, fd.kind.f, f.vals)))
    {
      var packed := PackNumbers(S, fd, f);
      EncodeVarint(8 * fd.tag + 2);
      EncodeVarint(|packed|);
      Append(packed);
      Associate(old(Contents()), Key(fd.tag, 2), Varint(|packed|));
      Associate(old(Contents()), Key(fd.tag, 2) + Varint(|packed|), packed);
      Associate(Key(fd.tag, 2), Varint(|packed|), packed);
    }

    /** The encoder of a field: ErrNil when it is absent. */
    method EncField(S: Schema, fd: FieldDesc, f: Field) returns (err: Error)
      requires Valid() && WellTypedField(S, fd, f)
      modifies this, mem
      ensures Valid() && (mem == old(mem) || fresh(mem))
      ensures err == ErrTooLarge <==> TooBigField(S, fd, f, old(len))
      ensures err != ErrTooLarge ==>
                && Contents() == old(Contents()) + FieldBytes(S, fd, f.vals)
                && if f.vals == [] then err == ErrNil else Tells(err, CompleteFrom(S, fd, f, 0))
      decreases f, 3
    {
      if |f.vals| == 0 {
        assert Contents() + [] == Contents();
        return ErrNil;
      }
      if fd.mode == Packed && fd.kind.Numeric? {
        EncPacked(S, fd, f);
        PackedComplete(S, fd, f, 0);
        return NoError;
      }
      err := EncElements(S, fd, f);
    }

    /** One field of a message: a missing required field is remembered, and the size is checked. */
    method EncStructField(S: Schema, fd: FieldDesc, f: Field, err0: Error) returns (err: Error)
      requires Valid() && WellTypedField(S, fd, f) && (err0 == NoError || err0 == RequiredNotSet)
      modifies this, mem
      ensures Valid() && (mem == old(mem) || fresh(mem))
      ensures err == ErrTooLarge <==> TooBigHere(S, fd, f, old(len))
      ensures err != ErrTooLarge ==>
                && Contents() == old(Contents()) + FieldBytes(S, fd, f.vals)
                && Tells(err, err0 == NoError && CompleteField(S, fd, f))
      decreases f, 4
    {
      err := err0;
      CompleteHere(S, fd, f);
      if fd.mode == Reserved {
        assert Contents() + [] == Contents();
        return;
      }
      var e := EncField(S, fd, f);
      if e == ErrTooLarge { return e; }
      if len > MAX_MARSHAL_SIZE { return ErrTooLarge; }
      if e == ErrNil {
        if fd.mode == Required && err == NoError {
          err := RequiredNotSet;
        }
      } else if err == NoError {
        err := e;
      }
    }

    /** `enc_struct`: the fields in tag order, then the unknown fields. */
    method EncStruct(S: Schema, ty: nat, m: Msg) returns (err: Error)
      requires Valid() && WellTyped(S, ty, m)
      modifies this, mem
      ensures Valid() && (mem == old(mem) || fresh(mem))
      ensures err == ErrTooLarge <==> TooBig(S, ty, m, old(len))
      ensures err != ErrTooLarge ==> Contents() == old(Contents()) + Ser(S, ty, m) && Tells(err, Complete(S, ty, m))
      decreases m, 5
    {
      err := NoError;
      var i := 0;
      ghost var start := Contents();
      ghost var fields, big := FieldsFrom(S, S[ty], m, 0), TooBigFrom(S, ty, m, 0, len);
      CompleteAll(S, ty, m);
      while i < |m.fields|
        invariant Valid() && (mem == old(mem) || fresh(mem)) && i <= |m.fields|
        invariant FieldsSoFar(S, ty, m, i, start + fields, big, Complete(S, ty, m), Contents(), err)
      {
        ghost var before, e := Contents(), err;
        assert WellTypedField(S, S[ty].fields[i], m.fields[i]);
        err := EncStructField(S, S[ty].fields[i], m.fields[i], err);
        FieldsMore(S, ty, m, i, start + fields, big, Complete(S, ty, m), before, e, Contents(), err);
        if err == ErrTooLarge { return; }
        i := i + 1;
      }
      assert Contents() + [] == Contents();
      UnknownBytes(S, ty, m);
      Associate(start, fields, m.unknown);
      if S[ty].keepsUnknown {
        var fits := EncUnknown(m.unknown);
        if !fits { return ErrTooLarge; }
      } else {
        assert Contents() + [] == Contents();
      }
    }

    /** The unknown fields, if they fit. */
    method EncUnknown(v: seq<byte>) returns (fits: bool)
      requires Valid()
      modifies this, mem
      ensures Valid() && (mem == old(mem) || fresh(mem))
      ensures fits == (old(len) + |v| <= MAX_MARSHAL_SIZE)
      ensures fits ==> Contents() == old(Contents()) + v
    {
      if len + |v| > MAX_MARSHAL_SIZE { return false; }
      if |v| > 0 {
        Append(v);
      } else {
        assert Contents() + v == Contents();
      }
      return true;
    }

    /** `Marshal` into an empty buffer. */
    method Marshal(S: Schema, ty: nat, m: Msg) returns (err: Error)
      requires Valid() && len == 0 && WellTyped(S, ty, m)
      modifies this, mem
      ensures Valid()
      ensures err == ErrTooLarge <==> TooBig(S, ty, m, 0) || |Ser(S, ty, m)| > MAX_MARSHAL_SIZE
      ensures err != ErrTooLarge ==> Contents() == Ser(S, ty, m) && Tells(err, Complete(S, ty, m))
    {
      assert Contents() == [];
      err := EncStruct(S, ty, m);
      assert [] + Ser(S, ty, m) == Ser(S, ty, m);
      if len > MAX_MARSHAL_SIZE && err != ErrTooLarge {
        err := ErrTooLarge;
      }
    }
  }

  // ---- When an encoder reports errors ----

  /** The report of an encoder that has written everything there is. */
  predicate Tells(err: Error, complete: bool) {
    err == if complete then NoError else RequiredNotSet
  }

  predicate CompleteFrom(S: Schema, fd: FieldDesc, f: Field, k: nat) {
    forall j :: k <= j < |f.vals| ==> CompleteValue(S, fd.kind, f.vals[j])
  }

  predicate CompleteFields(S: Schema, ty: nat, m: Msg, i: nat)
    requires ty < |S| && |m.fields| == |S[ty].fields|
  {
    forall j :: i <= j < |m.fields| ==> CompleteField(S, S[ty].fields[j], m.fields[j])
  }

  lemma CompleteAll(S: Schema, ty: nat, m: Msg)
    requires ty < |S| && |m.fields| == |S[ty].fields|
    ensures Complete(S, ty, m) <==> CompleteFields(S, ty, m, 0)
  {
  }

  lemma CompleteHere(S: Schema, fd: FieldDesc, f: Field)
    ensures CompleteField(S, fd, f) <==> (fd.mode == Required ==> f.vals != []) && CompleteFrom(S, fd, f, 0)
  {
  }

  lemma PackedComplete(S: Schema, fd: FieldDesc, f: Field, k: nat)
    requires fd.kind.Numeric?
    ensures CompleteFrom(S, fd, f, k)
  {
  }

  /** A type that keeps no unknown fields has none. */
  lemma UnknownBytes(S: Schema, ty: nat, m: Msg)
    requires WellTyped(S, ty, m)
    ensures Ser(S, ty, m) == FieldsFrom(S, S[ty], m, 0) + m.unknown
  {
  }

  /** With the fields before position `i` written, `now` is what there is of `all`; whether it gets too
      big and whether it is complete depend on the other fields. */
  ghost predicate FieldsSoFar(S: Schema, ty: nat, m: Msg, i: nat, all: seq<byte>, big: bool, complete: bool,
                              now: seq<byte>, err: Error)
  {
    && ty < |S| && i <= |m.fields| == |S[ty].fields|
    && now + FieldsFrom(S, S[ty], m, i) == all
    && TooBigFrom(S, ty, m, i, |now|) == big
    && (err == NoError || err == RequiredNotSet)
    && (complete <==> err == NoError && CompleteFields(S, ty, m, i))
  }

  lemma CompleteNext(S: Schema, ty: nat, m: Msg, i: nat)
    requires ty < |S| && i < |m.fields| == |S[ty].fields|
    ensures CompleteFields(S, ty, m, i) <==> CompleteField(S, S[ty].fields[i], m.fields[i])
                                             && CompleteFields(S, ty, m, i + 1)
  {
  }

  lemma BytesNext(S: Schema, d: MsgDesc, m: Msg, i: nat, written: seq<byte>)
    requires i < |m.fields| && i < |d.fields|
    ensures written + FieldsFrom(S, d, m, i)
        == (written + FieldBytes(S, d.fields[i], m.fields[i].vals)) + FieldsFrom(S, d, m, i + 1)
  {
    Associate(written, FieldBytes(S, d.fields[i], m.fields[i].vals), FieldsFrom(S, d, m, i + 1));
  }

  lemma TooBigNext(S: Schema, ty: nat, m: Msg, i: nat, n: nat)
    requires ty < |S| && i < |m.fields| == |S[ty].fields|
    ensures TooBigFrom(S, ty, m, i, n) <==>
              || TooBigHere(S, S[ty].fields[i], m.fields[i], n)
              || TooBigFrom(S, ty, m, i + 1, n + |FieldBytes(S, S[ty].fields[i], m.fields[i].vals)|)
  {
  }

  /** One more field. */
  lemma FieldsMore(S: Schema, ty: nat, m: Msg, i: nat, all: seq<byte>, big: bool, complete: bool,
                   before: seq<byte>, e: Error, now: seq<byte>, err: Error)
    requires FieldsSoFar(S, ty, m, i, all, big, complete, before, e) && i < |m.fields|
    requires err == ErrTooLarge <==> TooBigHere(S, S[ty].fields[i], m.fields[i], |before|)
    requires err != ErrTooLarge ==> now == before + FieldBytes(S, S[ty].fields[i], m.fields[i].vals)
                                    && Tells(err, e == NoError && CompleteField(S, S[ty].fields[i], m.fields[i]))
    ensures if err == ErrTooLarge then big else FieldsSoFar(S, ty, m, i + 1, all, big, complete, now, err)
  {
    CompleteNext(S, ty, m, i);
    TooBigNext(S, ty, m, i, |before|);
    BytesNext(S, S[ty], m, i, before);
  }

  /** The same for the elements of a field. */
  ghost predicate ValuesSoFar(S: Schema, fd: FieldDesc, f: Field, k: nat, all: seq<byte>, big: bool, complete: bool,
                              now: seq<byte>, err: Error)
  {
    && k <= |f.vals|
    && now + Records(S, fd, f.vals[k..]) == all
    && TooBigValues(S, fd, f, k, |now|) == big
    && (err == NoError || err == RequiredNotSet)
    && (complete <==> err == NoError && CompleteFrom(S, fd, f, k))
  }

  lemma CompleteMore(S: Schema, fd: FieldDesc, f: Field, k: nat)
    requires k < |f.vals|
    ensures CompleteFrom(S, fd, f, k) <==> CompleteValue(S, fd.kind, f.vals[k]) && CompleteFrom(S, fd, f, k + 1)
  {
  }

  /** One more element: `e` is its report, `err` that of all of them. */
  lemma ValuesMore(S: Schema, fd: FieldDesc, f: Field, k: nat, all: seq<byte>, big: bool, complete: bool,
                   before: seq<byte>, err0: Error, now: seq<byte>, e: Error, err: Error)
    requires ValuesSoFar(S, fd, f, k, all, big, complete, before, err0) && k < |f.vals|
    requires e == ErrTooLarge <==> TooBigValue(S, fd, f.vals[k], |before|)
    requires e != ErrTooLarge ==> now == before + (Key(fd.tag, WireOf(fd.kind)) + Payload(S, fd, f.vals[k]))
                                  && Tells(e, CompleteValue(S, fd.kind, f.vals[k]))
    requires err == if err0 == NoError then e else err0
    ensures if e == ErrTooLarge then big else ValuesSoFar(S, fd, f, k + 1, all, big, complete, now, err)
  {
    CompleteMore(S, fd, f, k);
    RecordsHead(S, fd, f.vals, k);
    Associate(before, Key(fd.tag, WireOf(fd.kind)) + Payload(S, fd, f.vals[k]), Records(S, fd, f.vals[k + 1..]));
  }

  lemma RecordsHead(S: Schema, fd: FieldDesc, vals: seq<Value>, k: nat)
    requires k < |vals|
    ensures Records(S, fd, vals[k..])
        == (Key(fd.tag, WireOf(fd.kind)) + Payload(S, fd, vals[k])) + Records(S, fd, vals[k + 1..])
  {
    CutFirst(vals, k);
  }

  // The size limit is checked behind every field and before the unknown fields, at every depth, on
  // the whole buffer; `n` is its length when the encoder starts. Inside an embedded message the
  // length prefix counts as the four bytes reserved for it.

  predicate TooBig(S: Schema, ty: nat, m: Msg, n: nat)
    decreases m, 5
  {
    ty < |S| && TooBigFrom(S, ty, m, 0, n)
  }

  predicate TooBigFrom(S: Schema, ty: nat, m: Msg, i: nat, n: nat)
    requires ty < |S| && i <= |m.fields|
    decreases m, 4, |m.fields| - i
  {
    if i == |m.fields| || i >= |S[ty].fields| then S[ty].keepsUnknown && n + |m.unknown| > MAX_MARSHAL_SIZE
    else
      || TooBigHere(S, S[ty].fields[i], m.fields[i], n)
      || TooBigFrom(S, ty, m, i + 1, n + |FieldBytes(S, S[ty].fields[i], m.fields[i].vals)|)
  }

  predicate TooBigHere(S: Schema, fd: FieldDesc, f: Field, n: nat)
    decreases f, 4
  {
    fd.mode != Reserved && (TooBigField(S, fd, f, n) || n + |FieldBytes(S, fd, f.vals)| > MAX_MARSHAL_SIZE)
  }

  predicate TooBigField(S: Schema, fd: FieldDesc, f: Field, n: nat)
    decreases f, 3
  {
    !(fd.mode == Packed && fd.kind.Numeric?) && TooBigValues(S, fd, f, 0, n)
  }

  predicate TooBigValues(S: Schema, fd: FieldDesc, f: Field, k: nat, n: nat)
    requires k <= |f.vals|
    decreases f, 2, |f.vals| - k
  {
    k < |f.vals| &&
    (|| TooBigValue(S, fd, f.vals[k], n)
     || TooBigValues(S, fd, f, k + 1, n + |Key(fd.tag, WireOf(fd.kind)) + Payload(S, fd, f.vals[k])|))
  }

  predicate TooBigValue(S: Schema, fd: FieldDesc, v: Value, n: nat)
    decreases v, 1
  {
    match fd.kind
    case Message(ty) => v.Sub? && TooBig(S, ty, v.m, n + |Key(fd.tag, 2)| + 4)
    case Group(ty) => v.Sub? && TooBig(S, ty, v.m, n + |Key(fd.tag, 3)|)
    case _ => false
  }

  /** The numbers of a packed list, in a buffer of their own. */
  method PackNumbers(S: Schema, fd: FieldDesc, f: Field) returns (packed: seq<byte>)
    requires fd.kind.Numeric? && WellTypedField(S, fd, f)
    ensures packed == Numbers(fd.kind.t, fd.kind.f, f.vals)
  {
    var buf := new Buffer();
    var k := 0;
    assert f.vals[0..] == f.vals && [] + Numbers(fd.kind.t, fd.kind.f, f.vals) == Numbers(fd.kind.t, fd.kind.f, f.vals);
    while k < |f.vals|
      invariant buf.Valid() && fresh(buf) && fresh(buf.mem) && k <= |f.vals|
      invariant buf.Contents() + Numbers(fd.kind.t, fd.kind.f, f.vals[k..]) == Numbers(fd.kind.t, fd.kind.f, f.vals)
    {
      ghost var before := buf.Contents();
      assert WellTypedValue(S, fd.kind, f.vals[k]);
      buf.EncodeNumber(fd.kind.f, Carry(fd.kind.t, f.vals[k].n));
      assert f.vals[k..][1..] == f.vals[k + 1..];
      Associate(before, NumberBytes(fd.kind.t, fd.kind.f, f.vals[k]), Numbers(fd.kind.t, fd.kind.f, f.vals[k + 1..]));
      k := k + 1;
    }
    packed := buf.mem[..buf.len];
    assert packed + [] == packed;
  }

  lemma FourBytes(x: nat)
    ensures LittleEndian(x, 4) == [x % 256, x / 0x100 % 256, x / 0x1_0000 % 256, x / 0x100_0000 % 256]
  {
    assert LittleEndian(x, 4) == [x % 256] + LittleEndian(x / 256, 3);
    assert LittleEndian(x / 256, 3) == [x / 256 % 256] + LittleEndian(x / 256 / 256, 2);
    assert x / 256 / 256 == x / 0x1_0000 && x / 256 / 256 / 256 == x / 0x100_0000;
  }

  lemma EightBytes(x: nat)
    ensures LittleEndian(x, 8) ==
            [x % 256, x / 0x100 % 256, x / 0x1_0000 % 256, x / 0x100_0000 % 256,
             x / 0x1_0000_0000 % 256, x / 0x100_0000_0000 % 256, x / 0x1_0000_0000_0000 % 256,
             x / 0x100_0000_0000_0000 % 256]
  {
    var y := x / 0x1_0000_0000;
    FourBytes(x);
    FourBytes(y);
    EightSplit(x);
    assert y / 0x100 == x / 0x100_0000_0000 && y / 0x1_0000 == x / 0x1_0000_0000_0000
        && y / 0x100_0000 == x / 0x100_0000_0000_0000;
  }

  lemma EightSplit(x: nat)
    ensures LittleEndian(x, 8) == LittleEndian(x, 4) + LittleEndian(x / 0x1_0000_0000, 4)
  {
    var x1 := x / 256;
    var x2 := x1 / 256;
    var x3 := x2 / 256;
    assert x3 / 256 == x / 0x1_0000_0000;
    assert LittleEndian(x3, 5) == [x3 % 256] + LittleEndian(x / 0x1_0000_0000, 4);
    assert LittleEndian(x2, 6) == [x2 % 256] + LittleEndian(x3, 5);
    assert LittleEndian(x1, 7) == [x1 % 256] + LittleEndian(x2, 6);
    assert LittleEndian(x, 4) == [x % 256, x1 % 256, x2 % 256, x3 % 256] by {
      FourBytes(x);
      assert x2 == x / 0x1_0000 && x3 == x / 0x100_0000;
    }
  }
}
