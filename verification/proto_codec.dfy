/** Encoder, sizer and decoder of the protobuf codec together. */
module ProtoCodec {
  import opened ProtoSchema
  import opened ProtoLaws
  import opened ProtoSize
  import Encoder = ProtoEncoder
  import Decoder = ProtoDecoder

  /** Whatever can be marshalled without an error has the size that was announced and is unmarshalled
      to the same message; what cannot lacks a required field or is too large. */
  method RoundTrip(S: Schema, ty: nat, m: Msg) returns (err: Encoder.Error, size: nat, ok: bool, m': Msg, missing: bool)
    requires ValidSchema(S) && WellTyped(S, ty, m)
    ensures err == Encoder.NoError ==> ok && m' == m && !missing && size == |Ser(S, ty, m)|
    ensures err == Encoder.ErrTooLarge <==> |Ser(S, ty, m)| > Encoder.MAX_MARSHAL_SIZE || Exceeds(0, Peak(S, ty, m))
    ensures err == Encoder.NoError || err == Encoder.RequiredNotSet || err == Encoder.ErrTooLarge
    ensures err != Encoder.ErrTooLarge ==> (err == Encoder.NoError <==> Complete(S, ty, m))
  {
    var e := new Encoder.Buffer();
    err := e.Marshal(S, ty, m);
    TooBigIff(S, ty, m, 0);
    size := SizeStruct(S, ty, m);
    if err != Encoder.NoError { return err, size, false, m, true; }
    ProtoLaws.RoundTrip(S, ty, m);
    var d := new Decoder.Buffer(e.mem[..e.len]);
    ok, m', missing := d.Unmarshal(S, ty);
  }
}
