/** Numeric fields of golang/protobuf/proto: Go kinds, wire formats and their 64-bit carrier. */
module ProtoNumbers {
  import opened Bytes
  import opened Varints
  import opened ProtoVarint

  const TWO_31: nat := 0x8000_0000
  const TWO_32: nat := 0x1_0000_0000
  const TWO_63: nat := 0x8000_0000_0000_0000

  /** Go types of numeric fields; int64, uint64 and float64 are all 64 bits here, and float32 is uint32. */
  datatype Type = Bool | Int32 | Uint32 | Word64

  /** The first word of the struct tag. */
  datatype Format = VarintFormat | Fixed32 | Fixed64 | Zigzag32 | Zigzag64

  function WireType(f: Format): nat {
    match f
    case Fixed64 => 1
    case Fixed32 => 5
    case _ => 0
  }

  predicate InType(t: Type, v: nat) {
    match t
    case Bool => v < 2
    case Word64 => v < TWO_64
    case _ => v < TWO_32
  }

  /** Go's conversion of a field value to the uint64 handed to the wire format: int32 is sign-extended. */
  function Carry(t: Type, v: nat): (x: nat)
    requires InType(t, v)
    ensures x < TWO_64
  {
    if t == Int32 && v >= TWO_31 then v + (TWO_64 - TWO_32) else v
  }

  function Uncarry(t: Type, x: nat): (v: nat)
    requires x < TWO_64
    ensures InType(t, v)
  {
    match t
    case Bool => if x != 0 then 1 else 0
    case Word64 => x
    case _ => x % TWO_32
  }

  /** `(x << 1) ^ (x >> 63)`, the second shift being arithmetic. */
  function Zigzag64Of(x: nat): (z: nat)
    requires x < TWO_64
    ensures z < TWO_64
  {
    if x < TWO_63 then 2 * x else 2 * (TWO_64 - x) - 1
  }

  function Unzigzag64(z: nat): (x: nat)
    requires z < TWO_64
    ensures x < TWO_64
  {
    if z % 2 == 0 then z / 2 else TWO_64 - 1 - z / 2
  }

  /** The same on the low 32 bits. */
  function Zigzag32Of(x: nat): (z: nat)
    ensures z < TWO_32
  {
    var y := x % TWO_32;
    if y < TWO_31 then 2 * y else 2 * (TWO_32 - y) - 1
  }

  function Unzigzag32(z: nat): (x: nat)
    ensures x < TWO_32
  {
    var y := z % TWO_32;
    if y % 2 == 0 then y / 2 else TWO_32 - 1 - y / 2
  }

  /** The bytes of one number. */
  function Put(f: Format, x: nat): (s: seq<byte>)
    requires x < TWO_64
    ensures |s| >= 1
  {
    match f
    case VarintFormat => Varint(x)
    case Fixed32 => LittleEndian(x, 4)
    case Fixed64 => LittleEndian(x, 8)
    case Zigzag32 => Varint(Zigzag32Of(x))
    case Zigzag64 => Varint(Zigzag64Of(x))
  }

  function FixedAt(s: seq<byte>, k: nat): Decoded {
    if |s| < k then UnexpectedEOF else Value(FromLittleEndian(s[..k]), k)
  }

  /** Reading one number. */
  function Get(f: Format, s: seq<byte>): (r: Decoded)
    ensures r.Value? ==> 1 <= r.size <= |s| && r.x < TWO_64
  {
    match f
    case VarintFormat => VarintAt(s)
    case Fixed32 => FixedBound(s, 4); FixedAt(s, 4)
    case Fixed64 => FixedBound(s, 8); FixedAt(s, 8)
    case Zigzag32 =>
      (match VarintAt(s)
       case Value(z, n) => Value(Unzigzag32(z), n)
       case e => e)
    case Zigzag64 =>
      (match VarintAt(s)
       case Value(z, n) => Value(Unzigzag64(z), n)
       case e => e)
  }

  lemma FixedBound(s: seq<byte>, k: nat)
    requires 1 <= k <= 8
    ensures |s| >= k ==> FromLittleEndian(s[..k]) < TWO_64
  {
    if |s| >= k {
      FromLittleEndianRoundTrip(s[..k]);
      Pow256Values();
    }
  }

  lemma Pow256Values()
    ensures Pow256(1) == 0x100 && Pow256(2) == 0x1_0000 && Pow256(3) == 0x100_0000 && Pow256(4) == TWO_32
    ensures Pow256(5) == 0x100_0000_0000 && Pow256(6) == 0x1_0000_0000_0000
    ensures Pow256(7) == 0x100_0000_0000_0000 && Pow256(8) == TWO_64
  {
  }

  lemma ZigzagRoundTrip(x: nat)
    requires x < TWO_64
    ensures Unzigzag64(Zigzag64Of(x)) == x
    ensures Unzigzag32(Zigzag32Of(x)) == x % TWO_32
  {
  }

  // ---- Laws ----

  /** The formats that keep every value of a type: all but the 32-bit ones for 64-bit types. */
  predicate Keeps(f: Format, t: Type) {
    t == Word64 ==> f != Fixed32 && f != Zigzag32
  }

  lemma {:induction false} LittleEndianTruncates(x: nat, k: nat)
    ensures FromLittleEndian(LittleEndian(x, k)) == x % Pow256(k)
  {
    if k > 0 {
      LittleEndianTruncates(x / 256, k - 1);
      assert LittleEndian(x, k)[1..] == LittleEndian(x / 256, k - 1);
      ModStep(x, Pow256(k - 1));
    }
  }

  lemma ModStep(x: nat, p: nat)
    requires p > 0
    ensures x % 256 + 256 * (x / 256 % p) == x % (256 * p)
  {
    var q, r := x / 256 / p, x / 256 % p;
    assert x / 256 == p * q + r;
    assert x == (256 * p) * q + (256 * r + x % 256);
    assert 256 * r + x % 256 < 256 * p;
    DivModUnique(x, 256 * p, q, 256 * r + x % 256);
  }

  lemma DivModUnique(x: nat, d: nat, q: nat, r: nat)
    requires d > 0 && x == d * q + r && r < d
    ensures x % d == r
  {
    var q', r' := x / d, x % d;
    assert d * q + r == d * q' + r';
    if q < q' {
      MulMonotone(q + 1, q', d);
    } else if q' < q {
      MulMonotone(q' + 1, q, d);
    }
  }

  /** The number the other side reads from the bytes of one number. */
  function Received(f: Format, x: nat): nat {
    if f == Fixed32 || f == Zigzag32 then x % TWO_32 else x
  }

  /** Reading what was written consumes exactly those bytes and gives the number, or for the 32-bit
      formats its low 32 bits. */
  lemma GetPut(f: Format, x: nat, rest: seq<byte>)
    requires x < TWO_64
    ensures Get(f, Put(f, x) + rest) == Value(Received(f, x), |Put(f, x)|)
  {
    var s := Put(f, x) + rest;
    match f {
      case VarintFormat => VarintRoundTrip(x, rest);
      case Fixed32 =>
        Pow256Values();
        LittleEndianTruncates(x, 4);
        assert s[..4] == LittleEndian(x, 4);
      case Fixed64 =>
        Pow256Values();
        LittleEndianTruncates(x, 8);
        assert s[..8] == LittleEndian(x, 8);
      case Zigzag32 =>
        VarintRoundTrip(Zigzag32Of(x), rest);
        ZigzagRoundTrip(x);
      case Zigzag64 =>
        VarintRoundTrip(Zigzag64Of(x), rest);
        ZigzagRoundTrip(x);
    }
  }

  /** A format keeps every value of a type exactly when it is not a 32-bit format of a 64-bit type. */
  lemma KeepsIff(f: Format, t: Type)
    ensures Keeps(f, t) <==> forall v: nat :: InType(t, v) ==> Uncarry(t, Received(f, Carry(t, v))) == v
  {
    if !Keeps(f, t) {
      assert InType(t, TWO_32) && Uncarry(t, Received(f, Carry(t, TWO_32))) == 0;
    }
  }

  /** A number's bytes are read the same whatever follows them. */
  lemma NumberRoundTrip(f: Format, t: Type, v: nat, rest: seq<byte>)
    requires Keeps(f, t) && InType(t, v)
    ensures var r := Get(f, Put(f, Carry(t, v)) + rest);
            r.Value? && r.size == |Put(f, Carry(t, v))| && Uncarry(t, r.x) == v
  {
    GetPut(f, Carry(t, v), rest);
    KeepsIff(f, t);
  }
}
