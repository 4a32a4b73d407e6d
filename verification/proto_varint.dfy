/** The three varint decoders and the varint encoders of golang/protobuf/proto. */
module ProtoVarint {
  import opened Bytes
  import opened Options
  import opened Sequences
  import opened Varints

  /** What decoding a varint at the start of some bytes gives. */
  datatype Decoded = Value(x: nat, size: nat) | UnexpectedEOF | Overflow

  /** At most ten bytes are looked at, and of the tenth only the lowest bit reaches the result. */
  function VarintAt(s: seq<byte>): (r: Decoded)
    ensures r.Value? ==> 1 <= r.size <= |s| && r.x < TWO_64
  {
    if Scan(s).Some? && Scan(s).value.1 <= 10 then Value(Scan(s).value.0 % TWO_64, Scan(s).value.1)
    else if |s| >= 10 then Overflow
    else UnexpectedEOF
  }

  /** The first `n` bytes of `s` all announce another byte. */
  predicate Continues(s: seq<byte>, n: nat) {
    n <= |s| && forall j :: 0 <= j < n ==> s[j] >= 128
  }

  /** The number that the low seven bits of the first `n` bytes stand for. */
  function Low(s: seq<byte>, n: nat): nat
    requires n <= |s|
  {
    if n == 0 then 0 else Low(s, n - 1) + s[n - 1] % 128 * Pow128(n - 1)
  }

  lemma MulMonotone(a: nat, b: nat, p: nat)
    requires a <= b
    ensures a * p <= b * p
  {
  }

  lemma MulAtMost(a: nat, b: nat, c: nat, d: nat)
    requires a <= c && b <= d
    ensures a * b <= c * d
  {
    MulMonotone(a, c, b);
    MulMonotone(b, d, c);
    assert b * c == c * b && d * c == c * d;
  }

  lemma MulAssociates(a: nat, b: nat, c: nat)
    ensures a * (b * c) == b * (a * c)
  {
  }

  lemma {:induction false} LowTail(s: seq<byte>, n: nat)
    requires 1 <= n <= |s|
    ensures Low(s, n) == s[0] % 128 + 128 * Low(s[1..], n - 1)
  {
    if n > 1 {
      LowTail(s, n - 1);
      MulAssociates(s[n - 1] % 128, 128, Pow128(n - 2));
    }
  }

  lemma {:induction false} LowBound(s: seq<byte>, n: nat)
    requires n <= |s|
    ensures Low(s, n) < Pow128(n)
  {
    if n > 0 {
      LowBound(s, n - 1);
      MulMonotone(s[n - 1] % 128, 127, Pow128(n - 1));
    }
  }

  /** A varint ends at its first byte below 128; its value is made of the low bits up to there. */
  lemma {:induction false} ScanLow(s: seq<byte>, n: nat)
    requires Continues(s, n) && n < |s| && s[n] < 128
    ensures Scan(s) == Some((Low(s, n + 1), n + 1))
  {
    LowTail(s, n + 1);
    ScanStep(s);
    if n > 0 {
      ScanLow(s[1..], n - 1);
    }
  }

  lemma {:induction false} ScanContinues(s: seq<byte>, n: nat)
    requires Continues(s, n)
    ensures Scan(s).Some? ==> Scan(s).value.1 > n
  {
    if n > 0 {
      ScanStep(s);
      ScanContinues(s[1..], n - 1);
    }
  }

  /** The outcome for bytes of which the first `n` have been read. */
  lemma VarintLow(s: seq<byte>, n: nat)
    requires Continues(s, n) && n <= 10
    ensures n < 10 && n == |s| ==> VarintAt(s) == UnexpectedEOF
    ensures n == 10 ==> VarintAt(s) == Overflow
    ensures n < 10 && n < |s| && s[n] < 128 ==> VarintAt(s) == Value(Low(s, n + 1) % TWO_64, n + 1)
  {
    ScanContinues(s, n);
    if n < |s| && s[n] < 128 {
      ScanLow(s, n);
    }
  }

  /** `(b & 0x7f) << shift` for shift 7 n, in 64 bits. */
  function Shifted(b: byte, n: nat): (r: nat)
    ensures r < TWO_64
  {
    b % 128 * Pow128(n) % TWO_64
  }

  /** The tenth byte: only its lowest bit has a place in 64 bits. */
  lemma TenthByte(low: nat, b: nat)
    requires low < 0x8000_0000_0000_0000 && b < 128
    ensures b * 0x8000_0000_0000_0000 % TWO_64 == b % 2 * 0x8000_0000_0000_0000
    ensures low + b % 2 * 0x8000_0000_0000_0000 == (low + b * 0x8000_0000_0000_0000) % TWO_64
  {
    assert b == b / 2 * 2 + b % 2;
  }

  /** One step of the accumulation in 64 bits: below the tenth byte nothing is lost, and the tenth
      contributes exactly what the unbounded value has there, modulo 2^64. */
  lemma LowStep(s: seq<byte>, n: nat)
    requires n < |s| && n < 10
    ensures Low(s, n) < 0x8000_0000_0000_0000
    ensures Low(s, n) + Shifted(s[n], n) == Low(s, n + 1) % TWO_64
    ensures n < 9 ==> Shifted(s[n], n) == s[n] % 128 * Pow128(n) && Low(s, n + 1) < 0x8000_0000_0000_0000
  {
    LowBound(s, n);
    Powers(n);
    if n < 9 {
      LowBound(s, n + 1);
      Powers(n + 1);
      MulMonotone(0, s[n] % 128, Pow128(n));
      SmallSum(Low(s, n), s[n] % 128 * Pow128(n));
    } else {
      TenthByte(Low(s, n), s[n] % 128);
    }
  }

  lemma SmallSum(low: nat, step: nat)
    requires low + step < TWO_64
    ensures step % TWO_64 == step && (low + step) % TWO_64 == low + step
  {
  }

  lemma Powers(n: nat)
    requires n <= 9
    ensures Pow128(n) <= 0x8000_0000_0000_0000
    ensures n == 9 ==> Pow128(n) == 0x8000_0000_0000_0000
  {
    Pow128Values();
    PowersGrow(n, 9);
  }

  lemma {:induction false} PowersGrow(m: nat, n: nat)
    requires m <= n
    ensures Pow128(m) <= Pow128(n)
  {
    if m < n {
      PowersGrow(m, n - 1);
    }
  }

  // ---- Laws ----

  /** Every uint64 has a varint of at most ten bytes, and decoding gives it back and takes exactly
      those bytes. */
  lemma VarintRoundTrip(x: nat, rest: seq<byte>)
    requires x < TWO_64
    ensures |Varint(x)| <= 10
    ensures VarintAt(Varint(x) + rest) == Value(x, |Varint(x)|)
  {
    Pow128Values();
    VarintSize(x, 10);
    ScanVarint(x, rest);
  }

  /** A decoded varint depends on its own bytes only. */
  lemma VarintLocal(s: seq<byte>, rest: seq<byte>)
    requires VarintAt(s).Value?
    ensures VarintAt(s + rest) == VarintAt(s)
  {
    ScanBound(s, rest);
  }

  // ---- The package-level functions ----

  /** The value and the number of bytes consumed, or two zeros. */
  method DecodeVarint(buf: seq<byte>) returns (x: nat, n: nat)
    ensures match VarintAt(buf)
            case Value(value, size) => x == value && n == size
            case _ => x == 0 && n == 0
  {
    x, n := 0, 0;
    var shift := 0;
    while shift < 64
      invariant shift == 7 * n && n <= 10 && Continues(buf, n)
      invariant x == Low(buf, n) % TWO_64 && (n < 10 ==> x == Low(buf, n))
    {
      VarintLow(buf, n);
      if n >= |buf| { return 0, 0; }
      LowStep(buf, n);
      var b := buf[n];
      n := n + 1;
      x := x + Shifted(b, n - 1);
      if b < 128 { return x, n; }
      shift := shift + 7;
    }
    VarintLow(buf, 10);
    return 0, 0;
  }

  /** Writes into a buffer of ten bytes, which every uint64 fits. */
  method EncodeVarint(x0: nat) returns (s: seq<byte>)
    requires x0 < TWO_64
    ensures s == Varint(x0)
  {
    var buf := new byte[10];
    Pow128Values();
    VarintSize(x0, 10);
    var x, n := x0, 0;
    while x > 127
      invariant n + |Varint(x)| == |Varint(x0)| <= 10
      invariant buf[..n] + Varint(x) == Varint(x0)
      decreases x
    {
      ghost var written := buf[..n];
      buf[n] := 128 + x % 128;
      assert buf[..n + 1] == written + [buf[n]];
      Associate(written, [buf[n]], Varint(x / 128));
      x := x / 128;
      n := n + 1;
    }
    ghost var written := buf[..n];
    buf[n] := x;
    n := n + 1;
    assert buf[..n] == written + [buf[n - 1]];
    return buf[0..n];
  }

  method SizeVarint(x0: nat) returns (n: nat)
    ensures n == |Varint(x0)|
  {
    var x := x0;
    n := 0;
    while true
      invariant n + |Varint(x)| == |Varint(x0)|
      decreases x
    {
      n := n + 1;
      if x / 128 == 0 { break; }
      x := x / 128;
    }
  }
}
