/** Base-128 varints: the common ground of the Snappy length header and the protobuf wire format. */
module Varints {
  import opened Bytes
  import opened Options

  const TWO_64: nat := 0x1_0000_0000_0000_0000

  /** Seven bits per byte, least significant first, the high bit set on every byte but the last. */
  function Varint(n: nat): (s: seq<byte>)
    ensures |s| >= 1
  {
    if n < 128 then [n] else [n % 128 + 128] + Varint(n / 128)
  }

  /** The unbounded value and the size of the varint at the start of `s`; None when `s` ends first. */
  function Scan(s: seq<byte>): (r: Option<(nat, nat)>)
    ensures r.Some? ==> 1 <= r.value.1 <= |s|
  {
    ScanFrom(s, 0)
  }

  function ScanFrom(s: seq<byte>, i: nat): (r: Option<(nat, nat)>)
    requires i <= |s|
    ensures r.Some? ==> 1 <= r.value.1 <= |s| - i
    decreases |s| - i
  {
    if i == |s| then None
    else if s[i] < 128 then Some((s[i], 1))
    else
      match ScanFrom(s, i + 1)
      case None => None
      case Some((v, k)) => Some((s[i] - 128 + 128 * v, k + 1))
  }

  lemma {:induction false} ScanFromIs(s: seq<byte>, i: nat, j: nat)
    requires i <= j <= |s|
    ensures ScanFrom(s, j) == ScanFrom(s[i..], j - i)
    decreases |s| - j
  {
    if j < |s| {
      ScanFromIs(s, i, j + 1);
    }
  }

  /** Scanning one byte and then the rest. */
  lemma ScanStep(s: seq<byte>)
    requires s != []
    ensures Scan(s) ==
            if s[0] < 128 then Some((s[0], 1))
            else if Scan(s[1..]).None? then None
            else Some((s[0] - 128 + 128 * Scan(s[1..]).value.0, Scan(s[1..]).value.1 + 1))
  {
    ScanFromIs(s, 1, 1);
  }

  function Pow128(k: nat): (p: nat)
    ensures p >= 1
  {
    if k == 0 then 1 else 128 * Pow128(k - 1)
  }

  /** Scanning a written varint returns the number and consumes exactly its bytes. */
  lemma {:induction false} ScanVarint(n: nat, rest: seq<byte>)
    ensures Scan(Varint(n) + rest) == Some((n, |Varint(n)|))
  {
    ScanStep(Varint(n) + rest);
    if n >= 128 {
      ScanVarint(n / 128, rest);
      assert (Varint(n) + rest)[1..] == Varint(n / 128) + rest;
    }
  }

  /** A varint of at most `k` bytes holds exactly the numbers below 128 to the power `k`. */
  lemma {:induction false} VarintSize(n: nat, k: nat)
    requires k >= 1
    ensures |Varint(n)| <= k <==> n < Pow128(k)
  {
    if n < 128 {
      assert Pow128(k) == 128 * Pow128(k - 1);
    } else if k == 1 {
      assert Pow128(1) == 128;
    } else {
      VarintSize(n / 128, k - 1);
    }
  }

  lemma Pow128Values()
    ensures Pow128(5) == 0x8_0000_0000
    ensures Pow128(9) == 0x8000_0000_0000_0000
    ensures Pow128(10) == 0x40_0000_0000_0000_0000
  {
    assert Pow128(2) == 0x4000;
    assert Pow128(4) == 0x1000_0000;
    assert Pow128(6) == 0x400_0000_0000;
    assert Pow128(8) == 0x100_0000_0000_0000;
  }

  /** The value scanned from `k` bytes needs no more than `k` groups of seven bits, and the scan
      looks at nothing after them. */
  lemma {:induction false} ScanBound(s: seq<byte>, rest: seq<byte>)
    requires Scan(s).Some?
    ensures Scan(s).value.0 < Pow128(Scan(s).value.1)
    ensures Scan(s + rest) == Scan(s)
  {
    ScanStep(s);
    ScanStep(s + rest);
    if s[0] >= 128 {
      ScanBound(s[1..], rest);
      assert (s + rest)[1..] == s[1..] + rest;
    }
  }
}
