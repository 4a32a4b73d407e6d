/** Bytes, little-endian numbers and the width of Go's `int`. */
module Bytes {

  type byte = x: int | 0 <= x < 256

  /** Go's `int` is 32 or 64 bits wide, depending on the platform. */
  datatype Word = W32 | W64

  function MaxInt(w: Word): (m: nat)
    ensures m >= 0x7fff_ffff
  {
    if w.W32? then 0x7fff_ffff else 0x7fff_ffff_ffff_ffff
  }

  /** The Go conversion `int(x)` of an unsigned 32-bit (or, on W64, narrower than 63-bit) value. */
  function ToInt(w: Word, x: nat): int
    requires x < 0x1_0000_0000
  {
    if w.W32? && x >= 0x8000_0000 then x - 0x1_0000_0000 else x
  }

  /** Go's signed arithmetic: a result just outside the range of `int` wraps around. */
  function Wrap(w: Word, x: int): int {
    if x > MaxInt(w) then x - 2 * (MaxInt(w) + 1)
    else if x + MaxInt(w) + 1 < 0 then x + 2 * (MaxInt(w) + 1)
    else x
  }

  /** `s` with `t` written over it from index `at` on. */
  function Splice(s: seq<byte>, at: nat, t: seq<byte>): (r: seq<byte>)
    requires at + |t| <= |s|
    ensures |r| == |s|
  {
    seq(|s|, i requires 0 <= i < |s| => if at <= i < at + |t| then t[i - at] else s[i])
  }

  lemma SpliceIs(s: seq<byte>, at: nat, t: seq<byte>)
    requires at + |t| <= |s|
    ensures Splice(s, at, t) == s[..at] + t + s[at + |t|..]
  {
  }

  lemma SplicePrefix(s: seq<byte>, at: nat, t: seq<byte>)
    requires at + |t| <= |s|
    ensures Splice(s, at, t)[..at + |t|] == s[..at] + t
  {
  }

  lemma SpliceAppend(s: seq<byte>, at: nat, t: seq<byte>, u: seq<byte>)
    requires at + |t| + |u| <= |s|
    ensures Splice(Splice(s, at, t), at + |t|, u) == Splice(s, at, t + u)
  {
  }

  /** One write behind an earlier one, as a step from `mid` to `now`. */
  lemma SpliceStep(was: seq<byte>, mid: seq<byte>, now: seq<byte>, at: nat, i: nat,
                   written: seq<byte>, last: seq<byte>, all: seq<byte>)
    requires written + last == all && at + |all| <= |was| && i == |written|
    requires mid == Splice(was, at, written) && now == Splice(mid, at + i, last)
    ensures now == Splice(was, at, all)
  {
    SpliceAppend(was, at, written, last);
  }

  /** Nothing has changed at or after index `k`. */
  twostate predicate SameFrom(a: array<byte>, k: nat)
    reads a
  {
    forall j :: k <= j < a.Length ==> a[j] == old(a[j])
  }

  /** Go's built-in `copy(dst[at:], src)` when everything fits. */
  method CopyInto(dst: array<byte>, at: nat, src: seq<byte>)
    requires at + |src| <= dst.Length
    modifies dst
    ensures dst[..] == Splice(old(dst[..]), at, src)
  {
    SpliceIs(dst[..], at, src);
    forall k | 0 <= k < |src| {
      dst[at + k] := src[k];
    }
  }

  /** The `k` low-order bytes of `n`, least significant first. */
  function LittleEndian(n: nat, k: nat): (s: seq<byte>)
    ensures |s| == k
  {
    if k == 0 then [] else [n % 256] + LittleEndian(n / 256, k - 1)
  }

  function FromLittleEndian(s: seq<byte>): nat {
    if s == [] then 0 else s[0] + 256 * FromLittleEndian(s[1..])
  }

  function Pow256(k: nat): (p: nat)
    ensures p >= 1
  {
    if k == 0 then 1 else 256 * Pow256(k - 1)
  }

  /** The two directions of the little-endian representation are inverse on `k` bytes. */
  lemma {:induction false} LittleEndianRoundTrip(n: nat, k: nat)
    requires n < Pow256(k)
    ensures FromLittleEndian(LittleEndian(n, k)) == n
  {
    if k > 0 {
      LittleEndianRoundTrip(n / 256, k - 1);
      assert LittleEndian(n, k)[1..] == LittleEndian(n / 256, k - 1);
    }
  }

  lemma {:induction false} FromLittleEndianRoundTrip(s: seq<byte>)
    ensures FromLittleEndian(s) < Pow256(|s|)
    ensures LittleEndian(FromLittleEndian(s), |s|) == s
  {
    if s != [] {
      FromLittleEndianRoundTrip(s[1..]);
      assert FromLittleEndian(s) / 256 == FromLittleEndian(s[1..]);
    }
  }
}
