/** Length-delimited payloads and skipping, as functions on the bytes that remain. */
module ProtoWire {
  import opened Bytes
  import opened Options
  import opened ProtoVarint
  import opened ProtoNumbers

  /** Where the payload behind a length varint begins and ends. */
  function RawAt(s: seq<byte>): (r: Option<(nat, nat)>)
    ensures r.Some? ==> 1 <= r.value.0 <= r.value.1 <= |s|
  {
    match VarintAt(s)
    case Value(n, k) => if n < TWO_63 && k + n <= |s| then Some((k, k + n)) else None
    case _ => None
  }

  /** The number of bytes that `skip` consumes for a payload of this wire type, if it succeeds. */
  function Skip(wire: nat, s: seq<byte>): (r: Option<nat>)
    ensures r.Some? ==> 1 <= r.value <= |s|
    decreases |s|, 1
  {
    match wire
    case 0 => (match VarintAt(s) case Value(_, k) => Some(k) case _ => None)
    case 1 => if |s| < 8 then None else Some(8)
    case 2 => (match RawAt(s) case Some((_, end)) => Some(end) case None => None)
    case 3 => SkipGroup(s)
    case 5 => if |s| < 4 then None else Some(4)
    case _ => None
  }

  /** Skips up to and including the next end-group key at this level, whatever its number. */
  function SkipGroup(s: seq<byte>): (r: Option<nat>)
    ensures r.Some? ==> 1 <= r.value <= |s|
    decreases |s|, 0
  {
    match VarintAt(s)
    case Value(u, k) => if u % 8 == 4 then Some(k) else Add(k, SkipItem(u % 8, s[k..]))
    case _ => None
  }

  /** One payload inside a group and the rest of the group. */
  function SkipItem(wire: nat, s: seq<byte>): (r: Option<nat>)
    ensures r.Some? ==> 1 <= r.value <= |s|
    decreases |s|, 2
  {
    match Skip(wire, s)
    case Some(c) => Add(c, SkipGroup(s[c..]))
    case None => None
  }

  function Add(k: nat, n: Option<nat>): Option<nat> {
    match n
    case Some(e) => Some(k + e)
    case None => None
  }

  /** Skipping looks at nothing behind what it consumes. */
  lemma {:induction false} SkipLocal(wire: nat, s: seq<byte>, rest: seq<byte>)
    requires Skip(wire, s).Some?
    ensures Skip(wire, s + rest) == Skip(wire, s)
    decreases |s|, 1
  {
    match wire {
      case 0 => VarintLocal(s, rest);
      case 2 => VarintLocal(s, rest);
      case 3 => SkipGroupLocal(s, rest);
      case _ =>
    }
  }

  lemma {:induction false} SkipGroupLocal(s: seq<byte>, rest: seq<byte>)
    requires SkipGroup(s).Some?
    ensures SkipGroup(s + rest) == SkipGroup(s)
    decreases |s|, 0
  {
    VarintLocal(s, rest);
    var u, k := VarintAt(s).x, VarintAt(s).size;
    if u % 8 != 4 {
      assert (s + rest)[k..] == s[k..] + rest;
      SkipItemLocal(u % 8, s[k..], rest);
    }
  }

  lemma {:induction false} SkipItemLocal(wire: nat, s: seq<byte>, rest: seq<byte>)
    requires SkipItem(wire, s).Some?
    ensures SkipItem(wire, s + rest) == SkipItem(wire, s)
    decreases |s|, 2
  {
    var c := Skip(wire, s).value;
    SkipLocal(wire, s, rest);
    assert (s + rest)[c..] == s[c..] + rest;
    SkipGroupLocal(s[c..], rest);
  }
}
