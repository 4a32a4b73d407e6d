/** The Snappy block format (golang/snappy/snappy.go:15-39): the chunks a block is made of,
    their bytes on the wire and what each of them does to the output so far. */
module SnappyFormat {
  import opened Bytes
  import opened Options
  import opened Sequences

  datatype CopyForm = Copy1 | Copy2 | Copy4

  /** One chunk. `ext` is the number of length bytes that follow the tag byte of a literal. */
  datatype Element =
    | Literal(ext: nat, data: seq<byte>)
    | Copy(form: CopyForm, offset: nat, length: nat)

  /** The ranges the format gives for each kind of tag. */
  predicate InRange(e: Element) {
    match e
    case Literal(ext, data) =>
      && ext <= 4
      && 1 <= |data|
      && (if ext == 0 then |data| <= 60 else |data| <= Pow256(ext))
    case Copy(Copy1, offset, length) => offset < 0x800 && 4 <= length < 12
    case Copy(Copy2, offset, length) => offset < 0x1_0000 && 1 <= length < 65
    case Copy(Copy4, offset, length) => offset < 0x1_0000_0000 && 1 <= length < 65
  }

  /** The bytes of a chunk: tag byte, length or offset bytes, literal bytes. */
  function Wire(e: Element): (s: seq<byte>)
    ensures |s| > 0
  {
    match e
    case Literal(ext, data) =>
      var m := if ext == 0 then |data| - 1 else 59 + ext;
      [(4 * m) % 256] + LittleEndian(if |data| == 0 then 0 else |data| - 1, ext) + data
    case Copy(Copy1, offset, length) =>
      [(32 * (offset / 0x100) + 4 * (length - 4) + 1) % 256, offset % 256]
    case Copy(Copy2, offset, length) =>
      [(4 * (length - 1) + 2) % 256, offset % 256, offset / 0x100 % 256]
    case Copy(Copy4, offset, length) =>
      [(4 * (length - 1) + 3) % 256] + LittleEndian(offset, 4)
  }

  function WireAll(es: seq<Element>): seq<byte> {
    FlatMap(Wire, es)
  }

  /** Lempel-Ziv copying, one byte at a time, so that a run may overlap what it produces. */
  function CopyRun(out: seq<byte>, offset: nat, n: nat): (r: seq<byte>)
    requires 1 <= offset <= |out|
    ensures |r| == |out| + n
  {
    if n == 0 then out
    else
      var r := CopyRun(out, offset, n - 1);
      r + [r[|r| - offset]]
  }

  predicate Applicable(e: Element, out: seq<byte>) {
    InRange(e) && (e.Copy? ==> 1 <= e.offset <= |out|)
  }

  function Apply(e: Element, out: seq<byte>): (r: seq<byte>)
    requires Applicable(e, out)
    ensures |r| > |out|
  {
    match e
    case Literal(_, data) => out + data
    case Copy(_, offset, length) => CopyRun(out, offset, length)
  }

  /** The meaning of a chunk sequence: the output it produces from `out`, if every copy reaches
      back to a byte that exists. */
  function Run(es: seq<Element>, out: seq<byte>): Option<seq<byte>> {
    if es == [] then Some(out)
    else if Applicable(es[0], out) then Run(es[1..], Apply(es[0], out))
    else None
  }

  /** `es` is a block body whose bytes are `wire` and whose meaning is `data`. */
  ghost predicate Denotes(es: seq<Element>, wire: seq<byte>, out: seq<byte>, data: seq<byte>) {
    WireAll(es) == wire && Run(es, out) == Some(data)
  }

  /** Some chunk sequence has bytes `wire` and meaning `data`. */
  ghost predicate IsBody(wire: seq<byte>, data: seq<byte>) {
    exists es :: Denotes(es, wire, [], data)
  }

  lemma {:induction false} RunConcat(a: seq<Element>, b: seq<Element>, out: seq<byte>)
    ensures Run(a + b, out) == if Run(a, out).Some? then Run(b, Run(a, out).value) else None
  {
    if a == [] {
      assert a + b == b;
    } else {
      assert (a + b)[1..] == a[1..] + b;
      if Applicable(a[0], out) {
        RunConcat(a[1..], b, Apply(a[0], out));
      }
    }
  }

  lemma {:induction false} CopyRunPrefix(pre: seq<byte>, out: seq<byte>, offset: nat, n: nat)
    requires 1 <= offset <= |out|
    ensures CopyRun(pre + out, offset, n) == pre + CopyRun(out, offset, n)
  {
    if n > 0 {
      CopyRunPrefix(pre, out, offset, n - 1);
    }
  }

  /** A block body means the same after any earlier output: copies never see past their own start. */
  lemma {:induction false} RunPrefix(es: seq<Element>, pre: seq<byte>, out: seq<byte>)
    requires Run(es, out).Some?
    ensures Run(es, pre + out) == Some(pre + Run(es, out).value)
  {
    if es != [] {
      match es[0] {
        case Literal(_, data) => assert (pre + out) + data == pre + (out + data);
        case Copy(_, offset, length) => CopyRunPrefix(pre, out, offset, length);
      }
      RunPrefix(es[1..], pre, Apply(es[0], out));
    }
  }

  lemma {:induction false} RunGrows(es: seq<Element>, out: seq<byte>)
    requires Run(es, out).Some?
    ensures |Run(es, out).value| >= |out|
  {
    if es != [] {
      RunGrows(es[1..], Apply(es[0], out));
    }
  }
}
