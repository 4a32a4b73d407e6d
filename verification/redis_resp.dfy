/** The Redis serialization protocol as garyburd/redigo/redis/conn.go reads and writes it. */
module RespFormat {
  import opened Bytes
  import opened Options
  import opened Sequences

  const CR: byte := 13
  const LF: byte := 10
  const CRLF: seq<byte> := [13, 10]

  const TWO_63: int := 0x8000_0000_0000_0000
  const TWO_64: int := 0x1_0000_0000_0000_0000

  /** Go's 64-bit signed integers. */
  function Wrap64(x: int): (r: int)
    ensures -TWO_63 <= r < TWO_63
  {
    (x + TWO_63) % TWO_64 - TWO_63
  }

  datatype Reply =
    | Simple(text: seq<byte>)
    | Error(text: seq<byte>)
    | Int(n: int)
    | Bulk(data: seq<byte>)
    | Null
    | Array(elems: seq<Reply>)

  // ---- Numbers ----

  function Digits(n: nat): (s: seq<byte>)
    ensures s != []
  {
    if n < 10 then [48 + n] else Digits(n / 10) + [48 + n % 10]
  }

  predicate IsDigit(b: byte) {
    48 <= b <= 57
  }

  predicate AllDigits(p: seq<byte>) {
    forall b :: b in p ==> IsDigit(b)
  }

  /** The number that digits stand for, however many there are. */
  function Decimal(p: seq<byte>): int {
    if p == [] then 0 else 10 * Decimal(p[..|p| - 1]) + (p[|p| - 1] as int - 48)
  }

  lemma {:induction false} DecimalDigits(n: nat)
    ensures Decimal(Digits(n)) == n && AllDigits(Digits(n))
  {
    if n < 10 {
      assert Digits(n)[..0] == [];
    } else {
      DecimalDigits(n / 10);
      assert Digits(n)[..|Digits(n)| - 1] == Digits(n / 10);
    }
  }

  function Pow10(k: nat): (p: nat)
    ensures p >= 1
  {
    if k == 0 then 1 else 10 * Pow10(k - 1)
  }

  /** A number below 10 to the power k has at most k digits. */
  lemma {:induction false} DigitsSize(n: nat, k: nat)
    requires k >= 1 && n < Pow10(k)
    ensures |Digits(n)| <= k
  {
    if n >= 10 {
      DigitsSize(n / 10, k - 1);
    }
  }

  lemma Int64Digits(n: nat)
    requires n <= TWO_63
    ensures |Digits(n)| <= 19
  {
    assert Pow10(4) == 1_0000;
    assert Pow10(8) == 1_0000_0000 by { assert Pow10(6) == 100_0000; }
    assert Pow10(12) == 1_0000_0000_0000 by { assert Pow10(10) == 100_0000_0000; }
    assert Pow10(16) == 1_0000_0000_0000_0000 by { assert Pow10(14) == 100_0000_0000_0000; }
    assert Pow10(19) == 1000_0000_0000_0000_0000 by { assert Pow10(18) == 100_0000_0000_0000_0000; }
    DigitsSize(n, 19);
  }

  /** A signed decimal number. */
  function Signed(n: int): seq<byte> {
    if n < 0 then [45] + Digits(-n) else Digits(n)
  }

  /** `parseLen`: None for a protocol error. Any length that overflows to a negative number reads as
      a null reply, like -1. */
  function ParseLen(p: seq<byte>): Option<int> {
    if p == [] then None
    else if p == [45, 49] then Some(-1)
    else if AllDigits(p) then Some(Wrap64(Decimal(p)))
    else None
  }

  function ParseInt(p: seq<byte>): Option<int> {
    if p == [] then None
    else if p[0] == 45 then
      if p[1..] != [] && AllDigits(p[1..]) then Some(Wrap64(-Wrap64(Decimal(p[1..])))) else None
    else if AllDigits(p) then Some(Wrap64(Decimal(p)))
    else None
  }

  lemma WrapInRange(n: int)
    requires -TWO_63 <= n < TWO_63
    ensures Wrap64(n) == n
  {
  }

  lemma WrapNegated(n: int)
    requires -TWO_63 <= n < 0
    ensures Wrap64(-Wrap64(-n)) == n
  {
    if n > -TWO_63 {
      WrapInRange(-n);
      WrapInRange(n);
    }
  }

  /** A decimal length is understood exactly when it fits an int64; longer ones wrap around. */
  lemma ParsesLenIff(n: nat)
    ensures ParseLen(Digits(n)) == Some(n) <==> n < TWO_63
    ensures ParseLen(Digits(n)) == Some(Wrap64(n))
  {
    DecimalDigits(n);
    assert Digits(n)[0] in Digits(n);
    if n < TWO_63 {
      WrapInRange(n);
    }
  }

  /** Every int64 is read back, the smallest one too: it overflows twice. */
  lemma ParsesInt(n: int)
    requires -TWO_63 <= n < TWO_63
    ensures ParseInt(Signed(n)) == Some(n)
  {
    if n < 0 {
      DecimalDigits(-n);
      WrapNegated(n);
      assert Signed(n)[1..] == Digits(-n);
    } else {
      DecimalDigits(n);
      WrapInRange(n);
      assert Digits(n)[0] in Digits(n);
    }
  }

  // ---- Lines and replies ----

  /** The position of the first line feed from `i` on. */
  function LineFeed(s: seq<byte>, i: nat): (r: Option<nat>)
    requires i <= |s|
    ensures r.Some? ==> i <= r.value < |s| && s[r.value] == LF && forall j :: i <= j < r.value ==> s[j] != LF
    ensures r.None? ==> forall j :: i <= j < |s| ==> s[j] != LF
    decreases |s| - i
  {
    if i == |s| then None else if s[i] == LF then Some(i) else LineFeed(s, i + 1)
  }

  /** `readLine`: the line without its terminator and what follows it. `limit` is the size of the
      reader's buffer, which a line must fit. */
  function ReadLine(limit: nat, s: seq<byte>): (r: Option<(seq<byte>, seq<byte>)>)
    ensures r.Some? ==> |r.value.0| + |r.value.1| + 2 == |s|
  {
    match LineFeed(s, 0)
    case None => None
    case Some(k) => if k + 1 > limit || k == 0 || s[k - 1] != CR then None else Some((s[..k - 1], s[k + 1..]))
  }

  /** `readReply`: the reply at the start of `s` and what follows it. */
  function ReadReply(limit: nat, s: seq<byte>): (r: Option<(Reply, seq<byte>)>)
    ensures r.Some? ==> |r.value.1| < |s|
    decreases |s|, 0, 0
  {
    match ReadLine(limit, s)
    case None => None
    case Some((line, rest)) =>
      if line == [] then None
      else if line[0] == 43 then Some((Simple(line[1..]), rest))
      else if line[0] == 45 then Some((Error(line[1..]), rest))
      else if line[0] == 58 then
        (match ParseInt(line[1..]) case Some(n) => Some((Int(n), rest)) case None => None)
      else if line[0] == 36 then
        (match ParseLen(line[1..]) case Some(n) => ReadBulk(limit, n, rest) case None => None)
      else if line[0] == 42 then
        (match ParseLen(line[1..])
         case Some(n) =>
           if n < 0 then Some((Null, rest))
           else
             (match ReadReplies(limit, n, rest)
              case Some((rs, rest')) => Some((Array(rs), rest'))
              case None => None)
         case None => None)
      else None
  }

  function ReadBulk(limit: nat, n: int, s: seq<byte>): (r: Option<(Reply, seq<byte>)>)
    ensures r.Some? ==> |r.value.1| <= |s|
  {
    if n < 0 then Some((Null, s))
    else if n > |s| then None
    else
      match ReadLine(limit, s[n..])
      case Some((line, rest)) => if line == [] then Some((Bulk(s[..n]), rest)) else None
      case None => None
  }

  function ReadReplies(limit: nat, n: nat, s: seq<byte>): (r: Option<(seq<Reply>, seq<byte>)>)
    ensures r.Some? ==> |r.value.0| == n && |r.value.1| <= |s|
    decreases |s|, 1, n
  {
    if n == 0 then Some(([], s))
    else
      match ReadReply(limit, s)
      case None => None
      case Some((r, rest)) =>
        match ReadReplies(limit, n - 1, rest)
        case Some((rs, rest')) => Some(([r] + rs, rest'))
        case None => None
  }

  // ---- Printing ----

  function BulkBytes(b: seq<byte>): seq<byte> {
    ([36] + Digits(|b|) + CRLF) + (b + CRLF)
  }

  function Print(r: Reply): seq<byte>
    decreases r, 0
  {
    match r
    case Simple(text) => [43] + text + CRLF
    case Error(text) => [45] + text + CRLF
    case Int(n) => [58] + Signed(n) + CRLF
    case Bulk(b) => BulkBytes(b)
    case Null => [36, 45, 49] + CRLF
    case Array(rs) => ([42] + Digits(|rs|) + CRLF) + PrintFrom(rs, 0)
  }

  function PrintFrom(rs: seq<Reply>, i: nat): seq<byte>
    requires i <= |rs|
    decreases rs, |rs| - i
  {
    if i == |rs| then [] else Print(rs[i]) + PrintFrom(rs, i + 1)
  }

  /** A reply that fits the protocol and the reader's buffer: lines hold no line feed, numbers are
      64-bit. */
  predicate Printable(limit: nat, r: Reply)
    decreases r, 0
  {
    match r
    case Simple(text) => LF !in text && |text| + 3 <= limit
    case Error(text) => LF !in text && |text| + 3 <= limit
    case Int(n) => -TWO_63 <= n < TWO_63
    case Bulk(b) => |b| < TWO_63
    case Null => true
    case Array(rs) => |rs| < TWO_63 && forall i :: 0 <= i < |rs| ==> Printable(limit, rs[i])
  }

  lemma LineRoundTrip(limit: nat, line: seq<byte>, rest: seq<byte>)
    requires LF !in line && |line| + 2 <= limit
    ensures ReadLine(limit, line + CRLF + rest) == Some((line, rest))
  {
    var s := line + CRLF + rest;
    var r := LineFeed(s, 0);
    assert s[|line| + 1] == LF && s[|line|] == CR;
    assert forall j :: 0 <= j < |line| ==> s[j] == line[j] && line[j] in line;
    assert r == Some(|line| + 1);
    assert s[..|line|] == line && s[|line| + 2..] == rest;
  }

  lemma NumberLine(limit: nat, prefix: byte, n: int, rest: seq<byte>)
    requires -TWO_63 <= n < TWO_63 && limit >= 32 && prefix != LF
    ensures ReadLine(limit, [prefix] + Signed(n) + CRLF + rest) == Some(([prefix] + Signed(n), rest))
    ensures ([prefix] + Signed(n))[1..] == Signed(n)
  {
    var m := if n < 0 then -n else n;
    DecimalDigits(m);
    Int64Digits(m);
    LineRoundTrip(limit, [prefix] + Signed(n), rest);
  }

  lemma BulkRoundTrip(limit: nat, b: seq<byte>, rest: seq<byte>)
    requires limit >= 32 && |b| < TWO_63
    ensures ReadReply(limit, BulkBytes(b) + rest) == Some((Bulk(b), rest))
  {
    var tail := b + CRLF + rest;
    assert BulkBytes(b) + rest == [36] + Digits(|b|) + CRLF + tail;
    NumberLine(limit, 36, |b|, tail);
    ParsesLenIff(|b|);
    LineRoundTrip(limit, [], rest);
    assert tail[|b|..] == [] + CRLF + rest && tail[..|b|] == b;
  }

  lemma TextRoundTrip(limit: nat, prefix: byte, text: seq<byte>, rest: seq<byte>)
    requires (prefix == 43 || prefix == 45) && LF !in text && |text| + 3 <= limit
    ensures ReadReply(limit, ([prefix] + text + CRLF) + rest) == Some((if prefix
        == 43 then Simple(text) else Error(text), rest))
  {
    LineRoundTrip(limit, [prefix] + text, rest);
    assert ([prefix] + text)[1..] == text;
  }

  lemma IntRoundTrip(limit: nat, n: int, rest: seq<byte>)
    requires limit >= 32 && -TWO_63 <= n < TWO_63
    ensures ReadReply(limit, ([58] + Signed(n) + CRLF) + rest) == Some((Int(n), rest))
  {
    NumberLine(limit, 58, n, rest);
    ParsesInt(n);
  }

  lemma ArrayRoundTrip(limit: nat, rs: seq<Reply>, elems: seq<byte>, rest: seq<byte>)
    requires limit >= 32 && |rs| < TWO_63 && ReadReplies(limit, |rs|, elems + rest) == Some((rs, rest))
    ensures ReadReply(limit, (([42] + Digits(|rs|) + CRLF) + elems) + rest) == Some((Array(rs), rest))
  {
    Associate([42] + Digits(|rs|) + CRLF, elems, rest);
    NumberLine(limit, 42, |rs|, elems + rest);
    ParsesLenIff(|rs|);
  }

  /** Reading what was printed gives the reply back and leaves what follows, for every reply. */
  lemma {:induction false} PrintRoundTrip(limit: nat, r: Reply, rest: seq<byte>)
    requires limit >= 32 && Printable(limit, r)
    ensures ReadReply(limit, Print(r) + rest) == Some((r, rest))
    decreases r, 0
  {
    match r {
      case Simple(text) => TextRoundTrip(limit, 43, text, rest);
      case Error(text) => TextRoundTrip(limit, 45, text, rest);
      case Int(n) => IntRoundTrip(limit, n, rest);
      case Bulk(b) => BulkRoundTrip(limit, b, rest);
      case Null =>
        LineRoundTrip(limit, [36, 45, 49], rest);
        assert [36, 45, 49][1..] == [45, 49];
      case Array(rs) =>
        PrintsRoundTrip(limit, rs, 0, rest);
        assert rs[0..] == rs;
        ArrayRoundTrip(limit, rs, PrintFrom(rs, 0), rest);
    }
  }

  lemma {:induction false} PrintsRoundTrip(limit: nat, rs: seq<Reply>, i: nat, rest: seq<byte>)
    requires limit >= 32 && i <= |rs| && forall j :: 0 <= j < |rs| ==> Printable(limit, rs[j])
    ensures ReadReplies(limit, |rs| - i, PrintFrom(rs, i) + rest) == Some((rs[i..], rest))
    decreases rs, |rs| - i
  {
    if i == |rs| {
      assert [] + rest == rest;
    } else {
      Associate(Print(rs[i]), PrintFrom(rs, i + 1), rest);
      PrintRoundTrip(limit, rs[i], PrintFrom(rs, i + 1) + rest);
      PrintsRoundTrip(limit, rs, i + 1, rest);
      assert [rs[i]] + rs[i + 1..] == rs[i..];
    }
  }
}
