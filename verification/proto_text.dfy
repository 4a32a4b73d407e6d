/** Quoted strings of the protobuf text format (golang/protobuf/proto/text.go, text_parser.go): how
    they are written, found among other tokens and unquoted. */
module TextFormat {
  import opened Bytes
  import opened Options
  import opened Sequences

  const LF: byte := 10
  const QUOTE: byte := 34
  const APOSTROPHE: byte := 39
  const BACKSLASH: byte := 92

  // ---- Writing ----

  predicate IsPrint(c: byte) {
    0x20 <= c < 0x7f
  }

  /** One byte as `writeString` writes it. */
  function EscapeByte(c: byte): (e: seq<byte>)
    ensures e != []
  {
    if c == LF then [BACKSLASH, 110]
    else if c == 13 then [BACKSLASH, 114]
    else if c == 9 then [BACKSLASH, 116]
    else if c == QUOTE || c == BACKSLASH then [BACKSLASH, c]
    else if IsPrint(c) then [c]
    else [BACKSLASH, 48 + c / 64, 48 + c / 8 % 8, 48 + c % 8]
  }

  function Escape(s: seq<byte>): seq<byte> {
    FlatMap(EscapeByte, s)
  }

  function Quoted(s: seq<byte>): seq<byte> {
    [QUOTE] + (Escape(s) + [QUOTE])
  }

  // ---- Runes ----

  /** What utf8.DecodeRuneInString finds: nothing, a valid rune of so many bytes, or an invalid byte. */
  datatype Rune = NoRune | Valid(size: nat) | Invalid

  predicate Continuation(b: byte) {
    0x80 <= b < 0xc0
  }

  predicate Second(b0: byte, b1: byte) {
    if b0 == 0xe0 then 0xa0 <= b1 < 0xc0
    else if b0 == 0xed then 0x80 <= b1 < 0xa0
    else if b0 == 0xf0 then 0x90 <= b1 < 0xc0
    else if b0 == 0xf4 then 0x80 <= b1 < 0x90
    else Continuation(b1)
  }

  function RuneAt(s: seq<byte>): (r: Rune)
    ensures r.Valid? ==> 1 <= r.size <= |s|
  {
    if s == [] then NoRune
    else if s[0] < 0x80 then Valid(1)
    else if 0xc2 <= s[0] < 0xe0 then
      if |s| >= 2 && Continuation(s[1]) then Valid(2) else Invalid
    else if 0xe0 <= s[0] < 0xf0 then
      if |s| >= 3 && Second(s[0], s[1]) && Continuation(s[2]) then Valid(3) else Invalid
    else if 0xf0 <= s[0] < 0xf5 then
      if |s| >= 4 && Second(s[0], s[1]) && Continuation(s[2]) && Continuation(s[3]) then Valid(4) else Invalid
    else Invalid
  }

  // ---- Unquoting ----

  function Octal(b: byte): Option<nat> {
    if 48 <= b <= 55 then Some(b - 48) else None
  }

  function Unhex(b: byte): Option<nat> {
    if 48 <= b <= 57 then Some(b - 48)
    else if 97 <= b <= 102 then Some(b - 97 + 10)
    else if 65 <= b <= 70 then Some(b - 65 + 10)
    else None
  }

  /** Pairs of hexadecimal digits as bytes. */
  function HexBytes(s: seq<byte>): Option<seq<byte>> {
    if |s| < 2 then Some([])
    else if Unhex(s[0]).None? || Unhex(s[1]).None? || HexBytes(s[2..]).None? then None
    else
      var b: byte := 16 * (Unhex(s[0]).value % 16) + Unhex(s[1]).value % 16;
      Some([b] + HexBytes(s[2..]).value)
  }

  /** The escapes of one letter. */
  function Letter(r: byte): Option<byte> {
    if r == 97 then Some(7)
    else if r == 98 then Some(8)
    else if r == 102 then Some(12)
    else if r == 110 then Some(10)
    else if r == 114 then Some(13)
    else if r == 116 then Some(9)
    else if r == 118 then Some(11)
    else if r == 63 || r == APOSTROPHE || r == QUOTE || r == BACKSLASH then Some(r)
    else None
  }

  /** A number escape: three octal digits, or `x` and two hexadecimal ones. It must fit a byte. */
  function NumberEscape(r: byte, a: byte, b: byte): Option<byte> {
    if r == 120 || r == 88 then
      if Unhex(a).None? || Unhex(b).None? then None
      else
        var v := 16 * Unhex(a).value + Unhex(b).value;
        if v < 256 then Some(v) else None
    else if Octal(r).None? || Octal(a).None? || Octal(b).None? then None
    else
      var v := 64 * Octal(r).value + 8 * Octal(a).value + Octal(b).value;
      if v < 256 then Some(v) else None
  }

  /** The bytes an escape stands for and what follows it; `s` is what comes behind the backslash. */
  function Unescape(s: seq<byte>): (r: Option<(seq<byte>, seq<byte>)>)
    ensures r.Some? ==> |r.value.1| < |s|
  {
    if s == [] || RuneAt(s).Invalid? then None
    else if Letter(s[0]).Some? then Some(([Letter(s[0]).value], s[1..]))
    else if Octal(s[0]).Some? || s[0] == 120 || s[0] == 88 then
      if |s| < 3 || NumberEscape(s[0], s[1], s[2]).None? then None
      else Some(([NumberEscape(s[0], s[1], s[2]).value], s[3..]))
    else if s[0] == 117 || s[0] == 85 then
      var n := if s[0] == 85 then 8 else 4;
      if |s| < 1 + n || HexBytes(s[1..1 + n]).None? then None
      else Some((HexBytes(s[1..1 + n]).value, s[1 + n..]))
    else None
  }

  /** The loop of `unquoteC`. */
  function UnquoteFrom(s: seq<byte>): Option<seq<byte>> {
    if s == [] then Some([])
    else
      match RuneAt(s)
      case Valid(n) =>
        if s[0] != BACKSLASH then Before(s[..n], UnquoteFrom(s[n..]))
        else
          (match Unescape(s[1..])
           case Some((ch, tail)) => Before(ch, UnquoteFrom(tail))
           case None => None)
      case _ => None
  }

  function Before(a: seq<byte>, r: Option<seq<byte>>): Option<seq<byte>> {
    match r
    case Some(b) => Some(a + b)
    case None => None
  }

  predicate Simple(s: seq<byte>, quote: byte) {
    BACKSLASH !in s && quote !in s
  }

  /** `unquoteC`: text without escapes is taken as it is, even when it is not UTF-8. */
  function Unquote(s: seq<byte>, quote: byte): Option<seq<byte>> {
    if Simple(s, quote) then Some(s) else UnquoteFrom(s)
  }

  // ---- Tokens ----

  /** Where the quoted string that starts `s` ends, or where the search for its end stops. */
  function QuoteEnd(s: seq<byte>, i: nat): (j: nat)
    requires 1 <= i <= |s|
    ensures i <= j <= |s|
    decreases |s| - i
  {
    if i == |s| || s[i] == s[0] || s[i] == LF then i
    else if s[i] == BACKSLASH && i + 1 < |s| then QuoteEnd(s, i + 2)
    else QuoteEnd(s, i + 1)
  }

  predicate IsQuote(c: byte) {
    c == QUOTE || c == APOSTROPHE
  }

  predicate IsSymbol(c: byte) {
    c in [60, 62, 123, 125, 58, 91, 93, 59, 44, 47]
  }

  predicate IsIdentOrNumberChar(c: byte) {
    65 <= c <= 90 || 97 <= c <= 122 || 48 <= c <= 57 || c == 45 || c == 43 || c == 46 || c == 95
  }

  function WordEnd(s: seq<byte>, i: nat): (j: nat)
    requires i <= |s|
    ensures i <= j <= |s|
    decreases |s| - i
  {
    if i < |s| && IsIdentOrNumberChar(s[i]) then WordEnd(s, i + 1) else i
  }

  /** The token at the start of `s`: its length and, for a quoted string, its unquoted text. */
  function TokenAt(s: seq<byte>): (r: Option<(nat, seq<byte>)>)
    requires s != []
    ensures r.Some? ==> 1 <= r.value.0 <= |s|
  {
    if IsSymbol(s[0]) then Some((1, []))
    else if IsQuote(s[0]) then
      var i := QuoteEnd(s, 1);
      if i == |s| || s[i] != s[0] || Unquote(s[1..i], s[0]).None? then None
      else Some((i + 1, Unquote(s[1..i], s[0]).value))
    else
      var i := WordEnd(s, 0);
      if i == 0 then None else Some((i, []))
  }

  predicate IsWhitespace(c: byte) {
    c == 32 || c == 9 || c == 10 || c == 13
  }

  /** The end of the white space and comments from `i` on. */
  function BlankEnd(s: seq<byte>, i: nat): (j: nat)
    requires i <= |s|
    ensures i <= j <= |s|
    decreases |s| - i, 1
  {
    if i == |s| then i
    else if s[i] == 35 then CommentEnd(s, i)
    else if IsWhitespace(s[i]) then BlankEnd(s, i + 1)
    else i
  }

  /** The same inside a comment, which ends with its line. */
  function CommentEnd(s: seq<byte>, i: nat): (j: nat)
    requires i <= |s|
    ensures i <= j <= |s|
    decreases |s| - i, 0
  {
    if i == |s| then i else if s[i] == LF then BlankEnd(s, i + 1) else CommentEnd(s, i + 1)
  }

  // ---- Round trip ----

  /** The octal form of a byte reads back as that byte. */
  lemma OctalRoundTrip(c: byte)
    ensures NumberEscape(48 + c / 64, 48 + c / 8 % 8, 48 + c % 8) == Some(c)
    ensures Octal(48 + c / 64).Some? && Letter(48 + c / 64).None?
  {
  }

  /** One written byte is read back as one step of the unquoting loop. */
  lemma UnquotesByte(c: byte, rest: seq<byte>)
    ensures UnquoteFrom(EscapeByte(c) + rest) == Before([c], UnquoteFrom(rest))
  {
    var s := EscapeByte(c) + rest;
    if s[0] != BACKSLASH {
      assert s[..1] == [c] && s[1..] == rest;
    } else if |EscapeByte(c)| == 2 {
      assert s[1..][1..] == rest;
    } else {
      OctalRoundTrip(c);
      assert s[1..][3..] == rest;
    }
  }

  lemma {:induction false} UnquotesEscaped(s: seq<byte>)
    ensures UnquoteFrom(Escape(s)) == Some(s)
  {
    if s != [] {
      UnquotesEscaped(s[1..]);
      UnquotesByte(s[0], Escape(s[1..]));
      assert [s[0]] + s[1..] == s;
    }
  }

  /** Text in which nothing had to be escaped is written as it is. */
  lemma {:induction false} SimpleIsPlain(s: seq<byte>)
    requires Simple(Escape(s), QUOTE)
    ensures Escape(s) == s
  {
    if s != [] {
      var head, tail := EscapeByte(s[0]), Escape(s[1..]);
      assert head[0] in head + tail;
      assert forall b :: b in tail ==> b in head + tail;
      SimpleIsPlain(s[1..]);
      assert [s[0]] + s[1..] == s;
    }
  }

  lemma UnquoteEscaped(s: seq<byte>)
    ensures Unquote(Escape(s), QUOTE) == Some(s)
  {
    if Simple(Escape(s), QUOTE) {
      SimpleIsPlain(s);
    } else {
      UnquotesEscaped(s);
    }
  }

  /** The search for the closing quote passes over a written byte. */
  lemma PassesByte(t: seq<byte>, i: nat, c: byte)
    requires 1 <= i && i + |EscapeByte(c)| < |t| && t[0] == QUOTE && t[i..i + |EscapeByte(c)|] == EscapeByte(c)
    ensures QuoteEnd(t, i) == QuoteEnd(t, i + |EscapeByte(c)|)
  {
    var e := EscapeByte(c);
    assert forall j :: 0 <= j < |e| ==> t[i + j] == t[i..i + |e|][j] == e[j];
    if |e| == 4 {
      assert t[i + 2] == e[2] && t[i + 3] == e[3];
      assert QuoteEnd(t, i + 3) == QuoteEnd(t, i + 4);
      assert QuoteEnd(t, i + 2) == QuoteEnd(t, i + 3);
    } else if |e| == 2 {
      assert t[i] == e[0];
    } else {
      assert t[i] == e[0];
    }
  }

  lemma SplitAt(t: seq<byte>, i: nat, head: seq<byte>, tail: seq<byte>)
    requires i + |head| + |tail| <= |t| && t[i..i + |head| + |tail|] == head + tail
    ensures t[i..i + |head|] == head && t[i + |head|..i + |head| + |tail|] == tail
  {
    var u := t[i..i + |head| + |tail|];
    assert u[..|head|] == head && u[|head|..] == tail;
  }

  lemma {:induction false} PassesEscaped(t: seq<byte>, i: nat, s: seq<byte>)
    requires 1 <= i && i + |Escape(s)| < |t| && t[0] == QUOTE && t[i + |Escape(s)|] == QUOTE
    requires t[i..i + |Escape(s)|] == Escape(s)
    ensures QuoteEnd(t, i) == i + |Escape(s)|
    decreases |s|
  {
    if s != [] {
      var head, tail := EscapeByte(s[0]), Escape(s[1..]);
      SplitAt(t, i, head, tail);
      PassesByte(t, i, s[0]);
      PassesEscaped(t, i + |head|, s[1..]);
    }
  }

  /** Whatever follows, the token at a written string is that string, and its text the original. */
  lemma TokenRoundTrip(s: seq<byte>, rest: seq<byte>)
    ensures TokenAt(Quoted(s) + rest) == Some((|Quoted(s)|, s))
  {
    var t := Quoted(s) + rest;
    var n := |Escape(s)|;
    assert t[1..1 + n] == Escape(s) && t[1 + n] == QUOTE && t[0] == QUOTE;
    PassesEscaped(t, 1, s);
    UnquoteEscaped(s);
  }

  /** A written string is printable ASCII on one line. */
  lemma {:induction false} EscapedIsPrintable(s: seq<byte>)
    ensures forall b :: b in Escape(s) ==> IsPrint(b)
  {
    if s != [] {
      EscapedIsPrintable(s[1..]);
      assert forall b :: b in EscapeByte(s[0]) ==> IsPrint(b);
    }
  }

  // ---- Adjacent strings ----

  /** The quoted strings that follow each other at `s`, joined, and what follows them. */
  function Joined(s: seq<byte>): Option<(seq<byte>, seq<byte>)>
    decreases |s|
  {
    var r := s[BlankEnd(s, 0)..];
    if r == [] || !IsQuote(r[0]) then Some(([], r))
    else
      match TokenAt(r)
      case None => None
      case Some((n, text)) => JoinTo(text, Joined(r[n..]))
  }

  function JoinTo(text: seq<byte>, more: Option<(seq<byte>, seq<byte>)>): Option<(seq<byte>, seq<byte>)> {
    match more
    case Some((t, rest)) => Some((text + t, rest))
    case None => None
  }

  /** Strings written behind each other with white space between. */
  function Pieces(ps: seq<seq<byte>>): seq<byte> {
    if ps == [] then [] else ([32] + Quoted(ps[0])) + Pieces(ps[1..])
  }

  function Concat(ps: seq<seq<byte>>): seq<byte> {
    if ps == [] then [] else ps[0] + Concat(ps[1..])
  }

  lemma PieceJoins(p: seq<byte>, more: seq<byte>)
    ensures Joined(([32] + Quoted(p)) + more) == JoinTo(p, Joined(more))
  {
    var q := Quoted(p) + more;
    var s := ([32] + Quoted(p)) + more;
    assert s == [32] + q && s[1..] == q;
    assert BlankEnd(s, 0) == BlankEnd(s, 1) == 1;
    TokenRoundTrip(p, more);
    assert q[|Quoted(p)|..] == more;
  }

  /** However a text is cut into pieces before it is written, it reads back as a whole. */
  lemma {:induction false} PiecesJoin(ps: seq<seq<byte>>, rest: seq<byte>)
    requires var r := rest[BlankEnd(rest, 0)..]; r == [] || !IsQuote(r[0])
    ensures Joined(Pieces(ps) + rest) == Some((Concat(ps), rest[BlankEnd(rest, 0)..]))
  {
    if ps == [] {
      assert [] + rest == rest;
    } else {
      PiecesJoin(ps[1..], rest);
      Associate([32] + Quoted(ps[0]), Pieces(ps[1..]), rest);
      PieceJoins(ps[0], Pieces(ps[1..]) + rest);
    }
  }
}
