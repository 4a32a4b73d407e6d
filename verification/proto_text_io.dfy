/** The text writer and the tokeniser of golang/protobuf/proto. */
module TextIO {
  import opened Bytes
  import opened Options
  import opened Sequences
  import opened TextFormat

  // ---- Writing ----

  function Spaces(n: nat): (s: seq<byte>)
    ensures |s| == n
  {
    seq(n, _ => 32)
  }

  class TextWriter {
    const compact: bool
    var out: seq<byte>
    var ind: nat
    var complete: bool

    constructor (compact: bool)
      ensures out == [] && ind == 0 && complete
    {
      this.compact, out, ind, complete := compact, [], 0, true;
    }

    /** The indentation that is due in front of the next byte. */
    function Due(): seq<byte>
      reads this
    {
      if !compact && complete then Spaces(2 * ind) else []
    }

    method WriteIndent()
      requires complete
      modifies this`out, this`complete
      ensures out == old(out) + Spaces(2 * ind) && !complete
    {
      var remain: nat := ind * 2;
      assert out + Spaces(2 * ind - remain) == out;
      while remain > 0
        invariant remain <= 2 * ind && out == old(out) + Spaces(2 * ind - remain)
      {
        var n := if remain > 40 then 40 else remain;
        assert Spaces(2 * ind - remain) + Spaces(n) == Spaces(2 * ind - (remain - n));
        Associate(old(out), Spaces(2 * ind - remain), Spaces(n));
        out := out + Spaces(n);
        remain := remain - n;
      }
      complete := false;
    }

    method WriteByte(c0: byte)
      modifies this`out, this`complete
      ensures c0 != LF ==> out == old(out) + old(Due()) + [c0] && !complete
    {
      var c := if compact && c0 == LF then 32 else c0;
      assert out + [] == out;
      if !compact && complete {
        WriteIndent();
      }
      out := out + [c];
      complete := c == LF;
    }

    /** `writeString`: an indentation if one is due, and the quoted string. */
    method WriteString(s: seq<byte>)
      modifies this`out, this`complete
      ensures out == old(out) + old(Due()) + Quoted(s)
    {
      WriteByte(QUOTE);
      ghost var start := old(out) + old(Due()) + [QUOTE];
      var i := 0;
      assert s[0..] == s;
      while i < |s|
        invariant i <= |s| && !complete && out + Escape(s[i..]) == start + Escape(s)
      {
        var c := s[i];
        ghost var before := out;
        if c == LF {
          out := out + [BACKSLASH, 110];
        } else if c == 13 {
          out := out + [BACKSLASH, 114];
        } else if c == 9 {
          out := out + [BACKSLASH, 116];
        } else if c == QUOTE {
          out := out + [BACKSLASH, QUOTE];
        } else if c == BACKSLASH {
          out := out + [BACKSLASH, BACKSLASH];
        } else if IsPrint(c) {
          out := out + [c];
        } else {
          out := out + [BACKSLASH, 48 + c / 64, 48 + c / 8 % 8, 48 + c % 8];
        }
        assert out == before + EscapeByte(c);
        assert s[i..][1..] == s[i + 1..];
        Associate(before, EscapeByte(c), Escape(s[i + 1..]));
        i := i + 1;
      }
      assert out + [] == out;
      WriteByte(QUOTE);
      assert out == start + Escape(s) + [] + [QUOTE];
      assert start + Escape(s) + [] + [QUOTE] == old(out) + old(Due()) + Quoted(s);
    }
  }

  // ---- Unquoting ----

  /** The loop over the remaining text; text without escapes is returned as it is. */
  method UnquoteC(s0: seq<byte>, quote: byte) returns (r: Option<seq<byte>>)
    ensures r == Unquote(s0, quote)
  {
    var simple := true;
    var i := 0;
    while i < |s0|
      invariant i <= |s0| && Simple(s0[..i], quote)
    {
      if s0[i] == BACKSLASH || s0[i] == quote {
        assert s0[i] in s0;
        simple := false;
        break;
      }
      assert s0[..i + 1] == s0[..i] + [s0[i]];
      i := i + 1;
    }
    if simple {
      assert s0[..i] == s0;
      return Some(s0);
    }
    var s := s0;
    var buf: seq<byte> := [];
    BeforeNothing(UnquoteFrom(s));
    while |s| > 0
      invariant UnquoteFrom(s0) == Before(buf, UnquoteFrom(s))
      decreases |s|
    {
      var rune := RuneAt(s);
      if rune.Invalid? { return None; }
      var n := rune.size;
      if s[0] != BACKSLASH {
        BeforeBefore(buf, s[..n], UnquoteFrom(s[n..]));
        buf := buf + s[..n];
        s := s[n..];
      } else {
        var e := Unescape(s[1..]);
        if e.None? { return None; }
        BeforeBefore(buf, e.value.0, UnquoteFrom(e.value.1));
        buf := buf + e.value.0;
        s := e.value.1;
      }
    }
    assert buf + [] == buf;
    return Some(buf);
  }

  lemma BeforeNothing(r: Option<seq<byte>>)
    ensures Before([], r) == r
  {
    if r.Some? {
      assert [] + r.value == r.value;
    }
  }

  lemma BeforeBefore(a: seq<byte>, b: seq<byte>, r: Option<seq<byte>>)
    ensures Before(a, Before(b, r)) == Before(a + b, r)
  {
    if r.Some? {
      Associate(a, b, r.value);
    }
  }

  // ---- Tokens ----

  datatype Token = Token(value: seq<byte>, err: bool, line: nat, offset: nat, unquoted: seq<byte>)

  function Newlines(s: seq<byte>): nat {
    if s == [] then 0 else Newlines(s[..|s| - 1]) + if s[|s| - 1] == LF then 1 else 0
  }

  lemma NewlinesNext(s: seq<byte>, i: nat)
    requires i < |s|
    ensures Newlines(s[..i + 1]) == Newlines(s[..i]) + if s[i] == LF then 1 else 0
  {
    assert s[..i + 1][..i] == s[..i];
  }

  class TextParser {
    var s: seq<byte>
    var done: bool
    var backed: bool
    var offset: nat
    var line: nat
    var cur: Token

    constructor (s: seq<byte>)
      ensures this.s == s && !done && !backed && offset == 0 && line == 1
    {
      this.s, done, backed, offset, line := s, false, false, 0, 1;
      cur := Token([], false, 1, 0, []);
    }

    /** Skips white space and comments, counting lines. */
    method SkipWhitespace()
      modifies this`s, this`offset, this`line, this`done
      ensures var k := BlankEnd(old(s), 0);
              s == old(s)[k..] && offset == old(offset) + k && line == old(line) + Newlines(old(s)[..k])
      ensures done == (old(done) || s == [])
    {
      var i := CountBlank();
      offset := offset + i;
      s := s[i..];
      if |s| == 0 {
        done := true;
      }
    }

    /** The loop of `SkipWhitespace`: where the blank start of the input ends. */
    method CountBlank() returns (i: nat)
      modifies this`line
      ensures i <= |s| && i == BlankEnd(s, 0) && line == old(line) + Newlines(s[..i])
    {
      i := 0;
      while i < |s| && (IsWhitespace(s[i]) || s[i] == 35)
        invariant i <= |s| && BlankEnd(s, 0) == BlankEnd(s, i)
        invariant line == old(line) + Newlines(s[..i])
      {
        if s[i] == 35 {
          while i < |s| && s[i] != LF
            invariant i <= |s| && BlankEnd(s, 0) == CommentEnd(s, i)
            invariant line == old(line) + Newlines(s[..i])
          {
            NewlinesNext(s, i);
            i := i + 1;
          }
          if i == |s| { break; }
        }
        if s[i] == LF {
          line := line + 1;
        }
        NewlinesNext(s, i);
        i := i + 1;
      }
    }

    /** The search for the closing quote. */
    method FindQuote() returns (i: nat)
      requires s != []
      ensures i == QuoteEnd(s, 1)
    {
      i := 1;
      while i < |s| && s[i] != s[0] && s[i] != LF
        invariant 1 <= i <= |s| && QuoteEnd(s, 1) == QuoteEnd(s, i)
      {
        if s[i] == BACKSLASH && i + 1 < |s| {
          i := i + 1;
        }
        i := i + 1;
      }
    }

    /** Takes the first `n` bytes as the current token. */
    method Take(n: nat, unquoted: seq<byte>)
      requires n <= |s|
      modifies this`s, this`cur, this`offset
      ensures s == old(s)[n..] && offset == old(offset) + n
      ensures cur == old(cur).(value := old(s)[..n], unquoted := unquoted)
    {
      cur := cur.(value := s[..n], unquoted := unquoted);
      s := s[n..];
      offset := offset + n;
    }

    /** Advances to the next token: `cur` is that token, and `s` what follows it. */
    method Advance()
      modifies this`s, this`cur, this`offset, this`line, this`done
      ensures var r := old(s)[BlankEnd(old(s), 0)..];
              if old(done) || r == [] then done && s == r && cur == old(cur)
              else match TokenAt(r)
                   case None => done && cur.err && s == r
                   case Some((n, text)) =>
                     && !done && !cur.err && cur.value == r[..n] && cur.unquoted == text && s == r[n..]
                     && offset == cur.offset + n
    {
      SkipWhitespace();
      if done { return; }
      cur := cur.(err := false, offset := offset, line := line, unquoted := []);
      if IsSymbol(s[0]) {
        Take(1, []);
      } else if IsQuote(s[0]) {
        var i := FindQuote();
        if i >= |s| || s[i] != s[0] {
          cur, done := cur.(err := true), true;
          return;
        }
        var unq := UnquoteC(s[1..i], s[0]);
        if unq.None? {
          cur, done := cur.(err := true), true;
          return;
        }
        Take(i + 1, unq.value);
      } else {
        var i := 0;
        while i < |s| && IsIdentOrNumberChar(s[i])
          invariant i <= |s| && WordEnd(s, 0) == WordEnd(s, i)
        {
          i := i + 1;
        }
        if i == 0 {
          cur, done := cur.(err := true), true;
          return;
        }
        Take(i, []);
      }
    }

    /** A new token, where quoted strings that follow each other count as one. */
    method NextToken()
      requires !done
      modifies this`s, this`cur, this`offset, this`line, this`done
      ensures var r := old(s)[BlankEnd(old(s), 0)..];
              if r == [] then done && cur.value == []
              else match TokenAt(r)
                   case None => done && cur.err
                   case Some((n, text)) =>
                     if !IsQuote(r[0]) then !cur.err && cur.value == r[..n] && s == r[n..]
                     else match JoinTo(text, Joined(r[n..]))
                          case None => cur.err
                          case Some((all, rest)) => !done && !cur.err && cur.unquoted == all && s == rest
    {
      ghost var r := s[BlankEnd(s, 0)..];
      Advance();
      if done {
        cur := cur.(value := []);
      } else if |cur.value| > 0 && IsQuote(cur.value[0]) {
        var cat := cur;
        ghost var all := JoinTo(cur.unquoted, Joined(s));
        while true
          invariant all == JoinTo(cat.unquoted, Joined(s)) && !done && !cat.err
          decreases |s|
        {
          ghost var before := s;
          SkipWhitespace();
          if done || !IsQuote(s[0]) {
            assert cat.unquoted + [] == cat.unquoted;
            break;
          }
          BlankDone(before);
          Advance();
          if cur.err { return; }
          ghost var more := Joined(s);
          JoinTwice(cat.unquoted, cur.unquoted, more);
          cat := cat.(value := cat.value + [32] + cur.value, unquoted := cat.unquoted + cur.unquoted);
        }
        done := false;
        cur := cat;
      }
    }

    /** The current token again, if it has been backed off or there is none left, or else a new one. */
    method Next()
      modifies this
      ensures !backed
      ensures old(backed || done) ==> s == old(s) && cur == old(cur) && done == old(done) && offset == old(offset)
                                      && line == old(line)
      ensures !old(backed || done) ==>
                var r := old(s)[BlankEnd(old(s), 0)..];
                if r == [] then done && cur.value == []
                else match TokenAt(r)
                     case None => done && cur.err
                     case Some((n, text)) =>
                       if !IsQuote(r[0]) then !cur.err && cur.value == r[..n] && s == r[n..]
                       else match JoinTo(text, Joined(r[n..]))
                            case None => cur.err
                            case Some((all, rest)) => !done && !cur.err && cur.unquoted == all && s == rest
    {
      if backed || done {
        backed := false;
        return;
      }
      NextToken();
    }
  }

  /** Skipping white space twice skips nothing the second time. */
  lemma BlankDone(s: seq<byte>)
    ensures var r := s[BlankEnd(s, 0)..]; r != [] ==> BlankEnd(r, 0) == 0 && r[0..] == r
  {
    BlankStops(s, 0);
  }

  lemma {:induction false} BlankStops(s: seq<byte>, i: nat)
    requires i <= |s|
    ensures var j := BlankEnd(s, i); j < |s| ==> !IsWhitespace(s[j]) && s[j] != 35
    decreases |s| - i, 1
  {
    if i < |s| {
      if s[i] == 35 {
        CommentStops(s, i);
      } else if IsWhitespace(s[i]) {
        BlankStops(s, i + 1);
      }
    }
  }

  lemma {:induction false} CommentStops(s: seq<byte>, i: nat)
    requires i <= |s|
    ensures var j := CommentEnd(s, i); j < |s| ==> !IsWhitespace(s[j]) && s[j] != 35
    decreases |s| - i, 0
  {
    if i < |s| {
      if s[i] == LF { BlankStops(s, i + 1); } else { CommentStops(s, i + 1); }
    }
  }

  lemma JoinTwice(a: seq<byte>, b: seq<byte>, more: Option<(seq<byte>, seq<byte>)>)
    ensures JoinTo(a, JoinTo(b, more)) == JoinTo(a + b, more)
  {
    if more.Some? {
      Associate(a, b, more.value.0);
    }
  }

  lemma {:induction false} SpacesAreBlank(n: nat, i: nat, rest: seq<byte>)
    requires i <= n && (rest == [] || (!IsWhitespace(rest[0]) && rest[0] != 35))
    ensures BlankEnd(Spaces(n) + rest, i) == n
    decreases n - i
  {
    if i < n {
      SpacesAreBlank(n, i + 1, rest);
    }
  }

  /** A string written at any indentation is the next token, and its unquoted text is the string. */
  method RoundTrip(s: seq<byte>, compact: bool, depth: nat) returns (text: seq<byte>, left: seq<byte>)
    ensures text == s && left == []
  {
    var w := new TextWriter(compact);
    w.ind := depth;
    ghost var due := w.Due();
    w.WriteString(s);
    var p := new TextParser(w.out);
    SpacesAreBlank(|due|, 0, Quoted(s));
    assert w.out == due + Quoted(s) && due == Spaces(|due|);
    assert w.out[|due|..] == Quoted(s);
    TokenRoundTrip(s, []);
    assert Quoted(s) + [] == Quoted(s);
    p.Advance();
    return p.cur.unquoted, p.s;
  }
}
