/** A Redis connection (garyburd/redigo/redis/conn.go): printing commands, parsing replies, and which
    reply belongs to which command when commands are pipelined. */
module RedisConn {
  import opened Bytes
  import opened Options
  import opened Sequences
  import opened RespFormat

  /** The arguments with a form of their own; other types go through Go's default formatting. */
  datatype Arg = Text(b: seq<byte>) | Number(n: int) | Flag(on: bool) | Nil

  function ArgBytes(arg: Arg): seq<byte> {
    match arg
    case Text(b) => b
    case Number(n) => Signed(n)
    case Flag(on) => if on then [49] else [48]
    case Nil => []
  }

  datatype Command = Command(name: seq<byte>, args: seq<Arg>)

  /** A command as the protocol has it: an array of bulk strings. */
  function AsReply(c: Command): Reply {
    Array([Bulk(c.name)] + seq(|c.args|, i requires 0 <= i < |c.args| => Bulk(ArgBytes(c.args[i]))))
  }

  /** Lengths and numbers fit Go's int and int64. */
  predicate Fits(c: Command) {
    && |c.name| < TWO_63 && 1 + |c.args| < TWO_63
    && forall i :: 0 <= i < |c.args| ==>
         |ArgBytes(c.args[i])| < TWO_63 && (c.args[i].Number? ==> -TWO_63 <= c.args[i].n < TWO_63)
  }

  /** The other side reads back exactly the command and its arguments, as byte strings. */
  lemma CommandRoundTrip(limit: nat, c: Command, rest: seq<byte>)
    requires limit >= 32 && Fits(c)
    ensures ReadReply(limit, Print(AsReply(c)) + rest) == Some((AsReply(c), rest))
  {
    PrintRoundTrip(limit, AsReply(c), rest);
  }

  // ---- Parsing numbers ----

  /** The loop over digits that parseLen and parseInt share; every step wraps around at 64 bits. */
  method ParseDigits(p: seq<byte>) returns (r: Option<int>)
    ensures r == if AllDigits(p) then Some(Wrap64(Decimal(p))) else None
  {
    var n := 0;
    var i := 0;
    while i < |p|
      invariant i <= |p| && AllDigits(p[..i]) && n == DecimalOf(p[..i])
    {
      if !IsDigit(p[i]) {
        assert p[i] in p;
        return None;
      }
      DigitStep(p, i);
      n := Wrap64(Wrap64(n * 10) + (p[i] as int - 48));
      i := i + 1;
    }
    assert p[..i] == p;
    return Some(n);
  }

  /** What is left of a decimal number in 64 bits. */
  function DecimalOf(p: seq<byte>): int {
    Wrap64(Decimal(p))
  }

  lemma DigitStep(p: seq<byte>, i: nat)
    requires i < |p| && IsDigit(p[i])
    ensures AllDigits(p[..i]) ==> AllDigits(p[..i + 1])
    ensures DecimalOf(p[..i + 1]) == Wrap64(Wrap64(DecimalOf(p[..i]) * 10) + (p[i] as int - 48))
  {
    assert p[..i + 1][..i] == p[..i] && p[..i + 1] == p[..i] + [p[i]];
    WrapStep(Decimal(p[..i]), p[i] as int - 48);
  }

  lemma WrapStep(x: int, d: int)
    ensures Wrap64(Wrap64(Wrap64(x) * 10) + d) == Wrap64(x * 10 + d)
  {
    var y := Wrap64(x);
    var k := (x + TWO_63) / TWO_64;
    assert x == y + k * TWO_64;
    WrapShift(y * 10, 10 * k);
    var z := Wrap64(y * 10);
    var m := (y * 10 + TWO_63) / TWO_64;
    assert y * 10 == z + m * TWO_64;
    WrapShift(z + d, 10 * k + m);
  }

  lemma WrapShift(x: int, k: int)
    ensures Wrap64(x + k * TWO_64) == Wrap64(x)
  {
  }

  method LenOf(p: seq<byte>) returns (r: Option<int>)
    ensures r == RespFormat.ParseLen(p)
  {
    if |p| == 0 { return None; }
    if p[0] == 45 && |p| == 2 && p[1] == 49 {
      assert p == [45, 49];
      return Some(-1);
    }
    r := ParseDigits(p);
  }

  method IntOf(p0: seq<byte>) returns (r: Option<int>)
    ensures r == RespFormat.ParseInt(p0)
  {
    if |p0| == 0 { return None; }
    var p, negate := p0, false;
    if p[0] == 45 {
      negate := true;
      p := p[1..];
      if |p| == 0 { return None; }
    }
    r := ParseDigits(p);
    if r.Some? && negate {
      r := Some(Wrap64(-r.value));
    }
  }

  // ---- The connection ----

  /** What a server answers to a command it hears, which may depend on how many it has heard. */
  type Server = (nat, Reply) -> Reply

  /** The reply to the k-th command heard. */
  function Answer(server: Server, heard: seq<Reply>, k: nat): Reply
    requires k < |heard|
  {
    server(k, heard[k])
  }

  /** The replies from number `i` on, as bytes. */
  function RepliesFrom(server: Server, heard: seq<Reply>, i: nat): seq<byte>
    requires i <= |heard|
    decreases |heard| - i
  {
    if i == |heard| then [] else Print(Answer(server, heard, i)) + RepliesFrom(server, heard, i + 1)
  }

  lemma {:induction false} RepliesExtend(server: Server, heard: seq<Reply>, i: nat, c: Reply)
    requires i <= |heard|
    ensures RepliesFrom(server, heard + [c], i) == RepliesFrom(server, heard, i) + Print(server(|heard|, c))
    decreases |heard| - i
  {
    var r := Print(server(|heard|, c));
    if i == |heard| {
      assert Answer(server, heard + [c], i) == server(|heard|, c);
      assert RepliesFrom(server, heard + [c], i + 1) == [];
      assert r + [] == [] + r;
    } else {
      assert Answer(server, heard + [c], i) == Answer(server, heard, i);
      RepliesExtend(server, heard, i + 1, c);
      Associate(Print(Answer(server, heard, i)), RepliesFrom(server, heard, i + 1), r);
    }
  }

  /** The first error among the replies from number `i` up to `n`. */
  function FirstError(server: Server, heard: seq<Reply>, i: nat, n: nat): Option<seq<byte>>
    requires i <= n <= |heard|
  {
    if i == n then None
    else if FirstError(server, heard, i, n - 1).Some? then FirstError(server, heard, i, n - 1)
    else if Answer(server, heard, n - 1).Error? then Some(Answer(server, heard, n - 1).text)
    else None
  }

  /** The commands from number `i` on, as bytes. */
  function CommandsFrom(cs: seq<Command>, i: nat): seq<byte>
    requires i <= |cs|
    decreases |cs| - i
  {
    if i == |cs| then [] else Print(AsReply(cs[i])) + CommandsFrom(cs, i + 1)
  }

  lemma {:induction false} CommandsExtend(cs: seq<Command>, i: nat, c: Command)
    requires i <= |cs|
    ensures CommandsFrom(cs + [c], i) == CommandsFrom(cs, i) + Print(AsReply(c))
    decreases |cs| - i
  {
    if i == |cs| {
      assert CommandsFrom(cs + [c], i + 1) == [];
      assert Print(AsReply(c)) + [] == [] + Print(AsReply(c));
    } else {
      CommandsExtend(cs, i + 1, c);
      Associate(Print(AsReply(cs[i])), CommandsFrom(cs, i + 1), Print(AsReply(c)));
    }
  }

  /** The server has heard the first commands, in order and unchanged. */
  ghost predicate Heard(heard: seq<Reply>, commands: seq<Command>) {
    |heard| <= |commands| && forall k :: 0 <= k < |heard| ==> heard[k] == AsReply(commands[k])
  }

  lemma HeardMore(heard: seq<Reply>, commands: seq<Command>, c: Reply)
    requires Heard(heard, commands) && |heard| < |commands| && c == AsReply(commands[|heard|])
    ensures Heard(heard + [c], commands)
  {
  }

  lemma NextCommand(limit: nat, commands: seq<Command>, k: nat)
    requires limit >= 32 && k < |commands| && Fits(commands[k])
    ensures RespFormat.ReadReply(limit, CommandsFrom(commands, k))
        == Some((AsReply(commands[k]), CommandsFrom(commands, k + 1)))
  {
    CommandRoundTrip(limit, commands[k], CommandsFrom(commands, k + 1));
  }

  /** What is held back are the commands the server has not heard, and what is left to read are its
      answers to those it has heard that have not been read yet. */
  ghost predicate Synced(limit: nat, server: Server, commands: seq<Command>, heard: seq<Reply>, answered: nat,
                         out: seq<byte>, input: seq<byte>)
  {
    && limit >= 32 && (forall k, c :: Printable(limit, server(k, c)))
    && answered <= |heard| <= |commands|
    && (forall k :: 0 <= k < |commands| ==> Fits(commands[k]))
    && Heard(heard, commands)
    && out == CommandsFrom(commands, |heard|)
    && input == RepliesFrom(server, heard, answered)
  }

  /** The server parses the next command and answers it. */
  lemma HearsOne(limit: nat, server: Server, commands: seq<Command>, heard: seq<Reply>, answered: nat,
                 out: seq<byte>, input: seq<byte>)
    requires Synced(limit, server, commands, heard, answered, out, input) && out != []
    ensures RespFormat.ReadReply(limit, out).Some?
    ensures var (command, rest) := RespFormat.ReadReply(limit, out).value;
            Synced(limit, server, commands, heard + [command], answered, rest, input + Print(server(|heard|, command)))
  {
    NextCommand(limit, commands, |heard|);
    var command := RespFormat.ReadReply(limit, out).value.0;
    HeardMore(heard, commands, command);
    RepliesExtend(server, heard, answered, command);
  }

  /** A connection to a server that parses what reaches it and answers every command it hears
      as `server` does. `out` is what the buffered writer holds back, `input` what has come in and not
      been read; `commands` are those sent, and the caller has read `answered` replies. */
  class Conn {
    const limit: nat
    const server: Server
    const lenScratch: array<byte>
    var pending: int
    var out: seq<byte>
    var input: seq<byte>
    var heard: seq<Reply>
    ghost var commands: seq<Command>
    ghost var answered: nat

    constructor (limit: nat, server: Server)
      requires limit >= 32 && forall k, c :: Printable(limit, server(k, c))
      ensures Valid() && pending == 0 && commands == [] && fresh(lenScratch)
      ensures this.limit == limit && this.server == server
    {
      this.limit, this.server := limit, server;
      lenScratch := new byte[32];
      pending, out, input, heard, commands, answered := 0, [], [], [], [], 0;
    }

    /** The server has heard the commands sent so far, in order, but for those whose bytes are held
        back; sent minus received is pending, and what is left to read are the replies in between. */
    ghost predicate Valid()
      reads this
    {
      && Ready() && lenScratch.Length == 32
      && pending == |commands| - answered
    }

    ghost predicate Ready()
      reads this
    {
      Synced(limit, server, commands, heard, answered, out, input)
    }

    /** The decimal digits of n, formatted from the right end of the scratch space. */
    method WriteLen(prefix: byte, n0: nat)
      requires lenScratch.Length == 32 && n0 < TWO_63
      modifies this`out, lenScratch
      ensures out == old(out) + ([prefix] + Digits(n0) + CRLF)
    {
      lenScratch[31], lenScratch[30] := LF, CR;
      var i: nat, n: nat := 29, n0;
      ghost var written: seq<byte> := [];
      Int64Digits(n0);
      assert Digits(n0) + [] == Digits(n0);
      while true
        invariant 29 - |written| == i && |Digits(n)| + |written| <= 19
        invariant Digits(n) + written == Digits(n0) && out == old(out)
        invariant lenScratch[i + 1..30] == written && lenScratch[30] == CR && lenScratch[31] == LF
        decreases n
      {
        lenScratch[i] := 48 + n % 10;
        written := [48 + n % 10] + written;
        assert lenScratch[i..30] == written;
        i := i - 1;
        if n / 10 == 0 { break; }
        Associate(Digits(n / 10), [48 + n % 10], written[1..]);
        n := n / 10;
      }
      assert written == Digits(n0) && lenScratch[i + 1..30] == written;
      lenScratch[i] := prefix;
      assert lenScratch[i + 1..30] == Digits(n0);
      assert lenScratch[i..] == [prefix] + lenScratch[i + 1..30] + CRLF;
      ghost var line := lenScratch[i..];
      assert line == [prefix] + Digits(n0) + CRLF;
      out := out + lenScratch[i..];
    }

    /** One bulk string. */
    method WriteBytes(p: seq<byte>)
      requires lenScratch.Length == 32 && |p| < TWO_63
      modifies this`out, lenScratch
      ensures out == old(out) + Print(Bulk(p))
    {
      WriteLen(36, |p|);
      out := out + p;
      out := out + CRLF;
      Associate(old(out), [36] + Digits(|p|) + CRLF, p + CRLF);
      Associate(old(out) + ([36] + Digits(|p|) + CRLF), p, CRLF);
    }

    method WriteCommand(c: Command)
      requires lenScratch.Length == 32 && Fits(c)
      modifies this`out, lenScratch
      ensures out == old(out) + Print(AsReply(c))
    {
      ghost var elems := AsReply(c).elems;
      ghost var head := [42] + Digits(|elems|) + CRLF;
      WriteLen(42, 1 + |c.args|);
      Associate(old(out), head, PrintFrom(elems, 0));
      Associate(old(out) + head, Print(elems[0]), PrintFrom(elems, 1));
      WriteBytes(c.name);
      var i := 0;
      while i < |c.args|
        invariant i <= |c.args|
        invariant out + PrintFrom(elems, i + 1) == old(out) + Print(AsReply(c))
      {
        ghost var before := out;
        WriteArg(c.args[i]);
        Associate(before, Print(elems[i + 1]), PrintFrom(elems, i + 2));
        i := i + 1;
      }
      assert out + [] == out;
    }

    method WriteArg(arg: Arg)
      requires lenScratch.Length == 32 && |ArgBytes(arg)| < TWO_63
      modifies this`out, lenScratch
      ensures out == old(out) + Print(Bulk(ArgBytes(arg)))
    {
      match arg {
        case Text(b) => WriteBytes(b);
        case Number(n) => WriteBytes(Signed(n));
        case Flag(on) => if on { WriteBytes([49]); } else { WriteBytes([48]); }
        case Nil => WriteBytes([]);
      }
    }

    // ---- Reading ----

    /** `ReadSlice` up to a line feed, and the check of the carriage return before it. */
    method ReadLine() returns (line: Option<seq<byte>>)
      modifies this`input
      ensures match RespFormat.ReadLine(limit, old(input))
              case Some((p, rest)) => line == Some(p) && input == rest
              case None => line == None
    {
      var k := 0;
      while k < |input| && input[k] != LF
        invariant k <= |input| && LineFeed(input, 0) == LineFeed(input, k)
      {
        k := k + 1;
      }
      if k == |input| || k + 1 > limit { return None; }
      var p := input[..k + 1];
      var i := |p| - 2;
      if i < 0 || p[i] != CR { return None; }
      line := Some(p[..i]);
      assert p[..i] == input[..k - 1];
      input := input[k + 1..];
    }

    /** A bulk string of the announced length and its terminator. */
    method ReadBulkBody(n: int) returns (reply: Option<Reply>)
      modifies this`input
      ensures match ReadBulk(limit, n, old(input))
              case Some((r, rest)) => reply == Some(r) && input == rest
              case None => reply == None
    {
      if n < 0 { return Some(Null); }
      if n > |input| { return None; }
      var p := input[..n];
      input := input[n..];
      var line := ReadLine();
      if line.None? { return None; }
      if |line.value| != 0 { return None; }
      return Some(Bulk(p));
    }

    method ReadReply() returns (reply: Option<Reply>)
      modifies this`input
      ensures match RespFormat.ReadReply(limit, old(input))
              case Some((r, rest)) => reply == Some(r) && input == rest
              case None => reply == None
      decreases |input|, 0
    {
      var l := ReadLine();
      if l.None? { return None; }
      var line := l.value;
      if |line| == 0 { return None; }
      if line[0] == 43 {
        return Some(Simple(line[1..]));
      } else if line[0] == 45 {
        return Some(Error(line[1..]));
      } else if line[0] == 58 {
        var n := IntOf(line[1..]);
        return if n.Some? then Some(Int(n.value)) else None;
      } else if line[0] == 36 {
        var n := LenOf(line[1..]);
        if n.None? { return None; }
        reply := ReadBulkBody(n.value);
      } else if line[0] == 42 {
        var n := LenOf(line[1..]);
        if n.None? { return None; }
        if n.value < 0 { return Some(Null); }
        var rs := ReadElems(n.value);
        return if rs.Some? then Some(Array(rs.value)) else None;
      } else {
        return None;
      }
    }

    /** The loop over the elements of an array. */
    method ReadElems(n: nat) returns (elems: Option<seq<Reply>>)
      modifies this`input
      ensures match ReadReplies(limit, n, old(input))
              case Some((rs, rest)) => elems == Some(rs) && input == rest
              case None => elems == None
      decreases |input|, 2
    {
      ghost var s := input;
      var rs: seq<Reply> := [];
      var i := 0;
      OntoNothing(ReadReplies(limit, n, s));
      while i < n
        invariant i <= n && |input| <= |s|
        invariant ReadReplies(limit, n, s) == Onto(rs, ReadReplies(limit, n - i, input))
      {
        var r := ReadElem(n - i, rs);
        if r.None? { return None; }
        rs := rs + [r.value];
        i := i + 1;
      }
      ElemsDone(limit, rs, input);
      return Some(rs);
    }

    /** The next of `n` elements, behind `rs`. */
    method ReadElem(n: nat, ghost rs: seq<Reply>) returns (r: Option<Reply>)
      requires n > 0
      modifies this`input
      ensures r.Some? ==> |input| <= |old(input)|
      ensures Onto(rs, ReadReplies(limit, n, old(input)))
              == if r.None? then None else Onto(rs + [r.value], ReadReplies(limit, n - 1, input))
      decreases |input|, 1
    {
      r := ReadReply();
      ElemStep(limit, n, rs, old(input), r, input);
    }

    // ---- Commands and their replies ----

    /** Sends what is held back, and the server answers every command it finds there. */
    method Deliver()
      requires Ready()
      modifies this`out, this`input, this`heard
      ensures Ready() && out == [] && |heard| == |commands|
    {
      while out != []
        invariant Ready()
        decreases |out|
      {
        DeliverOne();
      }
    }

    /** The server parses the next command and answers it. */
    method DeliverOne()
      requires Ready() && out != []
      modifies this`out, this`input, this`heard
      ensures Ready() && |out| < |old(out)| && |heard| == |old(heard)| + 1
    {
      HearsOne(limit, server, commands, heard, answered, out, input);
      var k := |heard|;
      var (command, rest) := RespFormat.ReadReply(limit, out).value;
      heard := heard + [command];
      input := input + Print(server(k, command));
      out := rest;
    }

    method Flush()
      requires Valid()
      modifies this`out, this`input, this`heard
      ensures Valid() && |heard| == |commands| && out == []
    {
      Deliver();
    }

    /** `Send`: the command is buffered. A full buffer empties itself, so that some of the commands held
        back, `passed` at most, may reach the server already. */
    method Send(c: Command, passed: nat)
      requires Valid() && Fits(c)
      modifies this`pending, this`out, this`input, this`heard, this`commands, lenScratch
      ensures Valid() && commands == old(commands) + [c] && |old(heard)| <= |heard| <= |old(heard)| + passed
    {
      pending := pending + 1;
      Buffer(c);
      var k := 0;
      while k < passed && out != []
        invariant k <= passed && Ready() && |heard| == |old(heard)| + k
        modifies this`out, this`input, this`heard
      {
        DeliverOne();
        k := k + 1;
      }
    }

    /** Prints a command behind what is held back. */
    method Buffer(c: Command)
      requires Ready() && lenScratch.Length == 32 && Fits(c)
      modifies this`out, this`commands, lenScratch
      ensures Ready() && commands == old(commands) + [c]
    {
      CommandsExtend(commands, |heard|, c);
      WriteCommand(c);
      commands := commands + [c];
    }

    /** Reads the oldest outstanding reply. */
    method NextReply() returns (reply: Option<Reply>)
      requires Ready() && answered < |heard|
      modifies this`input, this`answered
      ensures Ready() && reply == Some(Answer(server, heard, old(answered))) && answered == old(answered) + 1
    {
      PrintRoundTrip(limit, Answer(server, heard, answered), RepliesFrom(server, heard, answered + 1));
      reply := ReadReply();
      answered := answered + 1;
    }

    /** `Receive`: the reply to the oldest unanswered command. An error reply is reported as an error.
        With no reply outstanding the call blocks, and nothing changes. */
    method Receive() returns (blocks: bool, reply: Option<Reply>, err: Option<seq<byte>>)
      requires Valid()
      modifies this`pending, this`input, this`answered
      ensures Valid() && blocks == (old(answered) == |heard|)
      ensures answered == old(answered) + (if blocks then 0 else 1)
      ensures !blocks ==> var r := Answer(server, heard, old(answered));
                          if r.Error? then reply == None && err == Some(r.text) else reply == Some(r) && err == None
    {
      if |input| == 0 { return true, None, None; }
      var r := NextReply();
      if pending > 0 {
        pending := pending - 1;
      }
      if r.value.Error? { return false, None, Some(r.value.text); }
      return false, r, None;
    }

    /** `Do` with a command (see DoPending for the empty one): everything outstanding is received, and
        the reply is the server's answer to this very command. The error is the first of all the error
        replies received. */
    method Do(c: Command) returns (reply: Option<Reply>, err: Option<seq<byte>>)
      requires Valid() && Fits(c) && c.name != []
      modifies this`pending, this`out, this`input, this`heard, this`commands, this`answered, lenScratch
      ensures Valid() && pending == 0 && commands == old(commands) + [c] && answered == |heard| == |commands|
      ensures heard[|heard| - 1] == AsReply(c) && reply == Some(server(|heard| - 1, AsReply(c)))
      ensures err == FirstError(server, heard, old(answered), |heard|)
    {
      var wait := pending;
      pending := 0;
      Buffer(c);
      Deliver();
      reply, err := LastReply(wait + 1);
    }

    /** The loop of `Do` over the replies to what was pending and to the command itself. */
    method LastReply(n: nat) returns (reply: Option<Reply>, err: Option<seq<byte>>)
      requires Ready() && n > 0 && |heard| == answered + n
      modifies this`input, this`answered
      ensures Ready() && answered == |heard|
      ensures reply == Some(Answer(server, heard, |heard| - 1))
          && err == FirstError(server, heard, old(answered), |heard|)
    {
      err := None;
      reply := None;
      ghost var first := answered;
      var i := 0;
      while i < n
        invariant 0 <= i <= n && answered == first + i && Ready()
        invariant err == FirstError(server, heard, first, answered)
        invariant i > 0 ==> reply == Some(Answer(server, heard, answered - 1))
      {
        reply, err := ReplyOrError(first, err);
        i := i + 1;
      }
    }

    /** One pass of that loop: of the error replies the first is kept. */
    method ReplyOrError(ghost first: nat, err0: Option<seq<byte>>)
      returns (reply: Option<Reply>, err: Option<seq<byte>>)
      requires Ready() && first <= answered < |heard| && err0 == FirstError(server, heard, first, answered)
      modifies this`input, this`answered
      ensures Ready() && answered == old(answered) + 1
      ensures reply == Some(Answer(server, heard, answered - 1)) && err == FirstError(server, heard, first, answered)
    {
      err := err0;
      reply := NextReply();
      if reply.value.Error? && err == None {
        err := Some(reply.value.text);
      }
    }

    /** `Do` with the empty command: all outstanding replies, oldest first. */
    method DoPending() returns (replies: seq<Reply>)
      requires Valid()
      modifies this`pending, this`out, this`input, this`heard, this`answered
      ensures Valid() && pending == 0 && commands == old(commands) && answered == |commands|
      ensures |replies| == |commands| - old(answered)
      ensures forall k :: 0 <= k < |replies| ==> replies[k] == Answer(server, heard, old(answered) + k)
    {
      var wait := pending;
      pending := 0;
      replies := [];
      if wait == 0 { return; }
      replies := AwaitPending(wait);
    }

    /** What follows once there is something to wait for. */
    method AwaitPending(n: nat) returns (replies: seq<Reply>)
      requires Ready() && |commands| == answered + n
      modifies this`out, this`input, this`heard, this`answered
      ensures Ready() && answered == |heard| == |commands|
      ensures |replies| == n && forall k :: 0 <= k < n ==> replies[k] == Answer(server, heard, old(answered) + k)
    {
      Deliver();
      replies := ReadPending(n);
    }

    method ReadPending(n: nat) returns (replies: seq<Reply>)
      requires Ready() && |heard| == answered + n
      modifies this`input, this`answered
      ensures Ready() && answered == |heard|
      ensures |replies| == n && forall k :: 0 <= k < n ==> replies[k] == Answer(server, heard, old(answered) + k)
    {
      replies := [];
      ghost var first := answered;
      var i := 0;
      while i < n
        invariant 0 <= i == |replies| <= n && answered == first + i && Ready()
        invariant forall k :: 0 <= k < i ==> replies[k] == Answer(server, heard, first + k)
      {
        var r := NextReply();
        replies := replies + [r.value];
        i := i + 1;
      }
    }
  }

  function Onto(rs: seq<Reply>, r: Option<(seq<Reply>, seq<byte>)>): Option<(seq<Reply>, seq<byte>)> {
    match r
    case Some((more, rest)) => Some((rs + more, rest))
    case None => None
  }

  lemma ElemsDone(limit: nat, rs: seq<Reply>, s: seq<byte>)
    ensures Onto(rs, ReadReplies(limit, 0, s)) == Some((rs, s))
  {
    assert rs + [] == rs;
  }

  /** One element more, with `n` to go and `rs` before it. */
  lemma ElemStep(limit: nat, n: nat, rs: seq<Reply>, s: seq<byte>, r: Option<Reply>, rest: seq<byte>)
    requires n > 0
    requires match RespFormat.ReadReply(limit, s)
             case Some((x, rest')) => r == Some(x) && rest == rest'
             case None => r == None
    ensures Onto(rs, ReadReplies(limit, n, s))
            == if r.None? then None else Onto(rs + [r.value], ReadReplies(limit, n - 1, rest))
  {
    if r.Some? {
      assert ReadReplies(limit, n, s) == Onto([r.value], ReadReplies(limit, n - 1, rest));
      OntoStep(rs, r.value, ReadReplies(limit, n - 1, rest));
    }
  }

  lemma OntoNothing(r: Option<(seq<Reply>, seq<byte>)>)
    ensures Onto([], r) == r
  {
    if r.Some? {
      assert [] + r.value.0 == r.value.0;
    }
  }

  lemma OntoStep(rs: seq<Reply>, x: Reply, r: Option<(seq<Reply>, seq<byte>)>)
    ensures Onto(rs, Onto([x], r)) == Onto(rs + [x], r)
  {
    if r.Some? {
      Associate(rs, [x], r.value.0);
    }
  }
}
