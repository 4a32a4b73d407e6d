/** Callers of one multiplexer in any order, each with a connection of its own, on an underlying
    connection that answers commands in the order in which they were sent. */
module MuxRuns {
  import opened Options
  import opened MuxSections

  type Command = nat

  datatype Pc =
    | Ready
    | Popped(id: nat)
    | Waiting(id: nat)
    | Woken(id: nat)
    | Receiving(id: nat)
    | Handing(to: Caller, reply: Command)
    | Panicked

  /** A caller's connection: outstanding ids, what its goroutine is doing, the replies it has got. */
  datatype Conn = Conn(ids: seq<nat>, pc: Pc, got: seq<Command>)

  datatype Request = Request(caller: Caller, cmd: Command)

  /** `sent` and `flushed` belong to the underlying connection, `received` counts its replies;
      `recvMu` is the holder of the receive mutex. */
  datatype State = State(mux: Mux, recvMu: Option<Caller>, sent: seq<Request>, flushed: nat, received: nat,
                         conns: map<Caller, Conn>)

  const INITIAL: State := State(Mux(0, 0, map[]), None, [], 0, 0, map[])

  function ConnOf(s: State, c: Caller): Conn {
    if c in s.conns then s.conns[c] else Conn([], Ready, [])
  }

  datatype Event =
    | Send(c: Caller, cmd: Command, flush: bool)
    | Flush(c: Caller)
    | Pop(c: Caller)
    | LockFirst(c: Caller)
    | HandOver(c: Caller)
    | LockAgain(c: Caller)
    | Reply(c: Caller)

  predicate Enabled(s: State, e: Event) {
    var pc := ConnOf(s, e.c).pc;
    match e
    case Send(_, _, _) => pc.Ready?
    case Flush(_) => pc.Ready?
    case Pop(c) => pc.Ready? && ConnOf(s, c).ids != []
    case LockFirst(_) => pc.Popped? && s.recvMu.None?
    case HandOver(_) => pc.Handing? && ConnOf(s, pc.to).pc.Waiting?
    case LockAgain(_) => pc.Woken? && s.recvMu.None?
    case Reply(_) => pc.Receiving? && s.received < s.flushed && s.received < |s.sent|
  }

  function Update(s: State, c: Caller, conn: Conn): State {
    s.(conns := s.conns[c := conn])
  }

  function Next(s: State, e: Event): State
    requires Enabled(s, e)
  {
    var me := ConnOf(s, e.c);
    match e
    case Send(c, cmd, flush) =>
      var (m, id) := TakeID(s.mux);
      var sent := s.sent + [Request(c, cmd)];
      Update(s.(mux := m, sent := sent, flushed := if flush then |sent| else s.flushed), c, me.(ids := me.ids + [id]))
    case Flush(_) => s.(flushed := |s.sent|)
    case Pop(c) => Update(s, c, me.(ids := me.ids[1..], pc := Popped(me.ids[0])))
    case LockFirst(c) =>
      var (m, mine) := AwaitTurn(s.mux, me.pc.id, c);
      if mine then Update(s.(mux := m, recvMu := Some(c)), c, me.(pc := Receiving(me.pc.id)))
      else Update(s.(mux := m), c, me.(pc := Waiting(me.pc.id)))
    case HandOver(c) =>
      var w := me.pc.to;
      var s' := Update(s, w, ConnOf(s, w).(pc := Woken(ConnOf(s, w).pc.id)));
      Update(s', c, ConnOf(s', c).(pc := Ready, got := me.got + [me.pc.reply]))
    case LockAgain(c) =>
      if s.mux.recvID != me.pc.id then Update(s.(recvMu := Some(c)), c, me.(pc := Panicked))
      else Update(s.(recvMu := Some(c)), c, me.(pc := Receiving(me.pc.id)))
    case Reply(c) =>
      var reply := s.sent[s.received].cmd;
      var (m, wake) := PassTurn(s.mux, me.pc.id);
      var s' := s.(mux := m, recvMu := None, received := s.received + 1);
      match wake
      case Some(w) => Update(s', c, me.(pc := Handing(w, reply)))
      case None => Update(s', c, me.(pc := Ready, got := me.got + [reply]))
  }

  /** `s` is the state after the events `es`. */
  ghost predicate Reaches(es: seq<Event>, s: State) {
    if es == [] then s == INITIAL
    else
      var last := |es| - 1;
      exists before :: Reaches(es[..last], before) && Enabled(before, es[last]) && s == Next(before, es[last])
  }

  // ---- The invariant ----

  /** The ids from `lo` on of the commands that `c` has sent. */
  function IdsOf(sent: seq<Request>, c: Caller, lo: nat): seq<nat> {
    if sent == [] then []
    else
      var last := |sent| - 1;
      IdsOf(sent[..last], c, lo) + (if last >= lo && sent[last].caller == c then [last] else [])
  }

  /** The first `n` commands sent, as far as they are from `c`. */
  function CommandsOf(sent: seq<Request>, c: Caller): seq<Command> {
    if sent == [] then []
    else
      var last := |sent| - 1;
      CommandsOf(sent[..last], c) + (if sent[last].caller == c then [sent[last].cmd] else [])
  }

  /** The id a caller inside `Receive` is after. */
  function Current(pc: Pc): seq<nat> {
    if pc.Popped? || pc.Waiting? || pc.Woken? || pc.Receiving? then [pc.id] else []
  }

  /** The reply a caller has read but not yet returned. */
  function InHand(pc: Pc): seq<Command> {
    if pc.Handing? then [pc.reply] else []
  }

  /** Every caller's ids are exactly those of its unanswered commands, oldest first, and what it has
      got are the replies to its answered commands. */
  ghost predicate Matched(s: State) {
    && s.mux.sendID == |s.sent| && s.mux.recvID == s.received <= |s.sent| && s.flushed <= |s.sent|
    && (forall c :: Current(ConnOf(s, c).pc) + ConnOf(s, c).ids == IdsOf(s.sent, c, s.mux.recvID))
    && (forall c :: ConnOf(s, c).got + InHand(ConnOf(s, c).pc) == CommandsOf(s.sent[..s.received], c))
  }

  /** What a goroutine may be doing. `h` is the goroutine that is handing the turn over, if any. */
  predicate Fine(s: State, h: Option<Caller>, c: Caller) {
    match ConnOf(s, c).pc
    case Panicked => false
    case Receiving(id) => id == s.mux.recvID && s.recvMu == Some(c)
    case Woken(id) => id == s.mux.recvID && s.recvMu != Some(c)
    case Waiting(id) =>
      && s.recvMu != Some(c)
      && if id == s.mux.recvID then h.Some? && ConnOf(s, h.value).pc.Handing? && ConnOf(s, h.value).pc.to == c
         else id in s.mux.recvWait
    case Handing(to, _) => h == Some(c) && ConnOf(s, to).pc == Waiting(s.mux.recvID) && s.recvMu != Some(c)
    case _ => s.recvMu != Some(c)
  }

  predicate Registered(s: State, id: nat)
    requires id in s.mux.recvWait
  {
    id > s.mux.recvID && ConnOf(s, s.mux.recvWait[id]).pc == Waiting(id)
  }

  /** The turn is held by one goroutine at a time, or is on its way to the one that waits for it. */
  ghost predicate Orderly(s: State, h: Option<Caller>) {
    && (forall c :: Fine(s, h, c))
    && (forall id :: id in s.mux.recvWait ==> Registered(s, id))
  }

  ghost predicate Inv(s: State, h: Option<Caller>) {
    Matched(s) && Orderly(s, h)
  }

  // ---- Ids ----

  lemma {:induction false} IdsMember(sent: seq<Request>, c: Caller, lo: nat, id: nat)
    ensures id in IdsOf(sent, c, lo) <==> lo <= id < |sent| && sent[id].caller == c
  {
    if sent != [] {
      IdsMember(sent[..|sent| - 1], c, lo, id);
    }
  }

  /** Answering the command with id `lo` takes exactly that id from its caller, and none from others. */
  lemma {:induction false} IdsAdvance(sent: seq<Request>, c: Caller, lo: nat)
    requires lo < |sent|
    ensures IdsOf(sent, c, lo) == (if sent[lo].caller == c then [lo] else []) + IdsOf(sent, c, lo + 1)
  {
    var last := |sent| - 1;
    if lo < last {
      IdsAdvance(sent[..last], c, lo);
    } else {
      IdsEmpty(sent[..last], c, lo);
      IdsEmpty(sent, c, lo + 1);
    }
  }

  lemma {:induction false} IdsEmpty(sent: seq<Request>, c: Caller, lo: nat)
    requires |sent| <= lo
    ensures IdsOf(sent, c, lo) == []
  {
    if sent != [] {
      IdsEmpty(sent[..|sent| - 1], c, lo);
    }
  }

  lemma SendAdds(sent: seq<Request>, r: Request, c: Caller, lo: nat)
    requires lo <= |sent|
    ensures IdsOf(sent + [r], c, lo) == IdsOf(sent, c, lo) + (if r.caller == c then [|sent|] else [])
  {
    assert (sent + [r])[..|sent|] == sent;
  }

  /** The id a caller is after is its own and not yet answered, so no two callers are after the same. */
  lemma CurrentIsOwn(s: State, c: Caller)
    requires Matched(s) && Current(ConnOf(s, c).pc) != []
    ensures var id := Current(ConnOf(s, c).pc)[0];
            s.mux.recvID <= id < |s.sent| && s.sent[id].caller == c
  {
    var id := Current(ConnOf(s, c).pc)[0];
    var mine := Current(ConnOf(s, c).pc) + ConnOf(s, c).ids;
    assert mine[0] == id && id in mine;
    IdsMember(s.sent, c, s.mux.recvID, id);
  }

  // ---- Every step keeps the invariant ----

  /** Nobody changes but `c`. */
  ghost predicate Changes(s: State, s': State, c: Caller) {
    forall d :: d != c ==> ConnOf(s', d) == ConnOf(s, d)
  }

  lemma KeepsSend(s: State, h: Option<Caller>, c: Caller, cmd: Command, flush: bool)
    requires Inv(s, h) && Enabled(s, Send(c, cmd, flush))
    ensures Inv(Next(s, Send(c, cmd, flush)), h)
  {
    var s' := Next(s, Send(c, cmd, flush));
    forall d ensures Current(ConnOf(s', d).pc) + ConnOf(s', d).ids == IdsOf(s'.sent, d, s'.mux.recvID) {
      SendAdds(s.sent, Request(c, cmd), d, s.mux.recvID);
    }
    assert s'.sent[..s.received] == s.sent[..s.received];
    assert forall d :: ConnOf(s', d).pc == ConnOf(s, d).pc && ConnOf(s', d).got == ConnOf(s, d).got;
    forall d ensures Fine(s', h, d) {
      assert Fine(s, h, d);
    }
    forall id | id in s'.mux.recvWait ensures Registered(s', id) {
      assert Registered(s, id);
    }
  }

  /** What a step of `c` alone that leaves the replies alone has to show. */
  lemma KeepsAlone(s: State, h: Option<Caller>, c: Caller, s': State)
    requires Matched(s) && s'.sent == s.sent && s'.received == s.received && s.flushed <= s'.flushed <= |s.sent|
    requires s'.mux.sendID == s.mux.sendID && s'.mux.recvID == s.mux.recvID
    requires Changes(s, s', c)
    requires Current(ConnOf(s', c).pc) + ConnOf(s', c).ids == Current(ConnOf(s, c).pc) + ConnOf(s, c).ids
    requires ConnOf(s', c).got + InHand(ConnOf(s', c).pc) == ConnOf(s, c).got + InHand(ConnOf(s, c).pc)
    ensures Matched(s')
  {
  }

  lemma KeepsPop(s: State, h: Option<Caller>, c: Caller)
    requires Inv(s, h) && Enabled(s, Pop(c))
    ensures Inv(Next(s, Pop(c)), h)
  {
    var s' := Next(s, Pop(c));
    var ids := ConnOf(s, c).ids;
    assert [] + ids == [ids[0]] + ids[1..];
    KeepsAlone(s, h, c, s');
    forall d ensures Fine(s', h, d) {
      assert Fine(s, h, d) && Fine(s, h, c);
    }
    forall id | id in s'.mux.recvWait ensures Registered(s', id) {
      assert Registered(s, id);
    }
  }

  lemma KeepsLockFirst(s: State, h: Option<Caller>, c: Caller)
    requires Inv(s, h) && Enabled(s, LockFirst(c))
    ensures Inv(Next(s, LockFirst(c)), h)
  {
    var s' := Next(s, LockFirst(c));
    CurrentIsOwn(s, c);
    KeepsAlone(s, h, c, s');
    forall d ensures Fine(s', h, d) {
      assert Fine(s, h, d) && Fine(s, h, c);
    }
    forall id | id in s'.mux.recvWait ensures Registered(s', id) {
      assert id in s.mux.recvWait ==> Registered(s, id);
    }
  }

  /** The check after the wake-up never fails: it is the caller's turn. */
  lemma KeepsLockAgain(s: State, h: Option<Caller>, c: Caller)
    requires Inv(s, h) && Enabled(s, LockAgain(c))
    ensures Inv(Next(s, LockAgain(c)), h)
  {
    var s' := Next(s, LockAgain(c));
    assert Fine(s, h, c);
    KeepsAlone(s, h, c, s');
    forall d ensures Fine(s', h, d) {
      assert Fine(s, h, d);
    }
    forall id | id in s'.mux.recvWait ensures Registered(s', id) {
      assert Registered(s, id);
    }
  }

  /** The reader of a reply wakes the caller whose turn it is now. */
  lemma KeepsHandOver(s: State, h: Option<Caller>, c: Caller)
    requires Inv(s, h) && Enabled(s, HandOver(c))
    ensures Inv(Next(s, HandOver(c)), None)
  {
    var s' := Next(s, HandOver(c));
    var w := ConnOf(s, c).pc.to;
    assert Fine(s, h, c) && Fine(s, h, w);
    var s1 := Update(s, w, ConnOf(s, w).(pc := Woken(ConnOf(s, w).pc.id)));
    KeepsAlone(s, h, w, s1);
    KeepsAlone(s1, h, c, s');
    forall d ensures Fine(s', None, d) {
      assert Fine(s, h, d);
    }
    forall id | id in s'.mux.recvWait ensures Registered(s', id) {
      assert Registered(s, id);
    }
  }

  lemma Cancel<T>(x: seq<T>, a: seq<T>, b: seq<T>)
    requires x + a == x + b
    ensures a == b
  {
    assert (x + a)[|x|..] == a && (x + b)[|x|..] == b;
  }

  /** The reader of a reply has one id less, its own, and one reply more. */
  lemma ReplyConn(s: State, h: Option<Caller>, c: Caller)
    requires Inv(s, h) && Enabled(s, Reply(c))
    ensures var me, me' := ConnOf(s, c), ConnOf(Next(s, Reply(c)), c);
            && me.pc == Receiving(s.received) && s.sent[s.received].caller == c
            && (me'.pc.Ready? || me'.pc.Handing?) && me'.ids == me.ids
            && me'.got + InHand(me'.pc) == me.got + [s.sent[s.received].cmd]
  {
    assert Fine(s, h, c);
    CurrentIsOwn(s, c);
  }

  lemma ReplyIds(s: State, h: Option<Caller>, c: Caller, d: Caller)
    requires Inv(s, h) && Enabled(s, Reply(c))
    ensures var s' := Next(s, Reply(c));
            Current(ConnOf(s', d).pc) + ConnOf(s', d).ids == IdsOf(s'.sent, d, s'.mux.recvID)
  {
    ReplyConn(s, h, c);
    IdsAdvance(s.sent, d, s.received);
    if d == c {
      Cancel([s.received], ConnOf(s, c).ids, IdsOf(s.sent, c, s.received + 1));
    }
  }

  lemma ReplyGot(s: State, h: Option<Caller>, c: Caller, d: Caller)
    requires Inv(s, h) && Enabled(s, Reply(c))
    ensures var s' := Next(s, Reply(c));
            ConnOf(s', d).got + InHand(ConnOf(s', d).pc) == CommandsOf(s'.sent[..s'.received], d)
  {
    ReplyConn(s, h, c);
    CommandsAdvance(s.sent, d, s.received);
  }

  lemma CommandsAdvance(sent: seq<Request>, c: Caller, i: nat)
    requires i < |sent|
    ensures CommandsOf(sent[..i + 1], c)
            == CommandsOf(sent[..i], c) + if sent[i].caller == c then [sent[i].cmd] else []
  {
    assert sent[..i + 1][..i] == sent[..i];
  }

  lemma ReplyMatches(s: State, h: Option<Caller>, c: Caller)
    requires Inv(s, h) && Enabled(s, Reply(c))
    ensures Matched(Next(s, Reply(c)))
  {
    ReplyConn(s, h, c);
    forall d {
      ReplyIds(s, h, c, d);
    }
    forall d {
      ReplyGot(s, h, c, d);
    }
  }

  /** Nobody else was at the reader's id, and who waits for the next one is handed the turn. */
  lemma ReplyFine(s: State, h: Option<Caller>, c: Caller, d: Caller)
    requires Inv(s, h) && Enabled(s, Reply(c))
    ensures var s' := Next(s, Reply(c));
            Fine(s', if ConnOf(s', c).pc.Handing? then Some(c) else None, d)
  {
    ReplyConn(s, h, c);
    var id := s.mux.recvID;
    assert Fine(s, h, d);
    assert id + 1 in s.mux.recvWait ==> Registered(s, id + 1);
    if d != c && Current(ConnOf(s, d).pc) != [] {
      CurrentIsOwn(s, d);
    }
    if ConnOf(s, d).pc.Handing? {
      CurrentIsOwn(s, ConnOf(s, d).pc.to);
    }
    if ConnOf(s, d).pc == Waiting(id + 1) {
      CurrentIsOwn(s, s.mux.recvWait[id + 1]);
    }
  }

  /** Who has registered keeps waiting, but for the caller that is handed the turn. */
  lemma ReplyRegistered(s: State, h: Option<Caller>, c: Caller, id: nat)
    requires Inv(s, h) && Enabled(s, Reply(c)) && id in Next(s, Reply(c)).mux.recvWait
    ensures Registered(Next(s, Reply(c)), id)
  {
    ReplyConn(s, h, c);
    assert id in s.mux.recvWait && Registered(s, id);
  }

  /** A reply is read: the turn goes to the caller of the next command, if that one waits. */
  lemma ReplyPasses(s: State, h: Option<Caller>, c: Caller)
    requires Inv(s, h) && Enabled(s, Reply(c))
    ensures var s' := Next(s, Reply(c));
            Orderly(s', if ConnOf(s', c).pc.Handing? then Some(c) else None)
  {
    var s' := Next(s, Reply(c));
    var h' := if ConnOf(s', c).pc.Handing? then Some(c) else None;
    forall d ensures Fine(s', h', d) {
      ReplyFine(s, h, c, d);
    }
    forall id | id in s'.mux.recvWait ensures Registered(s', id) {
      ReplyRegistered(s, h, c, id);
    }
  }

  lemma KeepsStep(s: State, h: Option<Caller>, e: Event) returns (h': Option<Caller>)
    requires Inv(s, h) && Enabled(s, e)
    ensures Inv(Next(s, e), h')
  {
    h' := h;
    match e {
      case Send(c, cmd, flush) => KeepsSend(s, h, c, cmd, flush);
      case Flush(c) => KeepsFlush(s, h, c);
      case Pop(c) => KeepsPop(s, h, c);
      case LockFirst(c) => KeepsLockFirst(s, h, c);
      case HandOver(c) =>
        KeepsHandOver(s, h, c);
        h' := None;
      case LockAgain(c) => KeepsLockAgain(s, h, c);
      case Reply(c) =>
        ReplyMatches(s, h, c);
        ReplyPasses(s, h, c);
        h' := if ConnOf(Next(s, e), c).pc.Handing? then Some(c) else None;
    }
  }

  lemma KeepsFlush(s: State, h: Option<Caller>, c: Caller)
    requires Inv(s, h) && Enabled(s, Flush(c))
    ensures Inv(Next(s, Flush(c)), h)
  {
    var s' := Next(s, Flush(c));
    KeepsAlone(s, h, c, s');
    forall d ensures Fine(s', h, d) {
      assert Fine(s, h, d);
    }
    forall id | id in s'.mux.recvWait ensures Registered(s', id) {
      assert Registered(s, id);
    }
  }

  lemma {:induction false} ReachableInv(es: seq<Event>, s: State) returns (h: Option<Caller>)
    requires Reaches(es, s)
    ensures Inv(s, h)
  {
    if es == [] {
      h := None;
    } else {
      var last := |es| - 1;
      var before :| Reaches(es[..last], before) && Enabled(before, es[last]) && s == Next(before, es[last]);
      h := ReachableInv(es[..last], before);
      h := KeepsStep(before, h, es[last]);
    }
  }

  // ---- Every reachable state ----

  lemma {:induction false} CommandsPrefix(sent: seq<Request>, c: Caller, k: nat)
    requires k <= |sent|
    ensures CommandsOf(sent[..k], c) <= CommandsOf(sent, c)
    ensures IdsOf(sent, c, k) == [] ==> CommandsOf(sent[..k], c) == CommandsOf(sent, c)
  {
    if k < |sent| {
      var last := |sent| - 1;
      CommandsPrefix(sent[..last], c, k);
      assert sent[..last][..k] == sent[..k];
    } else {
      assert sent[..k] == sent;
    }
  }

  /** What a caller has got is, reply for reply, the answer to its own commands in the order in which
      it sent them; once it has no id left, it has got them all. */
  lemma RepliesMatchCommands(es: seq<Event>, s: State, c: Caller)
    requires Reaches(es, s)
    ensures ConnOf(s, c).got <= CommandsOf(s.sent, c)
    ensures ConnOf(s, c).pc.Ready? && ConnOf(s, c).ids == [] ==> ConnOf(s, c).got == CommandsOf(s.sent, c)
  {
    var h := ReachableInv(es, s);
    CommandsPrefix(s.sent, c, s.received);
    assert Current(ConnOf(s, c).pc) + ConnOf(s, c).ids == IdsOf(s.sent, c, s.mux.recvID);
    assert ConnOf(s, c).got + InHand(ConnOf(s, c).pc) == CommandsOf(s.sent[..s.received], c);
  }

  /** The "out of sync" panic cannot be reached. */
  lemma NeverOutOfSync(es: seq<Event>, s: State, c: Caller)
    requires Reaches(es, s)
    ensures !ConnOf(s, c).pc.Panicked?
    ensures Enabled(s, LockAgain(c)) ==> s.mux.recvID == ConnOf(s, c).pc.id
  {
    var h := ReachableInv(es, s);
    assert Fine(s, h, c);
  }

  /** `recvID` counts the replies: one more with every reply, and nothing else moves it. */
  lemma TurnFollowsReplies(es: seq<Event>, s: State, e: Event)
    requires Reaches(es, s) && Enabled(s, e)
    ensures s.mux.recvID == s.received
    ensures Next(s, e).mux.recvID == s.mux.recvID + (if e.Reply? then 1 else 0)
  {
    var h := ReachableInv(es, s);
    assert Fine(s, h, e.c);
  }

  /** The caller whose reply is next. */
  function Owner(s: State): Caller
    requires s.mux.recvID < |s.sent|
  {
    s.sent[s.mux.recvID].caller
  }

  /** A step of `c`, or of the caller that is handing it the turn. */
  predicate Moves(s: State, e: Event, c: Caller) {
    e.c == c || (ConnOf(s, e.c).pc.Handing? && ConnOf(s, e.c).pc.to == c)
  }

  /** How many steps a caller inside Receive is away from having read its reply. */
  function Left(pc: Pc): (n: nat)
    ensures if Current(pc) == [] then n == 0 else 1 <= n <= 3
  {
    match pc
    case Waiting(_) => 3
    case Popped(_) => 2
    case Woken(_) => 2
    case Receiving(_) => 1
    case _ => 0
  }

  /** A caller that is inside Receive when its reply is next is after just that reply. */
  lemma OwnerIsAfterIt(s: State, h: Option<Caller>)
    requires Inv(s, h) && s.mux.recvID < |s.sent| && !ConnOf(s, Owner(s)).pc.Ready?
    ensures Current(ConnOf(s, Owner(s)).pc) == [s.mux.recvID]
    ensures s.recvMu.Some? ==> s.recvMu == Some(Owner(s))
  {
    var c := Owner(s);
    assert Fine(s, h, c);
    if s.recvMu.Some? {
      assert Fine(s, h, s.recvMu.value);
      CurrentIsOwn(s, s.recvMu.value);
    }
    if ConnOf(s, c).pc.Handing? {
      CurrentIsOwn(s, ConnOf(s, c).pc.to);
    }
    IdsAdvance(s.sent, c, s.mux.recvID);
    FirstIs(Current(ConnOf(s, c).pc), ConnOf(s, c).ids, s.mux.recvID, IdsOf(s.sent, c, s.mux.recvID + 1));
  }

  lemma FirstIs(a: seq<nat>, b: seq<nat>, x: nat, c: seq<nat>)
    requires |a| == 1 && a + b == [x] + c
    ensures a == [x]
  {
    assert (a + b)[0] == a[0];
  }

  /** The turn is never lost: while the oldest unanswered command has been flushed and its caller is
      inside Receive, that caller or the one handing it the turn can go on. */
  lemma SomebodyCanGoOn(es: seq<Event>, s: State)
    requires Reaches(es, s) && s.mux.recvID < s.flushed && s.mux.recvID < |s.sent| && !ConnOf(s, Owner(s)).pc.Ready?
    ensures exists e :: Enabled(s, e) && Moves(s, e, Owner(s))
  {
    var h := ReachableInv(es, s);
    var c := Owner(s);
    OwnerIsAfterIt(s, h);
    assert Fine(s, h, c);
    match ConnOf(s, c).pc {
      case Popped(_) => assert Enabled(s, LockFirst(c)) && Moves(s, LockFirst(c), c);
      case Woken(_) => assert Enabled(s, LockAgain(c)) && Moves(s, LockAgain(c), c);
      case Waiting(_) => assert Enabled(s, HandOver(h.value)) && Moves(s, HandOver(h.value), c);
      case Receiving(_) => assert Enabled(s, Reply(c)) && Moves(s, Reply(c), c);
    }
  }

  /** A step that leaves the reply to its owner and takes it `n` steps closer. */
  ghost predicate Closer(s: State, s': State, n: nat) {
    && s.mux.recvID < |s.sent| && s'.mux.recvID < |s'.sent| && Owner(s') == Owner(s)
    && Left(ConnOf(s', Owner(s)).pc) == Left(ConnOf(s, Owner(s)).pc) - n
  }

  /** Every such step brings the caller closer to its reply, and no step of anybody else takes it away
      from it: after at most three of them the reply has been read. */
  lemma EveryStepIsCloser(es: seq<Event>, s: State, e: Event)
    requires Reaches(es, s) && Enabled(s, e) && s.mux.recvID < |s.sent| && !ConnOf(s, Owner(s)).pc.Ready?
    ensures 1 <= Left(ConnOf(s, Owner(s)).pc) <= 3
    ensures if e.Reply? then e.c == Owner(s) && Left(ConnOf(s, Owner(s)).pc) == 1
            else Closer(s, Next(s, e), if Moves(s, e, Owner(s)) then 1 else 0)
  {
    var h := ReachableInv(es, s);
    OwnerIsAfterIt(s, h);
    match e {
      case Reply(c) => ReplyIsOwners(s, h, c);
      case HandOver(c) => HandOverCloser(s, h, c);
      case _ => StepCloser(s, h, e);
    }
  }

  lemma ReplyIsOwners(s: State, h: Option<Caller>, c: Caller)
    requires Inv(s, h) && Enabled(s, Reply(c)) && s.mux.recvID < |s.sent|
    ensures c == Owner(s) && Left(ConnOf(s, Owner(s)).pc) == 1
  {
    ReplyConn(s, h, c);
  }

  /** Handing over wakes exactly the owner. */
  lemma HandOverCloser(s: State, h: Option<Caller>, c: Caller)
    requires Inv(s, h) && Enabled(s, HandOver(c)) && s.mux.recvID < |s.sent|
    ensures Moves(s, HandOver(c), Owner(s)) && Closer(s, Next(s, HandOver(c)), 1)
  {
    assert Fine(s, h, c);
    CurrentIsOwn(s, ConnOf(s, c).pc.to);
  }

  /** Other steps change one caller only. */
  lemma StepCloser(s: State, h: Option<Caller>, e: Event)
    requires Inv(s, h) && Enabled(s, e) && !e.HandOver? && !e.Reply?
    requires s.mux.recvID < |s.sent| && Current(ConnOf(s, Owner(s)).pc) == [s.mux.recvID]
    ensures Closer(s, Next(s, e), if Moves(s, e, Owner(s)) then 1 else 0)
  {
    assert Fine(s, h, e.c);
  }
}
