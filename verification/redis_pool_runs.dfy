/** Goroutines calling the pool in any order: what holds in every reachable state. */
module PoolRuns {
  import opened Options
  import opened PoolSections
  import opened Sets

  type Handle = nat

  /** The pool, what every goroutine is doing, and the connections handed out to the application:
      a handle maps to None once it has been closed. */
  datatype State = State(pool: PoolState, pcs: map<Goroutine, Pc>, handles: map<Handle, Option<Conn>>)

  const INITIAL: State := State(PoolState(false, 0, [], false, []), map[], map[])

  function PcOf(s: State, g: Goroutine): Pc {
    if g in s.pcs then s.pcs[g] else Outside
  }

  /** One atomic step. Test and dial results, the clock and the order of steps are arbitrary. */
  datatype Event =
    | Get(g: Goroutine, now: int)
    | Pruned(g: Goroutine, now: int)
    | Tested(g: Goroutine, passed: bool, handle: Handle)
    | Dialed(g: Goroutine, conn: Option<Conn>, handle: Handle)
    | Retry(g: Goroutine)
    | CloseHandle(g: Goroutine, handle: Handle)
    | PutBack(g: Goroutine, keep: bool, now: int)
    | ClosePool

  predicate Free(pc: Pc) {
    pc.Outside? || pc.Refused?
  }

  /** Somebody has the connection: an open handle, a goroutine, or the idle list. */
  datatype Holder = Open(h: Handle) | Busy(g: Goroutine) | Idle(k: nat)

  function Held(s: State, x: Holder): Option<Conn> {
    match x
    case Open(h) => if h in s.handles then s.handles[h] else None
    case Busy(g) =>
      var pc := PcOf(s, g);
      if pc.Testing? || pc.Returning? then Some(pc.c) else None
    case Idle(k) => if k < |s.pool.idle| then Some(s.pool.idle[k].c) else None
  }

  ghost predicate InUse(s: State, c: Conn) {
    exists x :: Held(s, x) == Some(c)
  }

  ghost predicate Enabled(s: State, e: Event) {
    match e
    case Get(g, _) => Free(PcOf(s, g))
    case Pruned(g, _) => PcOf(s, g).Pruning?
    case Tested(g, passed, h) => PcOf(s, g).Testing? && (passed ==> h !in s.handles)
    case Dialed(g, conn, h) =>
      PcOf(s, g).Dialing? && (conn.Some? ==> h !in s.handles && !InUse(s, conn.value))
    case Retry(g) => PcOf(s, g).Signalled?
    case CloseHandle(g, h) => Free(PcOf(s, g)) && h in s.handles
    case PutBack(g, _, _) => PcOf(s, g).Returning?
    case ClosePool => true
  }

  function Wake(pcs: map<Goroutine, Pc>, woken: seq<Goroutine>): map<Goroutine, Pc> {
    map g | g in pcs :: if g in woken then Signalled else pcs[g]
  }

  /** `g` leaves a critical section. */
  function Leave(s: State, g: Goroutine, r: Section): State {
    State(r.pool, Wake(s.pcs, r.woken)[g := r.pc], s.handles)
  }

  function HandOut(s: State, g: Goroutine, h: Handle, c: Conn): State {
    s.(pcs := s.pcs[g := Outside], handles := s.handles[h := Some(c)])
  }

  ghost function Next(cfg: Config, s: State, e: Event): State
    requires Enabled(s, e)
  {
    match e
    case Get(g, now) => Leave(s, g, Prune(cfg, s.pool, g, 0, |s.pool.idle|, now))
    case Pruned(g, now) => var pc := PcOf(s, g); Leave(s, g, Prune(cfg, s.pool, g, pc.i, pc.n, now))
    case Tested(g, passed, h) =>
      var pc := PcOf(s, g);
      if passed then HandOut(s, g, h, pc.c) else Leave(s, g, AfterFailedTest(cfg, s.pool, g, pc.i, pc.n))
    case Dialed(g, Some(c), h) => HandOut(s, g, h, c)
    case Dialed(g, None, _) =>
      var (q, woken) := Release(s.pool);
      Leave(s, g, Section(q, woken, Outside))
    case Retry(g) => Leave(s, g, Acquire(cfg, s.pool, g, 0, |s.pool.idle|))
    case CloseHandle(g, h) =>
      (match s.handles[h]
       case None => s
       case Some(c) => s.(pcs := s.pcs[g := Returning(c)], handles := s.handles[h := None]))
    case PutBack(g, keep, now) =>
      var (q, woken, _) := Put(cfg, s.pool, PcOf(s, g).c, keep, now);
      Leave(s, g, Section(q, woken, Outside))
    case ClosePool =>
      var (q, woken) := Close(s.pool);
      State(q, Wake(s.pcs, woken), s.handles)
  }

  /** `s` is the state after the events `es`. */
  ghost predicate Reaches(cfg: Config, es: seq<Event>, s: State) {
    if es == [] then s == INITIAL
    else
      var last := |es| - 1;
      exists before :: Reaches(cfg, es[..last], before) && Enabled(before, es[last]) && s == Next(cfg, before, es[last])
  }

  // ---- The invariant ----

  function Where(pcs: map<Goroutine, Pc>, f: Pc -> bool): set<Goroutine> {
    set g | g in pcs && f(pcs[g])
  }

  function Count(pcs: map<Goroutine, Pc>, f: Pc -> bool): nat {
    |Where(pcs, f)|
  }

  /** The goroutine owns a connection or is about to make one. */
  predicate Holding(pc: Pc) {
    pc.Testing? || pc.Dialing? || pc.Returning?
  }

  predicate Woken(pc: Pc) {
    pc.Signalled?
  }

  function OpenHandles(handles: map<Handle, Option<Conn>>): set<Handle> {
    set h | h in handles && handles[h].Some?
  }

  /** Every connection the pool counts is somewhere: idle, handed out, or with a goroutine. */
  predicate Conserved(s: State) {
    s.pool.active == |s.pool.idle| + Count(s.pcs, Holding) + |OpenHandles(s.handles)|
  }

  /** No connection is in two places: not idle and lent, not lent twice. */
  ghost predicate Separate(s: State) {
    forall x, y :: Held(s, x).Some? && Held(s, x) == Held(s, y) ==> x == y
  }

  predicate Limited(cfg: Config, p: PoolState) {
    && (cfg.maxActive > 0 ==> p.active <= cfg.maxActive)
    && (cfg.maxActive < 0 ==> p.active <= 0)
    && |p.idle| <= (if cfg.maxIdle > 0 then cfg.maxIdle else 0)
    && (p.closed ==> p.idle == [])
  }

  /** The notify list holds exactly the parked goroutines, each once, and none once the pool is closed. */
  predicate Queued(cfg: Config, s: State) {
    && (forall i, j :: 0 <= i < j < |s.pool.waiters| ==> s.pool.waiters[i] != s.pool.waiters[j])
    && (forall g :: g in s.pool.waiters ==> PcOf(s, g).Parked?)
    && (forall g :: g in s.pcs && s.pcs[g].Parked? ==> g in s.pool.waiters)
    && (s.pool.waiters != [] ==> s.pool.hasCond && !s.pool.closed && cfg.wait && cfg.maxActive != 0)
  }

  /** While somebody sleeps unsignalled, every idle connection and every free slot is spoken for by
      a goroutine that has been signalled and has yet to retry. */
  predicate NoLostWakeup(cfg: Config, s: State) {
    s.pool.waiters != [] ==>
      |s.pool.idle| + cfg.maxActive - s.pool.active <= Count(s.pcs, Woken)
  }

  ghost predicate Inv(cfg: Config, s: State) {
    Conserved(s) && Separate(s) && Limited(cfg, s.pool) && Queued(cfg, s) && NoLostWakeup(cfg, s)
  }

  // ---- Counting and moving ----

  lemma CountUpdate(pcs: map<Goroutine, Pc>, g: Goroutine, pc: Pc, f: Pc -> bool)
    ensures Count(pcs[g := pc], f) ==
            Count(pcs, f) - (if g in pcs && f(pcs[g]) then 1 else 0) + (if f(pc) then 1 else 0)
  {
    SizeBut(Where(pcs, f), Where(pcs[g := pc], f), g);
  }

  /** At most one goroutine is woken, and it is the one that has waited longest. */
  predicate WakesFirst(p: PoolState, r: Section, g: Goroutine) {
    && (r.woken == [] || (p.waiters != [] && r.woken == p.waiters[..1]))
    && r.pool.waiters == p.waiters[|r.woken|..] + (if r.pc.Parked? then [g] else [])
  }

  /** What leaving a section does to the notify list and to the numbers of the invariant. */
  lemma LeaveCounts(cfg: Config, s: State, g: Goroutine, r: Section)
    requires Queued(cfg, s) && !PcOf(s, g).Parked? && WakesFirst(s.pool, r, g)
    requires !r.pc.Signalled?
    ensures var s' := Leave(s, g, r);
            && Count(s'.pcs, Holding) == Count(s.pcs, Holding)
                 - (if Holding(PcOf(s, g)) then 1 else 0) + (if Holding(r.pc) then 1 else 0)
            && Count(s'.pcs, Woken) == Count(s.pcs, Woken)
                 - (if Woken(PcOf(s, g)) then 1 else 0) + |r.woken|
    ensures forall x :: x != g && x !in r.woken ==> PcOf(Leave(s, g, r), x) == PcOf(s, x)
    ensures forall x :: x in r.woken ==> x != g && PcOf(s, x).Parked? && PcOf(Leave(s, g, r), x).Signalled?
  {
    var mid := Wake(s.pcs, r.woken);
    if r.woken == [] {
      assert mid == s.pcs;
    } else {
      var w := s.pool.waiters[0];
      assert r.woken == [w] && w in s.pool.waiters && PcOf(s, w).Parked?;
      assert mid == s.pcs[w := Signalled];
      CountUpdate(s.pcs, w, Signalled, Holding);
      CountUpdate(s.pcs, w, Signalled, Woken);
    }
    CountUpdate(mid, g, r.pc, Holding);
    CountUpdate(mid, g, r.pc, Woken);
  }

  /** A step keeps connections apart when every holder afterwards had its connection from a holder
      before, and no two had it from the same. */
  lemma SeparateByOrigin(s: State, s': State, origin: Holder -> Holder)
    requires Separate(s)
    requires forall x :: Held(s', x).Some? ==> Held(s, origin(x)) == Held(s', x)
    requires forall x, y :: Held(s', x).Some? && Held(s', y).Some? && origin(x) == origin(y) ==> x == y
    ensures Separate(s')
  {
  }

  lemma QueuedAfter(cfg: Config, s: State, g: Goroutine, r: Section)
    requires Queued(cfg, s) && !PcOf(s, g).Parked? && WakesFirst(s.pool, r, g) && !r.pc.Signalled?
    requires r.pool.closed == s.pool.closed && (s.pool.hasCond ==> r.pool.hasCond)
    requires r.pc.Parked? ==> r.pool.hasCond && !r.pool.closed && cfg.wait && cfg.maxActive != 0
    ensures Queued(cfg, Leave(s, g, r))
  {
    LeaveCounts(cfg, s, g, r);
  }

  // ---- Every step keeps the invariant ----

  /** Whom the connections come from: the front of the idle list goes to `g`, if `g` tests again. */
  function FrontTaken(g: Goroutine, x: Holder): Holder {
    match x
    case Idle(k) => Idle(k + 1)
    case Busy(b) => if b == g then Idle(0) else x
    case Open(_) => x
  }

  lemma AcquireApart(cfg: Config, s: State, g: Goroutine)
    requires Separate(s) && !Holding(PcOf(s, g))
    ensures Separate(Leave(s, g, Acquire(cfg, s.pool, g, 0, |s.pool.idle|)))
  {
    var r := Acquire(cfg, s.pool, g, 0, |s.pool.idle|);
    var s' := Leave(s, g, r);
    assert s'.pcs == s.pcs[g := r.pc];
    if r.pc.Testing? {
      SeparateByOrigin(s, s', (x: Holder) => FrontTaken(g, x));
    } else {
      SeparateByOrigin(s, s', (x: Holder) => x);
    }
  }

  /** Taking the mutex in the outer loop of `get`: first call, or again after a wait. */
  lemma KeepsAcquire(cfg: Config, s: State, g: Goroutine)
    requires Inv(cfg, s) && !PcOf(s, g).Parked? && !Holding(PcOf(s, g))
    ensures Inv(cfg, Leave(s, g, Acquire(cfg, s.pool, g, 0, |s.pool.idle|)))
  {
    var r := Acquire(cfg, s.pool, g, 0, |s.pool.idle|);
    LeaveCounts(cfg, s, g, r);
    QueuedAfter(cfg, s, g, r);
    AcquireApart(cfg, s, g);
  }

  lemma PrunedApart(cfg: Config, s: State, g: Goroutine, i: nat, n: nat)
    requires Separate(s) && Queued(cfg, s) && s.pool.idle != [] && !PcOf(s, g).Parked? && !Holding(PcOf(s, g))
    ensures var (q, woken) := Release(s.pool.(idle := s.pool.idle[..|s.pool.idle| - 1]));
            Separate(Leave(s, g, Section(q, woken, Pruning(i, n))))
  {
    var (q, woken) := Release(s.pool.(idle := s.pool.idle[..|s.pool.idle| - 1]));
    forall x: Goroutine | x in woken ensures PcOf(s, x).Parked? {
    }
    SeparateByOrigin(s, Leave(s, g, Section(q, woken, Pruning(i, n))), (x: Holder) => x);
  }

  /** Closing a connection that has been idle too long. */
  lemma KeepsPruned(cfg: Config, s: State, g: Goroutine, i: nat, n: nat)
    requires Inv(cfg, s) && s.pool.idle != []
    requires !PcOf(s, g).Parked? && !PcOf(s, g).Signalled? && !Holding(PcOf(s, g))
    ensures var (q, woken) := Release(s.pool.(idle := s.pool.idle[..|s.pool.idle| - 1]));
            Inv(cfg, Leave(s, g, Section(q, woken, Pruning(i, n))))
  {
    var (q, woken) := Release(s.pool.(idle := s.pool.idle[..|s.pool.idle| - 1]));
    var r := Section(q, woken, Pruning(i, n));
    LeaveCounts(cfg, s, g, r);
    QueuedAfter(cfg, s, g, r);
    PrunedApart(cfg, s, g, i, n);
  }

  lemma CountPositive(pcs: map<Goroutine, Pc>, g: Goroutine, f: Pc -> bool)
    requires g in pcs && f(pcs[g])
    ensures Count(pcs, f) >= 1
  {
    assert g in Where(pcs, f);
  }

  /** After a failed test there is always room to dial or an idle connection to try: nobody parks. */
  lemma FailedTestNeverParks(cfg: Config, s: State, g: Goroutine)
    requires Inv(cfg, s) && PcOf(s, g).Testing?
    ensures var pc := PcOf(s, g);
            var r := AfterFailedTest(cfg, s.pool, g, pc.i, pc.n);
            r.pc.Testing? || r.pc.Dialing? || r.pc == Refused(ErrClosed)
  {
    CountPositive(s.pcs, g, Holding);
  }

  /** What a failed test and the wake-up it causes do to the goroutines. */
  lemma FailedTestPcs(cfg: Config, s: State, g: Goroutine, x: Goroutine)
    requires Queued(cfg, s) && PcOf(s, g).Testing?
    ensures var pc := PcOf(s, g);
            var r := AfterFailedTest(cfg, s.pool, g, pc.i, pc.n);
            var pc' := PcOf(Leave(s, g, r), x);
            if x == g then pc' == r.pc else pc' == PcOf(s, x) || (PcOf(s, x).Parked? && pc'.Signalled?)
  {
    var r := AfterFailedTest(cfg, s.pool, g, PcOf(s, g).i, PcOf(s, g).n);
    if x in r.woken {
      assert x in s.pool.waiters;
    }
  }

  lemma FailedTestApart(cfg: Config, s: State, g: Goroutine)
    requires Separate(s) && Queued(cfg, s) && PcOf(s, g).Testing?
    ensures var pc := PcOf(s, g); Separate(Leave(s, g, AfterFailedTest(cfg, s.pool, g, pc.i, pc.n)))
  {
    var pc := PcOf(s, g);
    var r := AfterFailedTest(cfg, s.pool, g, pc.i, pc.n);
    var s' := Leave(s, g, r);
    forall x: Goroutine ensures x != g ==> Held(s', Busy(x)) == Held(s, Busy(x)) {
      FailedTestPcs(cfg, s, g, x);
    }
    FailedTestPcs(cfg, s, g, g);
    if r.pc.Testing? {
      SeparateByOrigin(s, s', (x: Holder) => FrontTaken(g, x));
    } else {
      SeparateByOrigin(s, s', (x: Holder) => x);
    }
  }

  lemma KeepsFailedTest(cfg: Config, s: State, g: Goroutine)
    requires Inv(cfg, s) && PcOf(s, g).Testing?
    ensures var pc := PcOf(s, g); Inv(cfg, Leave(s, g, AfterFailedTest(cfg, s.pool, g, pc.i, pc.n)))
  {
    var pc := PcOf(s, g);
    var r := AfterFailedTest(cfg, s.pool, g, pc.i, pc.n);
    FailedTestNeverParks(cfg, s, g);
    LeaveCounts(cfg, s, g, r);
    QueuedAfter(cfg, s, g, r);
    FailedTestApart(cfg, s, g);
  }

  lemma HandlesUpdate(handles: map<Handle, Option<Conn>>, h: Handle, v: Option<Conn>)
    ensures |OpenHandles(handles[h := v])| ==
            |OpenHandles(handles)| - (if h in handles && handles[h].Some? then 1 else 0) + (if v.Some? then 1 else 0)
  {
    SizeBut(OpenHandles(handles), OpenHandles(handles[h := v]), h);
  }

  /** A goroutine that holds a tested or a new connection hands it to the application. */
  lemma KeepsHandOut(cfg: Config, s: State, g: Goroutine, h: Handle, c: Conn)
    requires Inv(cfg, s) && h !in s.handles
    requires (PcOf(s, g).Testing? && PcOf(s, g).c == c) || (PcOf(s, g).Dialing? && !InUse(s, c))
    ensures Inv(cfg, HandOut(s, g, h, c))
  {
    var s' := HandOut(s, g, h, c);
    HandlesUpdate(s.handles, h, Some(c));
    CountUpdate(s.pcs, g, Outside, Holding);
    CountUpdate(s.pcs, g, Outside, Woken);
    if PcOf(s, g).Testing? {
      SeparateByOrigin(s, s', (x: Holder) => if x == Open(h) then Busy(g) else x);
    } else {
      forall x | x != Open(h) ensures Held(s', x) == Held(s, x) {
      }
    }
  }

  lemma KeepsDialFailed(cfg: Config, s: State, g: Goroutine)
    requires Inv(cfg, s) && PcOf(s, g).Dialing?
    ensures var (q, woken) := Release(s.pool); Inv(cfg, Leave(s, g, Section(q, woken, Outside)))
  {
    var (q, woken) := Release(s.pool);
    var r := Section(q, woken, Outside);
    CountPositive(s.pcs, g, Holding);
    LeaveCounts(cfg, s, g, r);
    QueuedAfter(cfg, s, g, r);
    SeparateByOrigin(s, Leave(s, g, r), (x: Holder) => x);
  }

  lemma KeepsCloseHandle(cfg: Config, s: State, g: Goroutine, h: Handle)
    requires Inv(cfg, s) && Free(PcOf(s, g)) && h in s.handles && s.handles[h].Some?
    ensures Inv(cfg, s.(pcs := s.pcs[g := Returning(s.handles[h].value)], handles := s.handles[h := None]))
  {
    var s' := s.(pcs := s.pcs[g := Returning(s.handles[h].value)], handles := s.handles[h := None]);
    HandlesUpdate(s.handles, h, None);
    CountUpdate(s.pcs, g, Returning(s.handles[h].value), Holding);
    CountUpdate(s.pcs, g, Returning(s.handles[h].value), Woken);
    SeparateByOrigin(s, s', (x: Holder) => if x == Busy(g) then Open(h) else x);
  }

  lemma PutApart(cfg: Config, s: State, g: Goroutine, keep: bool, now: int)
    requires Separate(s) && Queued(cfg, s) && PcOf(s, g).Returning?
    ensures var (q, woken, _) := Put(cfg, s.pool, PcOf(s, g).c, keep, now);
            Separate(Leave(s, g, Section(q, woken, Outside)))
  {
    var (q, woken, _) := Put(cfg, s.pool, PcOf(s, g).c, keep, now);
    var s' := Leave(s, g, Section(q, woken, Outside));
    forall x: Goroutine | x in woken ensures PcOf(s, x).Parked? {
    }
    if s.pool.closed || !keep {
      SeparateByOrigin(s, s', (x: Holder) => x);
    } else {
      SeparateByOrigin(s, s', (x: Holder) =>
        match x case Idle(k) => if k == 0 then Busy(g) else Idle(k - 1) case _ => x);
    }
  }

  /** A connection comes back: kept, thrown out for another, or closed. */
  lemma KeepsPutBack(cfg: Config, s: State, g: Goroutine, keep: bool, now: int)
    requires Inv(cfg, s) && PcOf(s, g).Returning?
    ensures var (q, woken, _) := Put(cfg, s.pool, PcOf(s, g).c, keep, now);
            Inv(cfg, Leave(s, g, Section(q, woken, Outside)))
  {
    var (q, woken, _) := Put(cfg, s.pool, PcOf(s, g).c, keep, now);
    var r := Section(q, woken, Outside);
    CountPositive(s.pcs, g, Holding);
    LeaveCounts(cfg, s, g, r);
    QueuedAfter(cfg, s, g, r);
    PutApart(cfg, s, g, keep, now);
  }

  /** Closing the pool wakes everybody who waits. */
  lemma KeepsClosePool(cfg: Config, s: State)
    requires Inv(cfg, s)
    ensures var (q, woken) := Close(s.pool); Inv(cfg, State(q, Wake(s.pcs, woken), s.handles))
  {
    var (q, woken) := Close(s.pool);
    var s' := State(q, Wake(s.pcs, woken), s.handles);
    assert Where(s'.pcs, Holding) == Where(s.pcs, Holding);
    SeparateByOrigin(s, s', (x: Holder) => x);
  }

  lemma KeepsStep(cfg: Config, s: State, e: Event)
    requires Inv(cfg, s) && Enabled(s, e)
    ensures Inv(cfg, Next(cfg, s, e))
  {
    match e {
      case Get(g, now) =>
        KeepsPrune(cfg, s, g, 0, |s.pool.idle|, now);
      case Pruned(g, now) =>
        KeepsPrune(cfg, s, g, PcOf(s, g).i, PcOf(s, g).n, now);
      case Tested(g, passed, h) =>
        if passed { KeepsHandOut(cfg, s, g, h, PcOf(s, g).c); } else { KeepsFailedTest(cfg, s, g); }
      case Dialed(g, Some(c), h) => KeepsHandOut(cfg, s, g, h, c);
      case Dialed(g, None, _) => KeepsDialFailed(cfg, s, g);
      case Retry(g) => KeepsAcquire(cfg, s, g);
      case CloseHandle(g, h) =>
        if s.handles[h].Some? { KeepsCloseHandle(cfg, s, g, h); }
      case PutBack(g, keep, now) => KeepsPutBack(cfg, s, g, keep, now);
      case ClosePool => KeepsClosePool(cfg, s);
    }
  }

  lemma KeepsPrune(cfg: Config, s: State, g: Goroutine, i: nat, n: nat, now: int)
    requires Inv(cfg, s) && !PcOf(s, g).Parked? && !PcOf(s, g).Signalled? && !Holding(PcOf(s, g))
    ensures Inv(cfg, Leave(s, g, Prune(cfg, s.pool, g, i, n, now)))
  {
    if cfg.idleTimeout > 0 && i < n && Stale(cfg, s.pool, now) {
      KeepsPruned(cfg, s, g, i + 1, n);
    } else {
      KeepsAcquire(cfg, s, g);
    }
  }

  // ---- Every reachable state ----

  /** The invariant holds after any events in any order. */
  lemma {:induction false} ReachableInv(cfg: Config, es: seq<Event>, s: State)
    requires Reaches(cfg, es, s)
    ensures Inv(cfg, s)
  {
    if es == [] {
      assert Where(s.pcs, Holding) == {} && OpenHandles(s.handles) == {};
    } else {
      var last := |es| - 1;
      var before :| Reaches(cfg, es[..last], before) && Enabled(before, es[last]) && s == Next(cfg, before, es[last]);
      ReachableInv(cfg, es[..last], before);
      KeepsStep(cfg, before, es[last]);
    }
  }

  /** Conservation and limits, whatever the interleaving. */
  lemma Conservation(cfg: Config, es: seq<Event>, s: State)
    requires Reaches(cfg, es, s)
    ensures s.pool.active == |s.pool.idle| + Count(s.pcs, Holding) + |OpenHandles(s.handles)|
    ensures cfg.maxActive > 0 ==> s.pool.active <= cfg.maxActive
    ensures |s.pool.idle| <= cfg.maxIdle || s.pool.idle == []
    ensures forall x, y :: Held(s, x).Some? && Held(s, x) == Held(s, y) ==> x == y
  {
    ReachableInv(cfg, es, s);
  }

  /** While a getter sleeps and nobody it could lose against has been signalled, the pool is at its
      limit with every connection in somebody's hands: nothing is idle beside a sleeper. */
  lemma SleepersMissNothing(cfg: Config, es: seq<Event>, s: State, g: Goroutine)
    requires Reaches(cfg, es, s) && PcOf(s, g).Parked? && cfg.maxActive > 0
    ensures !s.pool.closed
    ensures |s.pool.idle| + cfg.maxActive - s.pool.active <= Count(s.pcs, Woken)
    ensures Where(s.pcs, Woken) == {} ==>
              && s.pool.idle == [] && s.pool.active == cfg.maxActive
              && (Where(s.pcs, Holding) != {} || OpenHandles(s.handles) != {})
  {
    ReachableInv(cfg, es, s);
    assert g in s.pool.waiters;
  }

  /** The events that give capacity back: a connection put back, failed its test, not dialled, or idle
      for too long. */
  predicate GivesBack(cfg: Config, s: State, e: Event) {
    match e
    case PutBack(_, _, _) => true
    case Tested(_, passed, _) => !passed
    case Dialed(_, conn, _) => conn.None?
    case Get(_, now) => cfg.idleTimeout > 0 && Stale(cfg, s.pool, now)
    case Pruned(g, now) =>
      cfg.idleTimeout > 0 && PcOf(s, g).Pruning? && PcOf(s, g).i < PcOf(s, g).n && Stale(cfg, s.pool, now)
    case _ => false
  }

  /** Every event that gives capacity back signals the getter that has slept longest. */
  lemma GivingBackWakesTheOldest(cfg: Config, es: seq<Event>, s: State, e: Event)
    requires Reaches(cfg, es, s) && Enabled(s, e) && GivesBack(cfg, s, e) && s.pool.waiters != []
    ensures PcOf(s, s.pool.waiters[0]).Parked? && PcOf(Next(cfg, s, e), s.pool.waiters[0]).Signalled?
    ensures |Next(cfg, s, e).pool.waiters| == |s.pool.waiters| - 1
  {
    ReachableInv(cfg, es, s);
    var w := s.pool.waiters[0];
    assert w in s.pool.waiters;
    if e.Tested? {
      FailedTestNeverParks(cfg, s, e.g);
    }
  }

  /** A closed pool has no sleepers and no idle connections, and drains: once nobody holds a
      connection any more, none is left. */
  lemma ClosedPoolDrains(cfg: Config, es: seq<Event>, s: State)
    requires Reaches(cfg, es, s) && s.pool.closed
    ensures s.pool.idle == [] && forall g :: !PcOf(s, g).Parked?
    ensures s.pool.active == 0 <==> (forall g :: !Holding(PcOf(s, g))) && OpenHandles(s.handles) == {}
  {
    ReachableInv(cfg, es, s);
    assert forall g :: g in Where(s.pcs, Holding) <==> Holding(PcOf(s, g));
    assert Count(s.pcs, Holding) == 0 <==> Where(s.pcs, Holding) == {};
  }

  /** A closed handle stays closed whatever happens, and closing it again changes nothing. */
  lemma ClosedHandlesStayClosed(cfg: Config, s: State, e: Event, h: Handle)
    requires Enabled(s, e) && h in s.handles && s.handles[h].None?
    ensures h in Next(cfg, s, e).handles && Next(cfg, s, e).handles[h].None?
    ensures e.CloseHandle? && e.handle == h ==> Next(cfg, s, e) == s
  {
  }
}
