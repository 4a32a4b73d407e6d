/** The order of the idle list of the pool, when the clock does not run backwards. */
module PoolClock {
  import opened Options
  import opened PoolSections
  import opened PoolRuns

  function TimeOf(e: Event): Option<int> {
    match e
    case Get(_, now) => Some(now)
    case Pruned(_, now) => Some(now)
    case PutBack(_, _, now) => Some(now)
    case _ => None
  }

  /** No event reads an earlier time than one before it. */
  ghost predicate Timed(es: seq<Event>) {
    forall i, j :: 0 <= i < j < |es| && TimeOf(es[i]).Some? && TimeOf(es[j]).Some?
        ==> TimeOf(es[i]).value <= TimeOf(es[j]).value
  }

  ghost predicate NotAfter(es: seq<Event>, clock: int) {
    forall i :: 0 <= i < |es| && TimeOf(es[i]).Some? ==> TimeOf(es[i]).value <= clock
  }

  /** Most recently used first, and none from the future. */
  ghost predicate Ordered(idle: seq<IdleConn>, clock: int) {
    && (forall i, j :: 0 <= i < j < |idle| ==> idle[i].since >= idle[j].since)
    && (forall i :: 0 <= i < |idle| ==> idle[i].since <= clock)
  }

  lemma SliceOrdered(idle: seq<IdleConn>, i: nat, j: nat, clock: int)
    requires i <= j <= |idle| && Ordered(idle, clock)
    ensures Ordered(idle[i..j], clock)
  {
  }

  lemma PushOrdered(idle: seq<IdleConn>, c: Conn, clock: int)
    requires Ordered(idle, clock)
    ensures Ordered([IdleConn(c, clock)] + idle, clock)
  {
  }

  lemma AcquireOrder(cfg: Config, p: PoolState, g: Goroutine, i: nat, n: nat, clock: int)
    requires Ordered(p.idle, clock)
    ensures Ordered(Acquire(cfg, p, g, i, n).pool.idle, clock)
  {
    if p.idle != [] {
      SliceOrdered(p.idle, 1, |p.idle|, clock);
    }
  }

  lemma PruneOrder(cfg: Config, p: PoolState, g: Goroutine, i: nat, n: nat, now: int, clock: int)
    requires Ordered(p.idle, clock)
    ensures Ordered(Prune(cfg, p, g, i, n, now).pool.idle, clock)
  {
    AcquireOrder(cfg, p, g, 0, |p.idle|, clock);
    if p.idle != [] {
      SliceOrdered(p.idle, 0, |p.idle| - 1, clock);
    }
  }

  lemma PutOrder(cfg: Config, p: PoolState, c: Conn, keep: bool, clock: int)
    requires Ordered(p.idle, clock)
    ensures Ordered(Put(cfg, p, c, keep, clock).0.idle, clock)
  {
    PushOrdered(p.idle, c, clock);
    SliceOrdered([IdleConn(c, clock)] + p.idle, 0, |p.idle|, clock);
  }

  lemma StepKeepsOrder(cfg: Config, s: State, e: Event, clock: int)
    requires Enabled(s, e) && Ordered(s.pool.idle, clock)
    requires e.PutBack? ==> e.now == clock
    ensures Ordered(Next(cfg, s, e).pool.idle, clock)
  {
    match e {
      case Get(g, now) => PruneOrder(cfg, s.pool, g, 0, |s.pool.idle|, now, clock);
      case Pruned(g, now) => PruneOrder(cfg, s.pool, g, PcOf(s, g).i, PcOf(s, g).n, now, clock);
      case Tested(g, passed, _) =>
        if !passed { AcquireOrder(cfg, Release(s.pool).0, g, PcOf(s, g).i + 1, PcOf(s, g).n, clock); }
      case Retry(g) => AcquireOrder(cfg, s.pool, g, 0, |s.pool.idle|, clock);
      case PutBack(g, keep, now) => PutOrder(cfg, s.pool, PcOf(s, g).c, keep, clock);
      case _ =>
    }
  }

  lemma {:induction false} IdleIsOrdered(cfg: Config, es: seq<Event>, s: State, clock: int)
    requires Reaches(cfg, es, s) && Timed(es) && NotAfter(es, clock)
    ensures Ordered(s.pool.idle, clock)
  {
    if es != [] {
      var last := |es| - 1;
      var before :| Reaches(cfg, es[..last], before) && Enabled(before, es[last]) && s == Next(cfg, before, es[last]);
      var t := if TimeOf(es[last]).Some? then TimeOf(es[last]).value else clock;
      IdleIsOrdered(cfg, es[..last], before, t);
      StepKeepsOrder(cfg, before, es[last], t);
    }
  }

  /** No connection has been idle longer than the last one. */
  ghost predicate LastIsOldest(idle: seq<IdleConn>) {
    forall j :: 0 <= j < |idle| ==> idle[|idle| - 1].since <= idle[j].since
  }

  lemma OrderedLast(idle: seq<IdleConn>, clock: int)
    requires Ordered(idle, clock)
    ensures LastIsOldest(idle)
  {
  }

  lemma LastOfPool(cfg: Config, es: seq<Event>, s: State, clock: int)
    requires Reaches(cfg, es, s) && Timed(es) && NotAfter(es, clock)
    ensures LastIsOldest(s.pool.idle)
    ensures forall c :: LastIsOldest([IdleConn(c, clock)] + s.pool.idle)
  {
    IdleIsOrdered(cfg, es, s, clock);
    OrderedLast(s.pool.idle, clock);
    forall c ensures LastIsOldest([IdleConn(c, clock)] + s.pool.idle) {
      PushOrdered(s.pool.idle, c, clock);
      OrderedLast([IdleConn(c, clock)] + s.pool.idle, clock);
    }
  }

  /** A getter is offered the connection that was used last. */
  lemma MostRecentFirst(cfg: Config, es: seq<Event>, s: State, clock: int, g: Goroutine)
    requires Reaches(cfg, es, s) && Timed(es) && NotAfter(es, clock) && s.pool.idle != []
    ensures var r := Acquire(cfg, s.pool, g, 0, |s.pool.idle|);
            exists k :: 0 <= k < |s.pool.idle| && r.pc == Testing(s.pool.idle[k].c, 0, |s.pool.idle|)
              && forall j :: 0 <= j < |s.pool.idle| ==> s.pool.idle[j].since <= s.pool.idle[k].since
  {
    IdleIsOrdered(cfg, es, s, clock);
    assert forall j :: 0 <= j < |s.pool.idle| ==> s.pool.idle[j].since <= s.pool.idle[0].since;
  }

  /** Pruning takes away a connection that has been idle too long, none longer; and when it stops
      before its bound, none is left. */
  lemma PruningIsThorough(cfg: Config, es: seq<Event>, s: State, g: Goroutine, i: nat, n: nat, now: int)
    requires Reaches(cfg, es, s) && Timed(es) && NotAfter(es, now) && cfg.idleTimeout > 0 && i < n
    ensures var r, idle := Prune(cfg, s.pool, g, i, n, now), s.pool.idle;
            if r.pc.Pruning? then
              && idle != [] && r.pool.idle == idle[..|idle| - 1] && LastIsOldest(idle)
              && idle[|idle| - 1].since + cfg.idleTimeout <= now
            else forall j :: 0 <= j < |idle| ==> idle[j].since + cfg.idleTimeout > now
  {
    LastOfPool(cfg, es, s, now);
  }

  /** When a returned connection does not fit, the one that has been idle longest makes room. */
  lemma OldestMakesRoom(cfg: Config, es: seq<Event>, s: State, g: Goroutine, now: int)
    requires Reaches(cfg, es, s) && Timed(es) && NotAfter(es, now) && PcOf(s, g).Returning? && !s.pool.closed
    ensures var (q, woken, out) := Put(cfg, s.pool, PcOf(s, g).c, true, now);
            var all := [IdleConn(PcOf(s, g).c, now)] + s.pool.idle;
            var last := |all| - 1;
            && LastIsOldest(all)
            && if |all| <= cfg.maxIdle
               then out == None && q.idle == all
               else q.idle == all[..last] && out == Some(all[last].c)
  {
    LastOfPool(cfg, es, s, now);
  }
}
