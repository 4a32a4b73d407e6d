/** The critical sections of the connection pool (garyburd/redigo/redis/pool.go), each as a function
    on the fields its mutex protects. */
module PoolSections {
  import opened Options

  type Conn = nat
  type Goroutine = nat

  /** The pool's exported settings. Any int is allowed, as in the source. */
  datatype Config = Config(maxIdle: int, maxActive: int, wait: bool, idleTimeout: int)

  datatype IdleConn = IdleConn(c: Conn, since: int)

  /** What the mutex protects. `waiters` is the notify list of the condition variable, oldest first. */
  datatype PoolState = PoolState(closed: bool, active: int, idle: seq<IdleConn>,
                                 hasCond: bool, waiters: seq<Goroutine>)

  datatype Error = ErrClosed | ErrPoolExhausted

  /** What a goroutine is doing while it does not hold the mutex. */
  datatype Pc =
    | Outside
    | Refused(err: Error)
    | Pruning(i: nat, n: nat)
    | Testing(c: Conn, i: nat, n: nat)
    | Dialing
    | Parked
    | Signalled
    | Returning(c: Conn)

  /** The result of a critical section of `get`: the fields, who was signalled, what comes next. */
  datatype Section = Section(pool: PoolState, woken: seq<Goroutine>, pc: Pc)

  // ---- The critical sections ----

  function Signal(p: PoolState): (PoolState, seq<Goroutine>) {
    if p.hasCond && p.waiters != [] then (p.(waiters := p.waiters[1..]), p.waiters[..1]) else (p, [])
  }

  function Release(p: PoolState): (PoolState, seq<Goroutine>) {
    Signal(p.(active := p.active - 1))
  }

  /** From the test of the inner loop on: an idle connection, an error, a dial or a wait. */
  function Acquire(cfg: Config, p: PoolState, g: Goroutine, i: nat, n: nat): Section {
    if i < n && p.idle != [] then
      Section(p.(idle := p.idle[1..]), [], Testing(p.idle[0].c, i, n))
    else if p.closed then Section(p, [], Refused(ErrClosed))
    else if cfg.maxActive == 0 || p.active < cfg.maxActive then
      Section(p.(active := p.active + 1), [], Dialing)
    else if !cfg.wait then Section(p, [], Refused(ErrPoolExhausted))
    else Section(p.(hasCond := true, waiters := p.waiters + [g]), [], Parked)
  }

  predicate Stale(cfg: Config, p: PoolState, now: int) {
    p.idle != [] && p.idle[|p.idle| - 1].since + cfg.idleTimeout <= now
  }

  /** From the test of the pruning loop on. */
  function Prune(cfg: Config, p: PoolState, g: Goroutine, i: nat, n: nat, now: int): Section {
    if cfg.idleTimeout > 0 && i < n && Stale(cfg, p, now) then
      var (q, woken) := Release(p.(idle := p.idle[..|p.idle| - 1]));
      Section(q, woken, Pruning(i + 1, n))
    else Acquire(cfg, p, g, 0, |p.idle|)
  }

  /** After the i-th idle connection has failed its test. */
  function AfterFailedTest(cfg: Config, p: PoolState, g: Goroutine, i: nat, n: nat): Section {
    var (q, woken) := Release(p);
    Acquire(cfg, q, g, i + 1, n).(woken := woken)
  }

  /** Takes `c` back, if it may be kept; also gives the connection the caller must close. */
  function Put(cfg: Config, p: PoolState, c: Conn, keep: bool, now: int): (PoolState, seq<Goroutine>, Option<Conn>) {
    if p.closed || !keep then
      var (q, woken) := Release(p);
      (q, woken, Some(c))
    else
      var idle := [IdleConn(c, now)] + p.idle;
      var last := |idle| - 1;
      if |idle| > cfg.maxIdle then
        var (q, woken) := Release(p.(idle := idle[..last]));
        (q, woken, Some(idle[last].c))
      else
        var (q, woken) := Signal(p.(idle := idle));
        (q, woken, None)
  }

  function Close(p: PoolState): (PoolState, seq<Goroutine>) {
    var q := p.(idle := [], closed := true, active := p.active - |p.idle|);
    if p.hasCond then (q.(waiters := []), p.waiters) else (q, [])
  }
}

/** The pool itself: its methods do what the sections say. */
module RedisPool {
  import opened Options
  import opened PoolSections
  import Spec = PoolSections

  /** The pool. Every method is one stretch of the source between taking and leaving the mutex. */
  class Pool {
    const cfg: Config
    var closed: bool
    var active: int
    var idle: seq<IdleConn>
    var hasCond: bool
    var waiters: seq<Goroutine>

    constructor (cfg: Config)
      ensures this.cfg == cfg && State() == PoolState(false, 0, [], false, [])
    {
      this.cfg := cfg;
      closed, active, idle, hasCond, waiters := false, 0, [], false, [];
    }

    function State(): PoolState
      reads this
    {
      PoolState(closed, active, idle, hasCond, waiters)
    }

    method Signal() returns (woken: seq<Goroutine>)
      modifies this`waiters
      ensures (State(), woken) == Spec.Signal(old(State()))
    {
      woken := [];
      if hasCond && waiters != [] {
        woken := waiters[..1];
        waiters := waiters[1..];
      }
    }

    method Release() returns (woken: seq<Goroutine>)
      modifies this`waiters, this`active
      ensures (State(), woken) == Spec.Release(old(State()))
    {
      active := active - 1;
      woken := Signal();
    }

    /** The body of the outer loop of `get`, entered at its inner loop with counters i and n. */
    method Acquire(g: Goroutine, i: nat, n: nat) returns (pc: Pc)
      modifies this
      ensures Section(State(), [], pc) == Spec.Acquire(cfg, old(State()), g, i, n)
    {
      if i < n && idle != [] {
        var ic := idle[0];
        idle := idle[1..];
        return Testing(ic.c, i, n);
      }
      if closed {
        return Refused(ErrClosed);
      }
      if cfg.maxActive == 0 || active < cfg.maxActive {
        active := active + 1;
        return Dialing;
      }
      if !cfg.wait {
        return Refused(ErrPoolExhausted);
      }
      hasCond := true;
      waiters := waiters + [g];
      return Parked;
    }

    /** One pass of the pruning loop and, when that loop is over, what follows it. */
    method Prune(g: Goroutine, i: nat, n: nat, now: int) returns (pc: Pc, woken: seq<Goroutine>)
      modifies this
      ensures Section(State(), woken, pc) == Spec.Prune(cfg, old(State()), g, i, n, now)
    {
      if cfg.idleTimeout > 0 {
        if i < n && idle != [] {
          var ic := idle[|idle| - 1];
          if !(ic.since + cfg.idleTimeout > now) {
            idle := idle[..|idle| - 1];
            woken := Release();
            return Pruning(i + 1, n), woken;
          }
        }
      }
      pc := Acquire(g, 0, |idle|);
      return pc, [];
    }

    /** Taking the mutex again after a failed test. */
    method AfterFailedTest(g: Goroutine, i: nat, n: nat) returns (pc: Pc, woken: seq<Goroutine>)
      modifies this
      ensures Section(State(), woken, pc) == Spec.AfterFailedTest(cfg, old(State()), g, i, n)
    {
      woken := Release();
      pc := Acquire(g, i + 1, n);
    }

    method Put(c0: Conn, keep: bool, now: int) returns (woken: seq<Goroutine>, close: Option<Conn>)
      modifies this
      ensures (State(), woken, close) == Spec.Put(cfg, old(State()), c0, keep, now)
    {
      var c := Some(c0);
      if !closed && keep {
        idle := [IdleConn(c0, now)] + idle;
        if |idle| > cfg.maxIdle {
          c := Some(idle[|idle| - 1].c);
          idle := idle[..|idle| - 1];
        } else {
          c := None;
        }
      }
      if c.None? {
        woken := Signal();
        return woken, None;
      }
      woken := Release();
      return woken, c;
    }

    /** Returns the connections the caller must close. */
    method Close() returns (woken: seq<Goroutine>, conns: seq<IdleConn>)
      modifies this
      ensures (State(), woken) == Spec.Close(old(State()))
      ensures conns == old(idle)
    {
      conns, idle := idle, [];
      closed := true;
      active := active - |conns|;
      woken := [];
      if hasCond {
        woken, waiters := waiters, [];
      }
    }
  }
}
