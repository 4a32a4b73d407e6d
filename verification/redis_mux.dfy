/** The connection multiplexer (garyburd/redigo/redisx/connmux.go): its critical sections, each as a
    function on the fields its mutexes protect, and the classes that carry them out. */
module MuxSections {
  import opened Options

  type Caller = nat

  /** The fields of ConnMux. `recvWait` says whose channel is registered for an id. */
  datatype Mux = Mux(sendID: nat, recvID: nat, recvWait: map<nat, Caller>)

  /** Under `sendMu`: the id of the command that is sent. */
  function TakeID(m: Mux): (Mux, nat) {
    (m.(sendID := m.sendID + 1), m.sendID)
  }

  /** Under `recvMu`: whether it is the turn of `id`; if not, its channel is registered. */
  function AwaitTurn(m: Mux, id: nat, me: Caller): (Mux, bool) {
    if m.recvID != id then (m.(recvWait := m.recvWait[id := me]), false) else (m, true)
  }

  /** Under `recvMu`, after the reply: the next id, and the caller to wake if it is registered. */
  function PassTurn(m: Mux, id: nat): (Mux, Option<Caller>) {
    var m' := m.(recvID := id + 1, recvWait := m.recvWait - {id + 1});
    (m', if id + 1 in m.recvWait then Some(m.recvWait[id + 1]) else None)
  }
}

module RedisMux {
  import opened Options
  import opened MuxSections

  class ConnMux {
    var sendID: nat
    var recvID: nat
    var recvWait: map<nat, Caller>

    constructor ()
      ensures State() == Mux(0, 0, map[])
    {
      sendID, recvID, recvWait := 0, 0, map[];
    }

    function State(): Mux
      reads this
    {
      Mux(sendID, recvID, recvWait)
    }

    method AwaitTurn(id: nat, me: Caller) returns (mine: bool)
      modifies this`recvWait
      ensures (State(), mine) == MuxSections.AwaitTurn(old(State()), id, me)
    {
      mine := recvID == id;
      if !mine {
        recvWait := recvWait[id := me];
      }
    }

    method PassTurn(id0: nat) returns (wake: Option<Caller>)
      modifies this`recvID, this`recvWait
      ensures (State(), wake) == MuxSections.PassTurn(old(State()), id0)
    {
      var id := id0 + 1;
      recvID := id;
      wake := None;
      assert id !in recvWait ==> recvWait - {id} == recvWait;
      if id in recvWait {
        wake := Some(recvWait[id]);
        recvWait := recvWait - {id};
      }
    }
  }

  /** One multiplexed connection: the ids of its commands whose replies are outstanding. */
  class MuxConn {
    const p: ConnMux
    var ids: seq<nat>

    constructor (p: ConnMux)
      ensures this.p == p && ids == []
    {
      this.p := p;
      ids := [];
    }

    /** The part of `send` between taking and leaving `sendMu`. */
    method Send()
      modifies this`ids, p`sendID
      ensures ids == old(ids) + [old(p.sendID)]
      ensures p.State() == TakeID(old(p.State())).0
    {
      var id := p.sendID;
      ids := ids + [id];
      p.sendID := p.sendID + 1;
    }

    /** The start of `Receive`: the oldest outstanding id, or None for "mux pool underflow". */
    method Pop() returns (id: Option<nat>)
      modifies this`ids
      ensures old(ids) == [] ==> id == None && ids == []
      ensures old(ids) != [] ==> id == Some(old(ids)[0]) && ids == old(ids)[1..]
    {
      if |ids| == 0 {
        return None;
      }
      id := Some(ids[0]);
      ids := ids[1..];
    }
  }
}
