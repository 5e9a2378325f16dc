/** Backends, their counters, and the pool that lists them. */
module Backends {

  class Backend {
    const url: string
    const host: string
    const weight: int
    var alive: bool
    var connections: int
    var totalRequests: int
    var failedRequests: int
    var consecutiveFailures: int

    /** `NewBackend`; parsing the URL is left to the caller. */
    constructor (url: string, host: string, weight: int)
      ensures this.url == url && this.host == host
      ensures 1 <= this.weight && (1 <= weight ==> this.weight == weight)
      ensures alive && connections == totalRequests == failedRequests == consecutiveFailures == 0
    {
      this.url, this.host := url, host;
      this.weight := if weight <= 0 then 1 else weight;
      alive := true;
      connections, totalRequests, failedRequests, consecutiveFailures := 0, 0, 0, 0;
    }

    method SetAlive(v: bool)
      modifies `alive, `consecutiveFailures
      ensures alive == v
      ensures consecutiveFailures == if v then 0 else old(consecutiveFailures)
    {
      alive := v;
      if v {
        consecutiveFailures := 0;
      }
    }

    method IncrementConn()
      modifies `connections, `totalRequests
      ensures connections == old(connections) + 1 && totalRequests == old(totalRequests) + 1
    {
      connections := connections + 1;
      totalRequests := totalRequests + 1;
    }

    method DecrementConn()
      modifies `connections
      ensures connections == old(connections) - 1
    {
      connections := connections - 1;
    }

    method RecordFailure()
      modifies `failedRequests, `consecutiveFailures
      ensures failedRequests == old(failedRequests) + 1
      ensures consecutiveFailures == old(consecutiveFailures) + 1
    {
      failedRequests := failedRequests + 1;
      consecutiveFailures := consecutiveFailures + 1;
    }

    method RecordSuccess()
      modifies `consecutiveFailures
      ensures consecutiveFailures == 0
    {
      consecutiveFailures := 0;
    }
  }

  /** The members of `live`, in the order of `all`. */
  function Keep(all: seq<Backend>, live: set<Backend>): (kept: seq<Backend>)
    ensures forall b :: b in kept ==> b in all && b in live
    ensures forall b :: b in all && b in live ==> b in kept
  {
    if all == [] then []
    else
      var last := all[|all| - 1];
      var front := Keep(all[..|all| - 1], live);
      if last in live then front + [last] else front
  }

  lemma KeepAppend(all: seq<Backend>, last: Backend, live: set<Backend>)
    ensures Keep(all + [last], live) == if last in live then Keep(all, live) + [last] else Keep(all, live)
  {
  }

  /** Keeping in two steps keeps what is in both sets. */
  lemma {:induction false} KeepKeep(all: seq<Backend>, live: set<Backend>, fewer: set<Backend>)
    requires fewer <= live
    ensures Keep(Keep(all, live), fewer) == Keep(all, fewer)
  {
    if all != [] {
      KeepKeep(all[..|all| - 1], live, fewer);
      KeepAppend(Keep(all[..|all| - 1], live), all[|all| - 1], fewer);
    }
  }

  ghost function Live(all: seq<Backend>): set<Backend>
    reads all
  {
    set b | b in all && b.alive
  }

  class Pool {
    var backends: seq<Backend>

    constructor ()
      ensures backends == []
    {
      backends := [];
    }

    method AddBackend(b: Backend)
      modifies this
      ensures backends == old(backends) + [b]
    {
      backends := backends + [b];
    }

    /** The live backends in pool order. */
    method HealthyBackends() returns (res: seq<Backend>)
      ensures res == Keep(backends, Live(backends))
      ensures forall b :: b in res <==> b in backends && b.alive
    {
      res := [];
      for i := 0 to |backends|
        invariant res == Keep(backends[..i], Live(backends))
      {
        assert backends[..i + 1] == backends[..i] + [backends[i]];
        KeepAppend(backends[..i], backends[i], Live(backends));
        if backends[i].alive {
          res := res + [backends[i]];
        }
      }
      assert backends[..|backends|] == backends;
    }
  }
}
