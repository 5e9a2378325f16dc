/** Choosing a backend whose breaker admits the request, and the accounting around the call. */
module Failover {
  import opened Words
  import opened Backends
  import opened BreakerSpec
  import opened CircuitBreakers

  type View = map<string, World>

  /** A host that has no breaker yet gets a new one when asked. */
  function WorldOf(v: View, host: string): World {
    if host in v then v[host] else NEW_WORLD
  }

  predicate Refuses(cfg: Config, v: View, host: string, now: Time) {
    !AllowReply(cfg, WorldOf(v, host).b, now).Granted?
  }

  function Asked(cfg: Config, v: View, host: string, now: Time): View {
    v[host := Step(cfg, WorldOf(v, host), Allow(now))]
  }

  /** Only an existing breaker refuses, and a refusal leaves every breaker as it was. */
  lemma RefusalChangesNothing(cfg: Config, v: View, host: string, now: Time)
    requires Refuses(cfg, v, host, now)
    ensures host in v && Asked(cfg, v, host, now) == v
  {
    assert Step(cfg, v[host], Allow(now)) == v[host] by {
      assert v[host].log + [] == v[host].log;
    }
  }

  /** An admission adds one callback to its own breaker and touches no other. */
  lemma AdmissionIsLocal(cfg: Config, v: View, host: string, now: Time)
    requires !Refuses(cfg, v, host, now)
    ensures var u := Asked(cfg, v, host, now);
            && u[host].outstanding == WorldOf(v, host).outstanding + multiset{now}
            && u.Keys == v.Keys + {host}
            && forall h :: h in v && h != host ==> u[h] == v[h]
  {
  }

  /** Number `i` of the fallback loop is skipped or refuses. */
  predicate PassedOver(cfg: Config, v: View, pick: Backend, alt: Backend, now: Time) {
    alt.host == pick.host || Refuses(cfg, v, alt.host, now)
  }

  /** Nothing can be selected: the pick refuses, and so does each alternative when it is asked. */
  ghost predicate Exhausted(cfg: Config, v: View, pick: Backend?, alts: seq<Backend>, clock: seq<Time>)
    requires |clock| == |alts| + 1
  {
    pick == null ||
    (Refuses(cfg, v, pick.host, clock[0]) &&
     forall i :: 0 <= i < |alts| ==> PassedOver(cfg, v, pick, alts[i], clock[i + 1]))
  }

  /** `be` is the first that admits, in the order of asking. */
  ghost predicate FirstToAdmit(cfg: Config, v: View, pick: Backend, alts: seq<Backend>, clock: seq<Time>, be: Backend, at: Time)
    requires |clock| == |alts| + 1
  {
    if !Refuses(cfg, v, pick.host, clock[0]) then be == pick && at == clock[0]
    else exists i :: 0 <= i < |alts| && be == alts[i] && at == clock[i + 1] &&
                     !PassedOver(cfg, v, pick, alts[i], clock[i + 1]) &&
                     forall j :: 0 <= j < i ==> PassedOver(cfg, v, pick, alts[j], clock[j + 1])
  }

  /** The outcome in terms of the breakers' answers: the pick if its breaker grants; otherwise a backend
      of another host, and none later in the list than the first one granted. */
  lemma AskedInOrder(cfg: Config, v: View, pick: Backend, alts: seq<Backend>, clock: seq<Time>, be: Backend?, at: Time)
    requires |clock| == |alts| + 1
    requires if be == null then Exhausted(cfg, v, pick, alts, clock) else FirstToAdmit(cfg, v, pick, alts, clock, be, at)
    ensures be != null ==> AllowReply(cfg, WorldOf(v, be.host).b, at) == Granted
    ensures if AllowReply(cfg, WorldOf(v, pick.host).b, clock[0]) == Granted then be == pick && at == clock[0]
            else
              && (be != null ==> be.host != pick.host)
              && forall i :: 0 <= i < |alts| && alts[i].host != pick.host &&
                             AllowReply(cfg, WorldOf(v, alts[i].host).b, clock[i + 1]) == Granted ==>
                               exists j :: 0 <= j <= i && be == alts[j] && at == clock[j + 1]
  {
    hide AllowReply, WorldOf;
    forall i | 0 <= i < |alts| && alts[i].host != pick.host &&
               AllowReply(cfg, WorldOf(v, alts[i].host).b, clock[i + 1]) == Granted
      ensures Refuses(cfg, v, pick.host, clock[0]) ==>
                exists j :: 0 <= j <= i && be == alts[j] && at == clock[j + 1]
    {
      assert !PassedOver(cfg, v, pick, alts[i], clock[i + 1]);
    }
  }

  /** When pick and alternatives come from one list and one instant, nothing is selected exactly
      when there is no healthy backend or every healthy host refuses. */
  lemma SelectionIsComplete(cfg: Config, v: View, pick: Backend?, healthy: seq<Backend>, clock: seq<Time>, now: Time)
    requires |clock| == |healthy| + 1 && forall i :: 0 <= i < |clock| ==> clock[i] == now
    requires if healthy == [] then pick == null else pick in healthy
    ensures Exhausted(cfg, v, pick, healthy, clock) <==>
            forall i :: 0 <= i < |healthy| ==> Refuses(cfg, v, healthy[i].host, now)
  {
    if pick != null {
      var k :| 0 <= k < |healthy| && healthy[k] == pick;
      if Exhausted(cfg, v, pick, healthy, clock) {
        forall i | 0 <= i < |healthy|
          ensures Refuses(cfg, v, healthy[i].host, now)
        {
          assert PassedOver(cfg, v, pick, healthy[i], clock[i + 1]);
        }
      }
    }
  }

  method AskBreaker(m: Manager, host: string, now: Time) returns (reply: Reply)
    requires m.Valid() && ZERO_TIME < now && host in m.breakers
    modifies m.breakers.Values
    ensures m.Valid() && m.View() == Asked(Normalised(m.settings), old(m.View()), host, now)
    ensures (reply == Granted) == !Refuses(Normalised(m.settings), old(m.View()), host, now)
  {
    hide CircuitBreaker.Valid, Normalised, Step, AllowReply;
    var cb := m.breakers[host];
    reply := cb.Allow(now);
    assert forall n :: n in m.breakers && n != host ==> m.breakers[n].name == n && m.breakers[n] != cb;
    ghost var v := Asked(Normalised(m.settings), old(m.View()), host, now);
    assert m.View() == v by {
      assert m.View().Keys == v.Keys;
      forall n | n in v
        ensures m.View()[n] == v[n]
      {
        if n != host {
          assert m.breakers[n].world == old(m.breakers[n].world);
        }
      }
    }
  }

  method Ask(m: Manager, host: string, now: Time) returns (reply: Reply)
    requires m.Valid() && ZERO_TIME < now
    modifies m`breakers, m.breakers.Values
    ensures m.Valid()
    ensures forall n :: n in m.breakers ==>
                          if n in old(m.breakers) then m.breakers[n] == old(m.breakers)[n] else fresh(m.breakers[n])
    ensures m.View() == Asked(Normalised(m.settings), old(m.View()), host, now)
    ensures (reply == Granted) == !Refuses(Normalised(m.settings), old(m.View()), host, now)
    ensures host in old(m.breakers) ==> m.breakers == old(m.breakers)
  {
    hide CircuitBreaker.Valid, Normalised, Step, AllowReply;
    var cb := m.GetBreaker(host);
    assert m.View() == old(m.View())[host := WorldOf(old(m.View()), host)];
    reply := AskBreaker(m, host, now);
  }

  /** `selectBackend` after the strategy has picked; `alts` is the second snapshot of the healthy
      backends and `clock[i]` the time at which candidate `i` is asked. */
  method SelectBackend(m: Manager, pick: Backend?, alts: seq<Backend>, clock: seq<Time>)
    returns (be: Backend?, at: Time)
    requires m.Valid() && |clock| == |alts| + 1
    requires forall i :: 0 <= i < |clock| ==> ZERO_TIME < clock[i]
    modifies m`breakers, m.breakers.Values
    ensures m.Valid()
    ensures forall n :: n in m.breakers ==>
                          if n in old(m.breakers) then m.breakers[n] == old(m.breakers)[n] else fresh(m.breakers[n])
    ensures var cfg, v := Normalised(m.settings), old(m.View());
            && (be == null <==> Exhausted(cfg, v, pick, alts, clock))
            && (be == null ==> m.View() == v && m.breakers == old(m.breakers))
            && (be != null ==>
                  && FirstToAdmit(cfg, v, pick, alts, clock, be, at)
                  && !Refuses(cfg, v, be.host, at)
                  && m.View() == Asked(cfg, v, be.host, at))
    ensures be != null ==> (be == pick || be in alts) && at in clock
  {
    hide Refuses, Asked, Normalised, CircuitBreaker.Valid;
    ghost var cfg, v := Normalised(m.settings), m.View();
    be, at := null, ZERO_TIME;
    if pick == null {
      return;
    }
    var reply := Ask(m, pick.host, clock[0]);
    if reply == Granted {
      return pick, clock[0];
    }
    RefusalChangesNothing(cfg, v, pick.host, clock[0]);
    for i := 0 to |alts|
      invariant m.Valid() && m.View() == v && m.breakers == old(m.breakers)
      invariant forall j :: 0 <= j < i ==> PassedOver(cfg, v, pick, alts[j], clock[j + 1])
    {
      if alts[i].host != pick.host {
        reply := Ask(m, alts[i].host, clock[i + 1]);
        if reply == Granted {
          return alts[i], clock[i + 1];
        }
        RefusalChangesNothing(cfg, v, alts[i].host, clock[i + 1]);
      }
    }
  }

  /** What the call to the backend came to. */
  datatype Call = TransportError | Response(status: int)

  function Reported(cfg: Config, v: View, host: string, at: Time, admitted: Time, ok: bool): View
    requires host in v
  {
    v[host := Step(cfg, v[host], Report(at, admitted, ok))]
  }

  /** The callback of an admission, invoked through the manager's breaker. */
  method Done(m: Manager, host: string, admitted: Time, ok: bool, now: Time)
    requires m.Valid() && host in m.breakers && ZERO_TIME < now
    requires admitted in m.breakers[host].world.outstanding
    modifies m.breakers.Values
    ensures m.Valid() && m.View() == Reported(Normalised(m.settings), old(m.View()), host, now, admitted, ok)
  {
    hide CircuitBreaker.Valid, Normalised, Step;
    var cb := m.breakers[host];
    cb.OnResult(ok, admitted, now);
    assert forall n :: n in m.breakers && n != host ==> m.breakers[n].name == n && m.breakers[n] != cb;
    ghost var v := Reported(Normalised(m.settings), old(m.View()), host, now, admitted, ok);
    assert m.View() == v by {
      assert m.View().Keys == v.Keys;
      forall n | n in v
        ensures m.View()[n] == v[n]
      {
        if n != host {
          assert m.breakers[n].world == old(m.breakers[n].world);
        }
      }
    }
  }

  /** The accounting around a call to the selected backend: count, call, report, uncount. */
  method Serve(m: Manager, be: Backend, admitted: Time, call: Call, end: Time) returns (status: int)
    requires m.Valid() && be.host in m.breakers && ZERO_TIME < end
    requires admitted in m.breakers[be.host].world.outstanding
    modifies m.breakers.Values, be
    ensures m.Valid() && status == if call.TransportError? then 502 else call.status
    ensures var ok := call.Response? && call.status < 500;
            var v := old(m.View());
            m.View() == v[be.host := Step(Normalised(m.settings), v[be.host], Report(end, admitted, ok))]
    ensures be.connections == old(be.connections)
    ensures be.totalRequests == old(be.totalRequests) + 1
    ensures be.failedRequests ==
            old(be.failedRequests) + if call.TransportError? || 500 <= call.status then 1 else 0
    ensures be.consecutiveFailures ==
            if call.TransportError? || 500 <= call.status then old(be.consecutiveFailures) + 1 else 0
  {
    hide Step, Normalised, CircuitBreaker.Valid, Manager.Valid, Manager.View;
    be.IncrementConn();
    var ok := call.Response? && call.status < 500;
    Done(m, be.host, admitted, ok, end);
    if ok {
      be.RecordSuccess();
    } else {
      be.RecordFailure();
    }
    status := if call.TransportError? then 502 else call.status;
    be.DecrementConn();
  }

  lemma Seen(m: Manager, host: string)
    requires host in m.View()
    ensures host in m.breakers && m.View()[host] == m.breakers[host].world
  {
  }

  /** `Handler` on the fast path. `call` is what the backend will do and `end` the time at which it
      has done it. */
  method Handler(m: Manager, pick: Backend?, alts: seq<Backend>, clock: seq<Time>, call: Call, end: Time)
    returns (status: int, be: Backend?, admitted: Time)
    requires m.Valid() && |clock| == |alts| + 1 && ZERO_TIME < end
    requires forall i :: 0 <= i < |clock| ==> ZERO_TIME < clock[i]
    modifies m`breakers, m.breakers.Values, {pick}, alts
    ensures m.Valid()
    ensures be == null <==> Exhausted(Normalised(m.settings), old(m.View()), pick, alts, clock)
    ensures be == null ==> status == 503 && m.View() == old(m.View())
    ensures be != null ==>
              var cfg, v := Normalised(m.settings), old(m.View());
              && status == (if call.TransportError? then 502 else call.status)
              && FirstToAdmit(cfg, v, pick, alts, clock, be, admitted)
              && var ok := call.Response? && call.status < 500;
                 var w := Step(cfg, WorldOf(v, be.host), Allow(admitted));
                 m.View() == v[be.host := Step(cfg, w, Report(end, admitted, ok))]
    ensures forall b: Backend :: b == pick || b in alts ==>
              && b.connections == old(b.connections)
              && b.totalRequests == old(b.totalRequests) + (if b == be then 1 else 0)
              && b.failedRequests == old(b.failedRequests) +
                 (if b == be && (call.TransportError? || 500 <= call.status) then 1 else 0)
  {
    hide Exhausted, FirstToAdmit, Refuses, WorldOf, Step, Normalised, CircuitBreaker.Valid, Manager.Valid, Manager.View;
    be, admitted := SelectBackend(m, pick, alts, clock);
    if be == null {
      return 503, null, admitted;
    }
    AdmissionIsLocal(Normalised(m.settings), old(m.View()), be.host, admitted);
    Seen(m, be.host);
    status := Serve(m, be, admitted, call, end);
  }
}
