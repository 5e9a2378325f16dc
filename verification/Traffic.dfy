/**
 All requests of the process at once. Each atomic operation of a request is one step, and the steps
 of different requests, health probes and admin calls interleave freely. The two request paths do
 the steps in different orders (the fasthttp path reports before it releases, the net/http path
 after), so the model leaves the order of reporting, marking and connection counting open.
 */
module Traffic {
  import opened Words
  import opened BreakerSpec
  import opened BreakerInvariant
  import opened BreakerRuns
  import opened Failover

  /** `IncrementConn` is two atomic additions, `DecrementConn` a third. */
  datatype Conn = Uncounted | Connected | Counted | Released

  /** A request that some breaker admitted. */
  datatype Request = Request(
    backend: nat,
    admitted: Time,
    conn: Conn,
    held: bool,          // the callback has not been invoked
    mark: Option<bool>)  // RecordSuccess or RecordFailure

  datatype Stats = Stats(connections: int, totalRequests: int, failedRequests: int, failedProbes: nat)

  datatype System = System(
    hosts: seq<string>, // of each backend; backends may share a host
    stats: seq<Stats>,
    breakers: View,
    requests: seq<Request>)

  function Start(hosts: seq<string>): System {
    System(hosts, seq(|hosts|, _ => Stats(0, 0, 0, 0)), map[], [])
  }

  datatype Action =
    | Admit(i: nat, now: Time)           // Allow on the breaker of backend i
    | Connect(k: nat)                    // connections + 1
    | Count(k: nat)                      // totalRequests + 1
    | Release(k: nat)                    // connections - 1
    | Report(k: nat, at: Time, ok: bool) // the callback
    | Mark(k: nat, ok: bool)             // RecordSuccess, RecordFailure
    | ProbeFailed(i: nat)
    | Admin(host: string, ev: Event)     // State, TripManually, ResetManually

  ghost predicate Can(s: System, a: Action) {
    match a
    case Admit(i, now) => i < |s.hosts| && ZERO_TIME < now
    case Connect(k) => k < |s.requests| && s.requests[k].conn == Uncounted
    case Count(k) => k < |s.requests| && s.requests[k].conn == Connected
    case Release(k) => k < |s.requests| && s.requests[k].conn == Counted
    case Report(k, at, _) => k < |s.requests| && s.requests[k].held && ZERO_TIME < at
    case Mark(k, _) => k < |s.requests| && s.requests[k].mark.None?
    case ProbeFailed(i) => i < |s.hosts|
    case Admin(_, ev) => !ev.Allow? && !ev.Report? && ZERO_TIME < ev.When()
  }

  ghost predicate WellFormed(s: System) {
    && |s.stats| == |s.hosts|
    && forall k :: 0 <= k < |s.requests| ==> s.requests[k].backend < |s.hosts|
  }

  function Bump(s: System, k: nat, r: Request, connections: int, total: int, failed: int): System
    requires k < |s.requests| && r.backend < |s.stats|
  {
    var t := s.stats[r.backend];
    s.(requests := s.requests[k := r],
    stats := s.stats[r.backend :=
    t.(connections := t.connections + connections,
    totalRequests := t.totalRequests + total,
    failedRequests := t.failedRequests + failed)])
  }

  ghost function Apply(cfg: Config, s: System, a: Action): System
    requires WellFormed(s) && Can(s, a)
  {
    match a
    case Admit(i, now) =>
      var grant := !Refuses(cfg, s.breakers, s.hosts[i], now);
      s.(breakers := Asked(cfg, s.breakers, s.hosts[i], now),
      requests := if grant then s.requests + [Request(i, now, Uncounted, true, None)] else s.requests)
    case Connect(k) => Bump(s, k, s.requests[k].(conn := Connected), 1, 0, 0)
    case Count(k) => Bump(s, k, s.requests[k].(conn := Counted), 0, 1, 0)
    case Release(k) => Bump(s, k, s.requests[k].(conn := Released), -1, 0, 0)
    case Report(k, at, ok) =>
      var r := s.requests[k];
      var h := s.hosts[r.backend];
      s.(breakers := s.breakers[h := Step(cfg, WorldOf(s.breakers, h), Event.Report(at, r.admitted, ok))],
      requests := s.requests[k := r.(held := false)])
    case Mark(k, ok) => Bump(s, k, s.requests[k].(mark := Some(ok)), 0, 0, if ok then 0 else 1)
    case ProbeFailed(i) =>
      var t := s.stats[i];
      s.(stats := s.stats[i := t.(failedRequests := t.failedRequests + 1, failedProbes := t.failedProbes + 1)])
    case Admin(h, ev) =>
      s.(breakers := s.breakers[h := Step(cfg, WorldOf(s.breakers, h), ev)])
  }

  // ----- what the counters and callbacks should be -----

  datatype Kind = InFlight | Begun | Ended | Failed

  predicate Is(r: Request, kind: Kind) {
    match kind
    case InFlight => r.conn == Connected || r.conn == Counted
    case Begun => r.conn == Counted || r.conn == Released
    case Ended => r.conn == Released
    case Failed => r.mark == Some(false)
  }

  function Tell(r: Request, i: nat, kind: Kind): nat {
    if r.backend == i && Is(r, kind) then 1 else 0
  }

  /** How many requests at backend `i` are of a kind. */
  function HowMany(rs: seq<Request>, i: nat, kind: Kind): nat {
    if rs == [] then 0 else HowMany(rs[..|rs| - 1], i, kind) + Tell(rs[|rs| - 1], i, kind)
  }

  function HeldOne(hosts: seq<string>, r: Request, h: string): multiset<Time>
    requires r.backend < |hosts|
  {
    if hosts[r.backend] == h && r.held then multiset{r.admitted} else multiset{}
  }

  /** The admission times of the callbacks that requests at host `h` still hold. */
  function Held(hosts: seq<string>, rs: seq<Request>, h: string): multiset<Time>
    requires forall k :: 0 <= k < |rs| ==> rs[k].backend < |hosts|
  {
    if rs == [] then multiset{} else Held(hosts, rs[..|rs| - 1], h) + HeldOne(hosts, rs[|rs| - 1], h)
  }

  ghost predicate StatsOk(s: System, i: nat)
    requires i < |s.stats|
  {
    var t := s.stats[i];
    && t.connections == HowMany(s.requests, i, InFlight)
    && t.totalRequests == HowMany(s.requests, i, Begun)
    && t.failedRequests == HowMany(s.requests, i, Failed) + t.failedProbes
  }

  ghost predicate BreakerOk(cfg: Config, s: System, h: string)
    requires WellFormed(s)
  {
    && WorldOf(s.breakers, h).outstanding == Held(s.hosts, s.requests, h)
    && Inv(cfg, WorldOf(s.breakers, h))
  }

  ghost predicate SystemInv(cfg: Config, s: System) {
    && WellFormed(s)
    && (forall i :: 0 <= i < |s.stats| ==> StatsOk(s, i))
    && forall h :: BreakerOk(cfg, s, h)
  }

  lemma {:induction false} HowManyUpdate(rs: seq<Request>, k: nat, r: Request, i: nat, kind: Kind)
    requires k < |rs|
    ensures HowMany(rs[k := r], i, kind) == HowMany(rs, i, kind) - Tell(rs[k], i, kind) + Tell(r, i, kind)
  {
    var last := |rs| - 1;
    if k == last {
      assert rs[k := r][..last] == rs[..last];
    } else {
      assert rs[k := r][..last] == rs[..last][k := r];
      HowManyUpdate(rs[..last], k, r, i, kind);
    }
  }

  lemma Shuffle(all: multiset<Time>, out: multiset<Time>, into: multiset<Time>, rest: multiset<Time>)
    requires out <= all
    ensures all - out + into + rest == all + rest - out + into
  {
  }

  lemma {:induction false} HeldUpdate(hosts: seq<string>, rs: seq<Request>, k: nat, r: Request, h: string)
    requires k < |rs| && r.backend < |hosts|
    requires forall j :: 0 <= j < |rs| ==> rs[j].backend < |hosts|
    ensures HeldOne(hosts, rs[k], h) <= Held(hosts, rs, h)
    ensures Held(hosts, rs[k := r], h) == Held(hosts, rs, h) - HeldOne(hosts, rs[k], h) + HeldOne(hosts, r, h)
  {
    hide HeldOne;
    var last := |rs| - 1;
    var front := rs[..last];
    if k == last {
      assert rs[k := r][..last] == front;
    } else {
      assert rs[k := r][..last] == front[k := r];
      HeldUpdate(hosts, front, k, r, h);
      Shuffle(Held(hosts, front, h), HeldOne(hosts, rs[k], h), HeldOne(hosts, r, h), HeldOne(hosts, rs[last], h));
    }
  }

  lemma HeldAppend(hosts: seq<string>, rs: seq<Request>, r: Request, h: string)
    requires r.backend < |hosts|
    requires forall j :: 0 <= j < |rs| ==> rs[j].backend < |hosts|
    ensures Held(hosts, rs + [r], h) == Held(hosts, rs, h) + HeldOne(hosts, r, h)
  {
  }

  // ----- each step keeps the invariant -----

  /** A request that changes without its callback being invoked. */
  lemma BumpKeeps(cfg: Config, s: System, k: nat, r: Request, connections: int, total: int, failed: int)
    requires SystemInv(cfg, s) && k < |s.requests|
    requires r.backend == s.requests[k].backend && r.admitted == s.requests[k].admitted && r.held == s.requests[k].held
    requires connections == Tell(r, r.backend, InFlight) - Tell(s.requests[k], r.backend, InFlight)
    requires total == Tell(r, r.backend, Begun) - Tell(s.requests[k], r.backend, Begun)
    requires failed == Tell(r, r.backend, Failed) - Tell(s.requests[k], r.backend, Failed)
    ensures SystemInv(cfg, Bump(s, k, r, connections, total, failed))
  {
    hide Inv;
    var u := Bump(s, k, r, connections, total, failed);
    forall i | 0 <= i < |u.stats|
      ensures StatsOk(u, i)
    {
      assert StatsOk(s, i);
      HowManyUpdate(s.requests, k, r, i, InFlight);
      HowManyUpdate(s.requests, k, r, i, Begun);
      HowManyUpdate(s.requests, k, r, i, Failed);
    }
    forall h
      ensures BreakerOk(cfg, u, h)
    {
      assert BreakerOk(cfg, s, h);
      HeldUpdate(s.hosts, s.requests, k, r, h);
    }
  }

  /** Whether the breakers of a successor state are in order depends on the changed host only. */
  lemma BreakersKeep(cfg: Config, s: System, u: System, host: string)
    requires WellFormed(s) && WellFormed(u)
    requires forall h :: BreakerOk(cfg, s, h)
    requires BreakerOk(cfg, u, host)
    requires forall h :: h != host ==> WorldOf(u.breakers, h) == WorldOf(s.breakers, h)
    requires forall h :: h != host ==> Held(u.hosts, u.requests, h) == Held(s.hosts, s.requests, h)
    ensures forall h :: BreakerOk(cfg, u, h)
  {
    hide Inv, Held, WorldOf;
    forall h
      ensures BreakerOk(cfg, u, h)
    {
      assert BreakerOk(cfg, s, h);
    }
  }

  lemma AdmitKeeps(cfg: Config, s: System, i: nat, now: Time)
    requires cfg.Valid() && SystemInv(cfg, s) && Can(s, Admit(i, now))
    ensures SystemInv(cfg, Apply(cfg, s, Admit(i, now)))
  {
    hide Inv, Step, Refuses, Held, HowMany, Tell, AllowReply;
    var u := Apply(cfg, s, Admit(i, now));
    var host := s.hosts[i];
    var r := Request(i, now, Uncounted, true, None);
    assert BreakerOk(cfg, s, host);
    InvStep(cfg, WorldOf(s.breakers, host), Allow(now));
    if Refuses(cfg, s.breakers, host, now) {
      RefusalChangesNothing(cfg, s.breakers, host, now);
      assert u == s;
    } else {
      AdmissionIsLocal(cfg, s.breakers, host, now);
      forall h {
        HeldAppend(s.hosts, s.requests, r, h);
      }
      assert BreakerOk(cfg, u, host);
      BreakersKeep(cfg, s, u, host);
      forall j | 0 <= j < |u.stats|
        ensures StatsOk(u, j)
      {
        assert StatsOk(s, j);
        UncountedAppend(s.requests, r, j);
      }
    }
  }

  lemma UncountedAppend(rs: seq<Request>, r: Request, i: nat)
    requires r.conn == Uncounted && r.mark == None
    ensures forall kind :: HowMany(rs + [r], i, kind) == HowMany(rs, i, kind)
  {
  }

  lemma ReportReturnsCallback(cfg: Config, w: World, ev: Event)
    requires ev.Report?
    ensures Step(cfg, w, ev).outstanding == w.outstanding - multiset{ev.admitted}
  {
  }

  /** A request whose callback is invoked. */
  lemma ReportedWorld(cfg: Config, s: System, k: nat, at: Time, ok: bool)
    requires cfg.Valid() && SystemInv(cfg, s) && Can(s, Action.Report(k, at, ok))
    ensures var u := Apply(cfg, s, Action.Report(k, at, ok));
            WellFormed(u) && BreakerOk(cfg, u, s.hosts[s.requests[k].backend])
  {
    hide Inv, Step, Held;
    var r := s.requests[k];
    var host := s.hosts[r.backend];
    var w := WorldOf(s.breakers, host);
    var ev := Event.Report(at, r.admitted, ok);
    assert BreakerOk(cfg, s, host);
    HeldUpdate(s.hosts, s.requests, k, r.(held := false), host);
    assert r.admitted in w.outstanding;
    InvStep(cfg, w, ev);
    ReportReturnsCallback(cfg, w, ev);
  }

  lemma ReportKeeps(cfg: Config, s: System, k: nat, at: Time, ok: bool)
    requires cfg.Valid() && SystemInv(cfg, s) && Can(s, Action.Report(k, at, ok))
    ensures SystemInv(cfg, Apply(cfg, s, Action.Report(k, at, ok)))
  {
    hide Inv, Step, Held, HowMany;
    var u := Apply(cfg, s, Action.Report(k, at, ok));
    var r := s.requests[k];
    ReportedWorld(cfg, s, k, at, ok);
    forall h {
      HeldUpdate(s.hosts, s.requests, k, r.(held := false), h);
    }
    BreakersKeep(cfg, s, u, s.hosts[r.backend]);
    forall i | 0 <= i < |u.stats|
      ensures StatsOk(u, i)
    {
      assert StatsOk(s, i);
      HowManyUpdate(s.requests, k, r.(held := false), i, InFlight);
      HowManyUpdate(s.requests, k, r.(held := false), i, Begun);
      HowManyUpdate(s.requests, k, r.(held := false), i, Failed);
    }
  }

  lemma AdminKeepsCallbacks(cfg: Config, w: World, ev: Event)
    requires !ev.Allow? && !ev.Report?
    ensures Step(cfg, w, ev).outstanding == w.outstanding
  {
  }

  lemma OtherKeeps(cfg: Config, s: System, a: Action)
    requires cfg.Valid() && SystemInv(cfg, s) && Can(s, a) && (a.ProbeFailed? || a.Admin?)
    ensures SystemInv(cfg, Apply(cfg, s, a))
  {
    hide Inv, Step, Held, HowMany;
    var u := Apply(cfg, s, a);
    if a.Admin? {
      assert BreakerOk(cfg, s, a.host);
      InvStep(cfg, WorldOf(s.breakers, a.host), a.ev);
      AdminKeepsCallbacks(cfg, WorldOf(s.breakers, a.host), a.ev);
    }
    forall i | 0 <= i < |u.stats|
      ensures StatsOk(u, i)
    {
      assert StatsOk(s, i);
    }
    forall h
      ensures BreakerOk(cfg, u, h)
    {
      assert BreakerOk(cfg, s, h);
    }
  }

  lemma SystemInvStep(cfg: Config, s: System, a: Action)
    requires cfg.Valid() && SystemInv(cfg, s) && Can(s, a)
    ensures SystemInv(cfg, Apply(cfg, s, a))
  {
    hide SystemInv;
    assert WellFormed(s) by {
      SystemIsWellFormed(cfg, s);
    }
    match a
    case Admit(i, now) => AdmitKeeps(cfg, s, i, now);
    case Connect(k) => BumpKeeps(cfg, s, k, s.requests[k].(conn := Connected), 1, 0, 0);
    case Count(k) => BumpKeeps(cfg, s, k, s.requests[k].(conn := Counted), 0, 1, 0);
    case Release(k) => BumpKeeps(cfg, s, k, s.requests[k].(conn := Released), -1, 0, 0);
    case Report(k, at, ok) => ReportKeeps(cfg, s, k, at, ok);
    case Mark(k, ok) => BumpKeeps(cfg, s, k, s.requests[k].(mark := Some(ok)), 0, 0, if ok then 0 else 1);
    case ProbeFailed(_) => OtherKeeps(cfg, s, a);
    case Admin(_, _) => OtherKeeps(cfg, s, a);
  }

  lemma SystemIsWellFormed(cfg: Config, s: System)
    requires SystemInv(cfg, s)
    ensures WellFormed(s)
  {
  }

  // ----- runs -----

  /** The states that a sequence of actions leads through. */
  ghost predicate IsPath(cfg: Config, run: seq<System>, acts: seq<Action>) {
    && |run| == |acts| + 1
    && forall j :: 0 <= j < |acts| ==>
                     WellFormed(run[j]) && Can(run[j], acts[j]) && run[j + 1] == Apply(cfg, run[j], acts[j])
  }

  ghost predicate IsRun(cfg: Config, run: seq<System>, acts: seq<Action>) {
    IsPath(cfg, run, acts) && run[0] == Start(run[0].hosts)
  }

  lemma StartInv(cfg: Config, hosts: seq<string>)
    ensures SystemInv(cfg, Start(hosts))
  {
  }

  /** In every interleaving the counters are those of the requests, and each breaker's outstanding
      callbacks are the ones its host's requests hold. */
  lemma {:induction false} SystemSafety(cfg: Config, run: seq<System>, acts: seq<Action>, j: nat)
    requires cfg.Valid() && IsRun(cfg, run, acts) && j < |run|
    ensures SystemInv(cfg, run[j])
  {
    hide Apply, SystemInv, Can;
    if j == 0 {
      StartInv(cfg, run[0].hosts);
    } else {
      SystemSafety(cfg, run, acts, j - 1);
      assert run[j - 1 + 1] == Apply(cfg, run[j - 1], acts[j - 1]);
      SystemInvStep(cfg, run[j - 1], acts[j - 1]);
    }
  }

  // ----- consequences -----

  predicate Finished(r: Request) {
    r.conn == Released && !r.held && r.mark.Some?
  }

  lemma {:induction false} NothingLeft(hosts: seq<string>, rs: seq<Request>, i: nat, h: string)
    requires forall k :: 0 <= k < |rs| ==> rs[k].backend < |hosts| && Finished(rs[k])
    ensures HowMany(rs, i, InFlight) == 0 && HowMany(rs, i, Begun) == HowMany(rs, i, Ended)
    ensures Held(hosts, rs, h) == multiset{}
  {
    if rs != [] {
      NothingLeft(hosts, rs[..|rs| - 1], i, h);
    }
  }

  /** When every request has finished, no connection is counted, every counted request has ended, and
      every half-open breaker admits the next request. */
  lemma QuietSystem(cfg: Config, run: seq<System>, acts: seq<Action>, j: nat, i: nat, now: Time)
    requires cfg.Valid() && IsRun(cfg, run, acts) && j < |run| && i < |run[j].hosts|
    requires forall k :: 0 <= k < |run[j].requests| ==> Finished(run[j].requests[k])
    requires |run[j].stats| == |run[j].hosts|
    ensures run[j].stats[i].connections == 0
    ensures run[j].stats[i].totalRequests == HowMany(run[j].requests, i, Ended)
    ensures var w := WorldOf(run[j].breakers, run[j].hosts[i]);
            w.outstanding == multiset{} && (w.b.state == HalfOpen ==> AllowReply(cfg, w.b, now) == Granted)
  {
    var s := run[j];
    SystemSafety(cfg, run, acts, j);
    assert StatsOk(s, i) && BreakerOk(cfg, s, s.hosts[i]);
    NothingLeft(s.hosts, s.requests, i, s.hosts[i]);
    var w := WorldOf(s.breakers, s.hosts[i]);
    if w.b.state == HalfOpen {
      IdleHalfOpenAdmits(cfg, w, now);
    }
  }

  lemma {:induction false} InFlightOrEnded(rs: seq<Request>, i: nat)
    ensures HowMany(rs, i, Begun) <= HowMany(rs, i, InFlight) + HowMany(rs, i, Ended)
    ensures (forall k :: 0 <= k < |rs| ==> rs[k].conn != Connected) ==>
              HowMany(rs, i, Begun) == HowMany(rs, i, InFlight) + HowMany(rs, i, Ended)
  {
    if rs != [] {
      InFlightOrEnded(rs[..|rs| - 1], i);
    }
  }

  /** At every moment of every run: connections are never negative, which the least-connections
      sentinel relies on; every counted request is in flight or has ended, exactly so while none is
      between its two atomic additions; failures are failed requests and failed probes. */
  lemma CountersConserve(cfg: Config, run: seq<System>, acts: seq<Action>, j: nat, i: nat)
    requires cfg.Valid() && IsRun(cfg, run, acts) && j < |run|
    requires i < |run[j].stats|
    ensures var s, t := run[j], run[j].stats[i];
            && 0 <= t.connections
            && t.totalRequests <= t.connections + HowMany(s.requests, i, Ended)
            && ((forall k :: 0 <= k < |s.requests| ==> s.requests[k].conn != Connected) ==>
                  t.totalRequests == t.connections + HowMany(s.requests, i, Ended))
            && t.failedRequests == HowMany(s.requests, i, Failed) + t.failedProbes
  {
    SystemSafety(cfg, run, acts, j);
    assert StatsOk(run[j], i);
    InFlightOrEnded(run[j].requests, i);
  }

  // ----- each breaker on its own -----

  /** What an action means to the breaker of host `h`. */
  ghost function EventsFor(s: System, a: Action, h: string): seq<Event>
    requires WellFormed(s) && Can(s, a)
  {
    match a
    case Admit(i, now) => if s.hosts[i] == h then [Event.Allow(now)] else []
    case Report(k, at, ok) =>
      if s.hosts[s.requests[k].backend] == h then [Event.Report(at, s.requests[k].admitted, ok)] else []
    case Admin(host, ev) => if host == h then [ev] else []
    case _ => []
  }

  /** The calls that the first `j` actions of a run make on the breaker of `h`. */
  ghost function EventsOf(cfg: Config, run: seq<System>, acts: seq<Action>, h: string, j: nat): seq<Event>
    requires IsPath(cfg, run, acts) && j <= |acts|
  {
    if j == 0 then [] else EventsOf(cfg, run, acts, h, j - 1) + EventsFor(run[j - 1], acts[j - 1], h)
  }

  lemma {:induction false} ExecAppend(cfg: Config, w: World, evs: seq<Event>, ev: Event)
    ensures Exec(cfg, w, evs + [ev]) == Step(cfg, Exec(cfg, w, evs), ev)
    ensures Runnable(cfg, w, evs + [ev]) <==> Runnable(cfg, w, evs) && Enabled(Exec(cfg, w, evs), ev)
    decreases evs
  {
    hide Step, Enabled;
    if evs == [] {
      assert [] + [ev] == [ev] && [ev][1..] == [];
    } else {
      assert (evs + [ev])[1..] == evs[1..] + [ev];
      ExecAppend(cfg, Step(cfg, w, evs[0]), evs[1..], ev);
    }
  }

  /** One action moves the breaker of `h` by the call it makes on it, if any. */
  lemma OneCall(cfg: Config, s: System, a: Action, h: string)
    requires cfg.Valid() && SystemInv(cfg, s) && Can(s, a)
    ensures var w := WorldOf(s.breakers, h);
            var evs := EventsFor(s, a, h);
            && |evs| <= 1
            && WorldOf(Apply(cfg, s, a).breakers, h) == (if evs == [] then w else Step(cfg, w, evs[0]))
            && (evs != [] ==> Enabled(w, evs[0]))
  {
    hide Step, Inv, Held, HowMany, AllowReply;
    assert BreakerOk(cfg, s, h);
    if a.Report? {
      HeldUpdate(s.hosts, s.requests, a.k, s.requests[a.k], h);
    }
  }

  /** The admin calls can be made at any moment, also before the host has a breaker, and do nothing but
      their step. */
  lemma AdminCall(cfg: Config, s: System, h: string, ev: Event)
    requires WellFormed(s) && (ev.Query? || ev.Manual()) && ZERO_TIME < ev.now
    ensures Can(s, Admin(h, ev))
    ensures Apply(cfg, s, Admin(h, ev)) == s.(breakers := s.breakers[h := Step(cfg, WorldOf(s.breakers, h), ev)])
  {
  }

  /** A probe can fail at any moment. */
  lemma ProbeStep(cfg: Config, s: System, i: nat)
    requires WellFormed(s) && i < |s.hosts|
    ensures Can(s, ProbeFailed(i))
    ensures var u := Apply(cfg, s, ProbeFailed(i));
            && u.breakers == s.breakers && u.requests == s.requests
            && |u.stats| == |s.stats|
            && u.stats[i].failedRequests == s.stats[i].failedRequests + 1
            && u.stats[i].connections == s.stats[i].connections
            && u.stats[i].totalRequests == s.stats[i].totalRequests
            && forall j :: 0 <= j < |s.stats| && j != i ==> u.stats[j] == s.stats[j]
  {
  }

  /** Inside the whole process each host's breaker goes through a run of its own, made of exactly the
      calls addressed to it: every theorem about runs of one breaker holds of it in every interleaving. */
  lemma {:induction false} EachBreakerIsARun(cfg: Config, run: seq<System>, acts: seq<Action>, h: string, j: nat)
    requires cfg.Valid() && IsRun(cfg, run, acts) && j < |run|
    ensures var evs := EventsOf(cfg, run, acts, h, j);
            Runnable(cfg, NEW_WORLD, evs) && WorldOf(run[j].breakers, h) == Exec(cfg, NEW_WORLD, evs)
  {
    hide Apply, SystemInv, Can, EventsFor, Step, Enabled;
    if j == 0 {
      NoBreakersYet(run[0].hosts, h);
    } else {
      var before := EventsOf(cfg, run, acts, h, j - 1);
      EachBreakerIsARun(cfg, run, acts, h, j - 1);
      SystemSafety(cfg, run, acts, j - 1);
      assert run[j - 1 + 1] == Apply(cfg, run[j - 1], acts[j - 1]);
      OneCall(cfg, run[j - 1], acts[j - 1], h);
      var evs := EventsFor(run[j - 1], acts[j - 1], h);
      if evs == [] {
        assert before + evs == before;
      } else {
        assert evs == [evs[0]];
        ExecAppend(cfg, NEW_WORLD, before, evs[0]);
      }
    }
  }

  lemma NoBreakersYet(hosts: seq<string>, h: string)
    ensures WorldOf(Start(hosts).breakers, h) == NEW_WORLD
  {
  }

  /** How many probes of backend `i` have failed. */
  function Probes(acts: seq<Action>, i: nat): nat {
    if acts == [] then 0 else Probes(acts[..|acts| - 1], i) + if acts[|acts| - 1] == ProbeFailed(i) then 1 else 0
  }

  /** Every failed probe is counted once, as a failure of its backend. */
  lemma {:induction false} ProbesAreCounted(cfg: Config, run: seq<System>, acts: seq<Action>, j: nat, i: nat)
    requires cfg.Valid() && IsRun(cfg, run, acts) && j < |run| && i < |run[j].stats|
    ensures run[j].stats[i].failedProbes == Probes(acts[..j], i)
    ensures run[j].stats[i].failedRequests == HowMany(run[j].requests, i, Failed) + Probes(acts[..j], i)
  {
    hide SystemInv, HowMany, Step, Asked, Refuses, WorldOf;
    CountersConserve(cfg, run, acts, j, i);
    if j > 0 {
      SystemSafety(cfg, run, acts, j - 1);
      assert run[j - 1 + 1] == Apply(cfg, run[j - 1], acts[j - 1]);
      assert acts[..j][..j - 1] == acts[..j - 1];
      ProbesAreCounted(cfg, run, acts, j - 1, i);
    }
  }

  // ----- the two request paths -----

  /** The system `s` with one request more, in whatever state it is, and its effect on the counters. */
  ghost function With(s: System, r: Request, v: View, connections: int, total: int, failed: int): System
    requires r.backend < |s.stats|
  {
    var t := s.stats[r.backend];
    System(
      s.hosts,
      s.stats[r.backend := t.(connections := t.connections + connections,
      totalRequests := t.totalRequests + total,
      failedRequests := t.failedRequests + failed)],
      v,
      s.requests + [r])
  }

  /** What an action on a request's connection or mark makes of the request. */
  function Moved(r: Request, a: Action): Request {
    match a
    case Connect(_) => r.(conn := Connected)
    case Count(_) => r.(conn := Counted)
    case Release(_) => r.(conn := Released)
    case Mark(_, ok) => r.(mark := Some(ok))
    case _ => r
  }

  lemma MovesLast(cfg: Config, s: System, r: Request, v: View, c: int, t: int, f: int, a: Action)
    requires WellFormed(s) && r.backend < |s.stats|
    requires a == Connect(|s.requests|) || a == Count(|s.requests|) || a == Release(|s.requests|) ||
             (a.Mark? && a.k == |s.requests|)
    requires Can(With(s, r, v, c, t, f), a)
    ensures var u := With(s, r, v, c, t, f);
            && WellFormed(u)
            && Apply(cfg, u, a) ==
               With(s, Moved(r, a), v,
                    c + (if a.Connect? then 1 else if a.Release? then -1 else 0),
                    t + (if a.Count? then 1 else 0),
                    f + (if a.Mark? && !a.ok then 1 else 0))
  {
    assert (s.requests + [r])[|s.requests| := Moved(r, a)] == s.requests + [Moved(r, a)];
  }

  lemma AdmitsLast(cfg: Config, s: System, i: nat, now: Time)
    requires WellFormed(s) && Can(s, Admit(i, now)) && !Refuses(cfg, s.breakers, s.hosts[i], now)
    ensures Apply(cfg, s, Admit(i, now)) ==
            With(s, Request(i, now, Uncounted, true, None), Asked(cfg, s.breakers, s.hosts[i], now), 0, 0, 0)
    ensures s.hosts[i] in Asked(cfg, s.breakers, s.hosts[i], now)
  {
    hide Refuses, Step;
    assert s.stats[i := s.stats[i]] == s.stats;
  }

  lemma ReportsLast(cfg: Config, s: System, r: Request, v: View, c: int, t: int, f: int, at: Time, ok: bool)
    requires WellFormed(s) && r.backend < |s.stats| && r.held && ZERO_TIME < at && s.hosts[r.backend] in v
    ensures var a := Action.Report(|s.requests|, at, ok);
            var u := With(s, r, v, c, t, f);
            && WellFormed(u) && Can(u, a)
            && Apply(cfg, u, a) ==
               With(s, r.(held := false), Reported(cfg, v, s.hosts[r.backend], at, r.admitted, ok), c, t, f)
  {
    hide Step;
    assert (s.requests + [r])[|s.requests| := r.(held := false)] == s.requests + [r.(held := false)];
  }

  /** What one request that is served leaves behind. */
  ghost function Afterwards(cfg: Config, s: System, i: nat, now: Time, end: Time, ok: bool): System
    requires WellFormed(s) && i < |s.hosts|
  {
    With(s, Request(i, now, Released, false, Some(ok)),
         Reported(cfg, Asked(cfg, s.breakers, s.hosts[i], now), s.hosts[i], end, now, ok), 0, 1, if ok then 0 else 1)
  }

  /** It is the accounting of `Failover.Handler`, clause by clause: the breakers after the admission
      and the report, and the counters of every backend. */
  lemma HandlerAccounting(cfg: Config, s: System, i: nat, now: Time, end: Time, ok: bool)
    requires WellFormed(s) && i < |s.hosts|
    ensures var u := Afterwards(cfg, s, i, now, end, ok);
            && u.breakers == Reported(cfg, Asked(cfg, s.breakers, s.hosts[i], now), s.hosts[i], end, now, ok)
            && |u.stats| == |s.stats|
            && forall j :: 0 <= j < |s.stats| ==>
                 && u.stats[j].connections == s.stats[j].connections
                 && u.stats[j].totalRequests == s.stats[j].totalRequests + (if j == i then 1 else 0)
                 && u.stats[j].failedRequests == s.stats[j].failedRequests + (if j == i && !ok then 1 else 0)
  {
    hide Asked, Reported;
  }

  /** The fasthttp path: report, mark, release. */
  lemma FastPath(cfg: Config, s: System, i: nat, now: Time, end: Time, ok: bool) returns (run: seq<System>)
    requires WellFormed(s) && i < |s.hosts| && ZERO_TIME < now && ZERO_TIME < end
    requires !Refuses(cfg, s.breakers, s.hosts[i], now)
    ensures var k := |s.requests|;
            var acts := [Admit(i, now), Connect(k), Count(k), Action.Report(k, end, ok), Mark(k, ok), Release(k)];
            IsPath(cfg, run, acts) && run[0] == s && run[6] == Afterwards(cfg, s, i, now, end, ok)
  {
    hide Refuses, Asked, Reported, WorldOf, Apply;
    AdmitsLast(cfg, s, i, now);
    var k, v := |s.requests|, Asked(cfg, s.breakers, s.hosts[i], now);
    var u := Reported(cfg, v, s.hosts[i], end, now, ok);
    var failed := if ok then 0 else 1;
    var r0 := Request(i, now, Uncounted, true, None);
    var r1, r2 := r0.(conn := Connected), r0.(conn := Counted);
    var r3 := r2.(held := false);
    var r4 := r3.(mark := Some(ok));
    MovesLast(cfg, s, r0, v, 0, 0, 0, Connect(k));
    MovesLast(cfg, s, r1, v, 1, 0, 0, Count(k));
    ReportsLast(cfg, s, r2, v, 1, 1, 0, end, ok);
    MovesLast(cfg, s, r3, u, 1, 1, 0, Mark(k, ok));
    MovesLast(cfg, s, r4, u, 1, 1, failed, Release(k));
    hide With;
    run := [s, With(s, r0, v, 0, 0, 0), With(s, r1, v, 1, 0, 0), With(s, r2, v, 1, 1, 0), With(s, r3, u, 1, 1, 0),
            With(s, r4, u, 1, 1, failed), With(s, r4.(conn := Released), u, 0, 1, failed)];
  }

  /** The net/http path: release, mark, report. It ends where the other does. */
  lemma NetPath(cfg: Config, s: System, i: nat, now: Time, end: Time, ok: bool) returns (run: seq<System>)
    requires WellFormed(s) && i < |s.hosts| && ZERO_TIME < now && ZERO_TIME < end
    requires !Refuses(cfg, s.breakers, s.hosts[i], now)
    ensures var k := |s.requests|;
            var acts := [Admit(i, now), Connect(k), Count(k), Release(k), Mark(k, ok), Action.Report(k, end, ok)];
            IsPath(cfg, run, acts) && run[0] == s && run[6] == Afterwards(cfg, s, i, now, end, ok)
  {
    hide Refuses, Asked, Reported, WorldOf, Apply;
    AdmitsLast(cfg, s, i, now);
    var k, v := |s.requests|, Asked(cfg, s.breakers, s.hosts[i], now);
    var u := Reported(cfg, v, s.hosts[i], end, now, ok);
    var failed := if ok then 0 else 1;
    var r0 := Request(i, now, Uncounted, true, None);
    var r1, r2, r3 := r0.(conn := Connected), r0.(conn := Counted), r0.(conn := Released);
    var r4 := r3.(mark := Some(ok));
    MovesLast(cfg, s, r0, v, 0, 0, 0, Connect(k));
    MovesLast(cfg, s, r1, v, 1, 0, 0, Count(k));
    MovesLast(cfg, s, r2, v, 1, 1, 0, Release(k));
    MovesLast(cfg, s, r3, v, 0, 1, 0, Mark(k, ok));
    ReportsLast(cfg, s, r4, v, 0, 1, failed, end, ok);
    hide With;
    run := [s, With(s, r0, v, 0, 0, 0), With(s, r1, v, 1, 0, 0), With(s, r2, v, 1, 1, 0), With(s, r3, v, 0, 1, 0),
            With(s, r4, v, 0, 1, failed), With(s, r4.(held := false), u, 0, 1, failed)];
  }
}
