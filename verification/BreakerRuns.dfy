/** Facts about whole runs of a breaker. */
module BreakerRuns {
  import opened Words
  import opened BreakerSpec
  import opened BreakerInvariant

  // ----- what Allow answers -----

  /** The answer at the end of any run: a closed breaker always admits, an open one refuses up to its
      expiry, and after that, as when half-open, the admissions in the window decide. */
  lemma AnswersExactly(cfg: Config, evs: seq<Event>, now: Time)
    requires cfg.Valid() && Runnable(cfg, NEW_WORLD, evs)
    ensures var w := Exec(cfg, NEW_WORLD, evs);
            var onTrial := w.b.state == HalfOpen || (w.b.state == Open && w.b.expiry < now);
            var full := cfg.maxRequests <= Wrap32(Occurs(w.log, Admission));
            && (w.b.state == Closed ==> AllowReply(cfg, w.b, now) == Granted)
            && (AllowReply(cfg, w.b, now) == CircuitOpen <==> w.b.state == Open && now <= w.b.expiry)
            && (AllowReply(cfg, w.b, now) == TooManyRequests <==> onTrial && full)
  {
    hide Exec, Runnable, Wrap32, Occurs, Tally, TrailingRun, Outcomes;
    Reachable(cfg, evs);
    TallyIsSummary(Exec(cfg, NEW_WORLD, evs).log);
  }

  /** How many times a run asks for admission. */
  function Requests(evs: seq<Event>): nat {
    if evs == [] then 0 else (if evs[0].Allow? then 1 else 0) + Requests(evs[1..])
  }

  /** A run that asks only while the breaker is closed has every request admitted. */
  lemma {:induction false} ClosedAdmitsAll(cfg: Config, w: World, evs: seq<Event>)
    requires forall k :: 0 <= k < |evs| && evs[k].Allow? ==> Before(cfg, w, evs, k).b.state == Closed
    ensures Admissions(cfg, w, evs) == Requests(evs)
    decreases evs
  {
    hide Step;
    if evs != [] {
      assert Before(cfg, w, evs, 0) == w;
      forall k | 0 <= k < |evs[1..]| && evs[1..][k].Allow?
        ensures Before(cfg, Step(cfg, w, evs[0]), evs[1..], k).b.state == Closed
      {
        BeforeTail(cfg, w, evs, k + 1);
        assert evs[k + 1].Allow?;
      }
      ClosedAdmitsAll(cfg, Step(cfg, w, evs[0]), evs[1..]);
    }
  }

  // ----- when a closed breaker leaves Closed -----

  /** A closed breaker opens on a manual trip and on a failure for which the policy holds, the window
      read off the log, and leaves Closed on nothing else. */
  lemma ClosedExactly(cfg: Config, w: World, ev: Event)
    requires w.b.state == Closed && w.b.counts == Tally(w.log)
    ensures var trips := ev.Trip? || (ev.Report? && !ev.ok && cfg.readyToTrip(Summary(w.log + [Failure])));
            Step(cfg, w, ev).b.state == if trips then Open else Closed
  {
    hide Summary, Tally, Inc32;
    TallyAppend(w.log, Failure);
    TallyIsSummary(w.log + [Failure]);
  }

  // ----- when an open breaker leaves Open -----

  lemma {:induction false} BeforeNext(cfg: Config, w: World, evs: seq<Event>, k: nat)
    requires k < |evs|
    ensures Before(cfg, w, evs, k + 1) == Step(cfg, Before(cfg, w, evs, k), evs[k])
    decreases k
  {
    hide Step;
    BeforeTail(cfg, w, evs, k + 1);
    if k > 0 {
      BeforeTail(cfg, w, evs, k);
      BeforeNext(cfg, Step(cfg, w, evs[0]), evs[1..], k - 1);
    }
  }

  /** Anything but a reset and, for an open breaker, a `State` call later than the expiry. */
  predicate Harmless(b: Breaker, ev: Event) {
    !ev.Reset? && (ev.Query? && b.state == Open ==> ev.now <= b.expiry)
  }

  ghost predicate AllHarmless(cfg: Config, w: World, evs: seq<Event>) {
    forall k :: 0 <= k < |evs| ==> Harmless(Before(cfg, w, evs, k).b, evs[k])
  }

  lemma AllHarmlessTail(cfg: Config, w: World, evs: seq<Event>)
    requires evs != [] && AllHarmless(cfg, w, evs)
    ensures Harmless(w.b, evs[0]) && AllHarmless(cfg, Step(cfg, w, evs[0]), evs[1..])
  {
    hide Step, Harmless;
    assert Before(cfg, w, evs, 0) == w;
    forall k | 0 <= k < |evs[1..]|
      ensures Harmless(Before(cfg, Step(cfg, w, evs[0]), evs[1..], k).b, evs[1..][k])
    {
      BeforeTail(cfg, w, evs, k + 1);
      assert evs[1..][k] == evs[k + 1];
    }
  }

  lemma OpenMove(cfg: Config, w: World, ev: Event)
    requires w.b.state == Open
    ensures Step(cfg, w, ev).b.state == Open <==> Harmless(w.b, ev)
  {
  }

  lemma {:induction false} HarmlessKeepsOpen(cfg: Config, w: World, evs: seq<Event>, k: nat)
    requires w.b.state == Open && AllHarmless(cfg, w, evs) && k <= |evs|
    ensures Before(cfg, w, evs, k).b.state == Open
    decreases k
  {
    hide Step, Harmless;
    if k > 0 {
      HarmlessKeepsOpen(cfg, w, evs, k - 1);
      BeforeNext(cfg, w, evs, k - 1);
      OpenMove(cfg, Before(cfg, w, evs, k - 1), evs[k - 1]);
    }
  }

  /** A breaker stays open throughout a run if and only if the run has no reset and makes every
      `State` call no later than the expiry then in force. */
  lemma OpenExactly(cfg: Config, w: World, evs: seq<Event>)
    requires w.b.state == Open
    ensures (forall k :: 0 <= k <= |evs| ==> Before(cfg, w, evs, k).b.state == Open) <==>
            (forall k :: 0 <= k < |evs| ==>
                           && !evs[k].Reset?
                           && (evs[k].Query? ==> evs[k].now <= Before(cfg, w, evs, k).b.expiry))
  {
    hide Step, Exec;
    if forall k :: 0 <= k <= |evs| ==> Before(cfg, w, evs, k).b.state == Open {
      forall k | 0 <= k < |evs|
        ensures !evs[k].Reset? && (evs[k].Query? ==> evs[k].now <= Before(cfg, w, evs, k).b.expiry)
      {
        BeforeNext(cfg, w, evs, k);
        OpenMove(cfg, Before(cfg, w, evs, k), evs[k]);
        assert Before(cfg, w, evs, k + 1).b.state == Open;
      }
    }
    if AllHarmless(cfg, w, evs) {
      forall k | 0 <= k <= |evs|
        ensures Before(cfg, w, evs, k).b.state == Open
      {
        HarmlessKeepsOpen(cfg, w, evs, k);
      }
    }
  }

  // ----- how long an open breaker holds -----

  /** Every callback is invoked within `d` of its admission. */
  ghost predicate Prompt(evs: seq<Event>, d: Time) {
    forall k :: 0 <= k < |evs| && evs[k].Report? ==> evs[k].at <= evs[k].admitted + d
  }

  ghost predicate NoReset(evs: seq<Event>) {
    forall k :: 0 <= k < |evs| ==> !evs[k].Reset?
  }

  /** An event that cannot bring the expiry of an open breaker below `until`. */
  ghost predicate Respects(cfg: Config, ev: Event, until: Time) {
    && !ev.Reset?
    && ev.When() <= until
    && (ev.Report? ==> until <= ev.admitted + cfg.timeout)
    && (ev.Trip? ==> until <= ev.now + cfg.timeout)
  }

  lemma {:induction false} HoldsUntil(cfg: Config, w: World, evs: seq<Event>, until: Time)
    requires w.b.state == Open && until <= w.b.expiry
    requires forall k :: 0 <= k < |evs| ==> Respects(cfg, evs[k], until)
    ensures AnswersAll(cfg, w, evs, CircuitOpen)
    decreases evs
  {
    if evs != [] {
      assert Respects(cfg, evs[0], until);
      HoldsUntil(cfg, Step(cfg, w, evs[0]), evs[1..], until);
      AnswersAllCons(cfg, w, evs, CircuitOpen);
    }
  }

  /** After a trip at clock time T no `Allow` up to T + timeout - d succeeds, though late failures
      may move the expiry backwards. */
  lemma OpenHoldTime(cfg: Config, w: World, trip: Event, evs: seq<Event>, d: Time)
    requires 0 <= d
    requires Sets(cfg, w.b, trip) && AfterEvent(cfg, w.b, trip).state == Open
    requires Ordered([trip] + evs) && Prompt([trip] + evs, d) && NoReset(evs)
    requires forall k :: 0 <= k < |evs| ==> evs[k].When() <= trip.When() + cfg.timeout - d
    ensures AnswersAll(cfg, Step(cfg, w, trip), evs, CircuitOpen)
  {
    var all := [trip] + evs;
    var until := trip.When() + cfg.timeout - d;
    assert all[0] == trip;
    forall k | 0 <= k < |evs|
      ensures Respects(cfg, evs[k], until)
    {
      assert all[k + 1] == evs[k];
    }
    HoldsUntil(cfg, Step(cfg, w, trip), evs, until);
  }

  /** The bound cannot be improved under any settings: one nanosecond later the breaker no longer
      answers `CircuitOpen`. The trip is the late failure of a half-open trial. */
  lemma HoldTimeIsTight(cfg: Config, d: Time)
    requires cfg.Valid() && 0 <= d <= cfg.timeout
    ensures var t := cfg.timeout + 2;
            var before := [Trip(1), Query(t), Allow(t)];
            var trip := Report(t + d, t, false);
            var late := Allow(trip.When() + cfg.timeout - d + 1);
            var w := Exec(cfg, NEW_WORLD, before);
            && Runnable(cfg, NEW_WORLD, before + [trip, late])
            && Ordered(before + [trip, late]) && Prompt([trip, late], d)
            && Sets(cfg, w.b, trip) && Step(cfg, w, trip).b.state == Open
            && AllowReply(cfg, Step(cfg, w, trip).b, late.now) != CircuitOpen
  {
    hide Step, Exec, Runnable, AllowReply, Sets;
    var t := cfg.timeout + 2;
    var trip := Report(t + d, t, false);
    var late := Allow(trip.When() + cfg.timeout - d + 1);
    var v := Step(cfg, Step(cfg, NEW_WORLD, Trip(1)), Query(t));
    var w := Step(cfg, v, Allow(t));
    LateTrial(cfg, d);
    ExecPair(cfg, NEW_WORLD, Trip(1), Query(t), [Allow(t)]);
    ExecPair(cfg, NEW_WORLD, Trip(1), Query(t), [Allow(t), trip, late]);
    ExecPair(cfg, v, Allow(t), trip, [late]);
    ExecOne(cfg, v, Allow(t));
    ExecOne(cfg, Step(cfg, w, trip), late);
    assert [Trip(1), Query(t)] + [Allow(t)] == [Trip(1), Query(t), Allow(t)];
    assert [Trip(1), Query(t)] + [Allow(t), trip, late] == [Trip(1), Query(t), Allow(t)] + [trip, late];
    assert [Allow(t), trip] + [late] == [Allow(t), trip, late];
  }

  lemma ExecOne(cfg: Config, w: World, ev: Event)
    ensures Exec(cfg, w, [ev]) == Step(cfg, w, ev) && (Runnable(cfg, w, [ev]) <==> Enabled(w, ev))
  {
    hide Step, Enabled;
    assert [ev][1..] == [];
  }

  lemma LateTrial(cfg: Config, d: Time)
    requires cfg.Valid() && 0 <= d <= cfg.timeout
    ensures var t := cfg.timeout + 2;
            var trip := Report(t + d, t, false);
            var v := Step(cfg, Step(cfg, NEW_WORLD, Trip(1)), Query(t));
            var w := Step(cfg, v, Allow(t));
            && t in w.outstanding && Sets(cfg, w.b, trip)
            && Step(cfg, w, trip).b.state == Open
            && AllowReply(cfg, Step(cfg, w, trip).b, t + cfg.timeout + 1) != CircuitOpen
  {
  }

  /** The clock reading a call to setState goes by: a late report brings that of its admission. */
  function Stamp(ev: Event): Time {
    if ev.Report? then ev.admitted else ev.now
  }

  /** State and expiry are what the last setState made them: no other event moves either. */
  lemma ExpiryExactly(cfg: Config, w: World, ev: Event)
    ensures var v := Step(cfg, w, ev);
            if v.sets == w.sets then v.b.state == w.b.state && v.b.expiry == w.b.expiry
            else
              && v.sets == w.sets + 1
              && v.b.expiry == match v.b.state
                               case Closed => Stamp(ev) + cfg.interval
                               case Open => Stamp(ev) + cfg.timeout
                               case HalfOpen => ZERO_TIME
  {
  }

  /** So both are constant through a generation. */
  lemma {:induction false} GenerationKeeps(cfg: Config, w: World, evs: seq<Event>)
    requires Exec(cfg, w, evs).sets == w.sets
    ensures Exec(cfg, w, evs).b.state == w.b.state && Exec(cfg, w, evs).b.expiry == w.b.expiry
    decreases evs
  {
    hide Step;
    if evs != [] {
      SetsGrow(cfg, Step(cfg, w, evs[0]), evs[1..]);
      ExpiryExactly(cfg, w, evs[0]);
      GenerationKeeps(cfg, Step(cfg, w, evs[0]), evs[1..]);
    }
  }

  /** A report that comes while the breaker is open: a failure for which the policy holds, the window
      read off the log, restarts the time-out at the admission of its request, even if that moves the
      expiry back; no other report touches it. */
  lemma LateReport(cfg: Config, w: World, at: Time, admitted: Time, ok: bool)
    requires w.b.state == Open && w.b.counts == Tally(w.log)
    ensures var v := Step(cfg, w, Report(at, admitted, ok));
            && v.b.state == Open
            && v.b.expiry == if !ok && cfg.readyToTrip(Summary(w.log + [Failure])) then admitted + cfg.timeout
                             else w.b.expiry
  {
    hide Summary, Tally, Inc32;
    TallyAppend(w.log, Failure);
    TallyIsSummary(w.log + [Failure]);
  }

  // ----- how much an open or half-open breaker admits -----

  /** What is left of the trial admissions. */
  function Remaining(cfg: Config, b: Breaker): nat {
    if b.counts.requests < cfg.maxRequests then cfg.maxRequests - b.counts.requests else 0
  }

  lemma AdmissionMove(cfg: Config, w: World, ev: Event)
    requires w.b.state != Closed && !Clears(cfg, w.b, ev)
    ensures var grants := if Grants(cfg, w.b, ev) then 1 else 0;
            && Step(cfg, w, ev).b.counts.requests == w.b.counts.requests + grants
            && Remaining(cfg, Step(cfg, w, ev).b) == Remaining(cfg, w.b) - grants
  {
  }

  /** `Allow` never commits the half-open state it computes: through harmless calls an open breaker
      stays open, and its trial admissions are never renewed. */
  lemma {:induction false} OpenAdmissions(cfg: Config, w: World, evs: seq<Event>)
    requires w.b.state == Open && AllHarmless(cfg, w, evs)
    ensures Exec(cfg, w, evs).b.state == Open
    ensures Admissions(cfg, w, evs) <= Remaining(cfg, w.b)
    ensures Exec(cfg, w, evs).b.counts.requests == w.b.counts.requests + Admissions(cfg, w, evs)
    decreases evs
  {
    hide AllHarmless;
    if evs != [] {
      AllHarmlessTail(cfg, w, evs);
      AdmissionMove(cfg, w, evs[0]);
      assert Step(cfg, w, evs[0]).b.state == Open;
      hide Step, Grants, Remaining;
      OpenAdmissions(cfg, Step(cfg, w, evs[0]), evs[1..]);
    }
  }

  lemma {:induction false} SetsGrow(cfg: Config, w: World, evs: seq<Event>)
    ensures w.sets <= Exec(cfg, w, evs).sets
    decreases evs
  {
    if evs != [] {
      assert w.sets <= Step(cfg, w, evs[0]).sets;
      hide Step;
      SetsGrow(cfg, Step(cfg, w, evs[0]), evs[1..]);
    }
  }

  /** In one generation that is open or half-open at most `maxRequests` requests are admitted. */
  lemma {:induction false} GenerationAdmissions(cfg: Config, w: World, evs: seq<Event>)
    requires w.b.state != Closed && Exec(cfg, w, evs).sets == w.sets
    ensures Exec(cfg, w, evs).b.state == w.b.state
    ensures Admissions(cfg, w, evs) <= Remaining(cfg, w.b) <= cfg.maxRequests
    ensures Exec(cfg, w, evs).b.counts.requests == w.b.counts.requests + Admissions(cfg, w, evs)
    decreases evs
  {
    if evs != [] {
      SetsGrow(cfg, Step(cfg, w, evs[0]), evs[1..]);
      assert Step(cfg, w, evs[0]).sets == w.sets;
      assert Step(cfg, w, evs[0]).b.state == w.b.state;
      AdmissionMove(cfg, w, evs[0]);
      hide Step, Grants;
      GenerationAdmissions(cfg, Step(cfg, w, evs[0]), evs[1..]);
    }
  }

  // ----- how a half-open breaker leaves -----

  function Delivers(ev: Event, ok: bool): nat {
    if ev.Report? && ev.ok == ok then 1 else 0
  }

  function Delivered(evs: seq<Event>, ok: bool): nat {
    if evs == [] then 0 else Delivers(evs[0], ok) + Delivered(evs[1..], ok)
  }

  ghost predicate NoManual(evs: seq<Event>) {
    forall k :: 0 <= k < |evs| ==> !evs[k].Manual()
  }

  /** One event of a half-open breaker. */
  lemma HalfOpenMove(cfg: Config, w: World, ev: Event)
    requires cfg.Valid() && HalfOpenInv(cfg, w) && w.b.state == HalfOpen
    requires Enabled(w, ev) && !ev.Manual()
    ensures var v := Step(cfg, w, ev);
            var successes := w.b.counts.totalSuccesses + Delivers(ev, true);
            if Delivers(ev, false) == 1 then v.b.state == Open && v.sets == w.sets + 1
            else if successes == cfg.maxRequests then v.b.state == Closed && v.sets == w.sets + 1
            else v.b.state == HalfOpen && v.sets == w.sets && v.b.counts.totalSuccesses == successes && HalfOpenInv(cfg, v)
  {
    HalfOpenStep(cfg, w, ev);
  }

  /** It stays exactly while no failure has been delivered and the successes, including those
      counted before, are below `maxRequests`. */
  lemma {:induction false} HalfOpenStays(cfg: Config, w: World, evs: seq<Event>)
    requires cfg.Valid() && HalfOpenInv(cfg, w) && w.b.state == HalfOpen
    requires Runnable(cfg, w, evs) && NoManual(evs)
    ensures var successes := w.b.counts.totalSuccesses + Delivered(evs, true);
            && (Exec(cfg, w, evs).sets == w.sets <==> Delivered(evs, false) == 0 && successes < cfg.maxRequests)
            && (Exec(cfg, w, evs).sets == w.sets ==>
                  && Exec(cfg, w, evs).b.state == HalfOpen
                  && HalfOpenInv(cfg, Exec(cfg, w, evs))
                  && Exec(cfg, w, evs).b.counts.totalSuccesses == successes)
    decreases evs
  {
    if evs != [] {
      assert !evs[0].Manual();
      HalfOpenMove(cfg, w, evs[0]);
      hide Step, HalfOpenInv;
      SetsGrow(cfg, Step(cfg, w, evs[0]), evs[1..]);
      if Step(cfg, w, evs[0]).sets == w.sets {
        HalfOpenStays(cfg, Step(cfg, w, evs[0]), evs[1..]);
      }
    }
  }

  /** Counting from its entry, it closes on the `maxRequests`-th success and opens on the first
      failure, and on nothing else. */
  lemma HalfOpenExit(cfg: Config, w: World, evs: seq<Event>, last: Event)
    requires cfg.Valid() && w.b.state == HalfOpen && w.b.counts == NO_COUNTS
    requires Runnable(cfg, w, evs) && NoManual(evs) && Exec(cfg, w, evs).sets == w.sets
    requires Enabled(Exec(cfg, w, evs), last) && !last.Manual()
    ensures var to := Step(cfg, Exec(cfg, w, evs), last).b.state;
            && (to == Closed <==> last.Report? && last.ok && Delivered(evs, true) + 1 == cfg.maxRequests)
            && (to == Open <==> last.Report? && !last.ok)
  {
    HalfOpenStays(cfg, w, evs);
    HalfOpenMove(cfg, Exec(cfg, w, evs), last);
  }

  // ----- a half-open breaker is never stuck -----

  /** Half-open, with no more trials admitted than succeeded. */
  ghost predicate TrialsPending(cfg: Config, b: Breaker) {
    && b.state == HalfOpen
    && b.counts.requests <= b.counts.totalSuccesses == b.counts.consecutiveSuccesses < cfg.maxRequests
  }

  lemma IdleHalfOpenAdmits(cfg: Config, w: World, now: Time)
    requires HalfOpenInv(cfg, w) && w.b.state == HalfOpen && w.outstanding == multiset{}
    ensures AllowReply(cfg, w.b, now) == Granted && TrialsPending(cfg, w.b)
  {
  }

  /** With every callback invoked, a half-open breaker reached by any run admits the next request. */
  lemma HalfOpenNeverDeadlocks(cfg: Config, evs: seq<Event>, now: Time)
    requires cfg.Valid() && Runnable(cfg, NEW_WORLD, evs)
    requires Exec(cfg, NEW_WORLD, evs).b.state == HalfOpen && Exec(cfg, NEW_WORLD, evs).outstanding == multiset{}
    ensures AllowReply(cfg, Exec(cfg, NEW_WORLD, evs).b, now) == Granted
    ensures TrialsPending(cfg, Exec(cfg, NEW_WORLD, evs).b)
  {
    Reachable(cfg, evs);
    IdleHalfOpenAdmits(cfg, Exec(cfg, NEW_WORLD, evs), now);
  }

  /** `n` requests, each admitted at `t` and reported as successful at once. */
  function Trials(n: nat, t: Time): seq<Event> {
    if n == 0 then [] else [Allow(t), Report(t, t, true)] + Trials(n - 1, t)
  }

  lemma OneTrial(cfg: Config, w: World, t: Time)
    requires TrialsPending(cfg, w.b) && ZERO_TIME < t
    ensures var v := Step(cfg, w, Allow(t));
            var u := Step(cfg, v, Report(t, t, true));
            && Grants(cfg, w.b, Allow(t)) && Enabled(w, Allow(t)) && Enabled(v, Report(t, t, true))
            && if w.b.counts.totalSuccesses + 1 == cfg.maxRequests then u.b.state == Closed
               else TrialsPending(cfg, u.b) && u.b.counts.totalSuccesses == w.b.counts.totalSuccesses + 1
  {
  }

  /** Successful requests are all admitted, and exactly the missing number of them closes it, whatever
      callbacks of earlier requests are still outstanding. */
  lemma {:induction false} TrialsClose(cfg: Config, w: World, n: nat, t: Time)
    requires TrialsPending(cfg, w.b) && ZERO_TIME < t
    requires n <= cfg.maxRequests - w.b.counts.totalSuccesses
    ensures Runnable(cfg, w, Trials(n, t)) && Admissions(cfg, w, Trials(n, t)) == n
    ensures Exec(cfg, w, Trials(n, t)).b.state ==
            if n == cfg.maxRequests - w.b.counts.totalSuccesses then Closed else HalfOpen
    decreases n
  {
    hide Step, Grants, Enabled;
    if n > 0 {
      OneTrial(cfg, w, t);
      hide TrialsPending;
      var u := Step(cfg, Step(cfg, w, Allow(t)), Report(t, t, true));
      ExecPair(cfg, w, Allow(t), Report(t, t, true), Trials(n - 1, t));
      AdmissionsPair(cfg, w, t, true, Trials(n - 1, t));
      if w.b.counts.totalSuccesses + 1 < cfg.maxRequests {
        TrialsClose(cfg, u, n - 1, t);
      }
    }
  }

  lemma AdmissionsPair(cfg: Config, w: World, t: Time, ok: bool, rest: seq<Event>)
    requires Grants(cfg, w.b, Allow(t))
    ensures var pair := [Allow(t), Report(t, t, ok)];
            var u := Step(cfg, Step(cfg, w, Allow(t)), Report(t, t, ok));
            Admissions(cfg, w, pair + rest) == 1 + Admissions(cfg, u, rest)
  {
    hide Step;
    var run := [Allow(t), Report(t, t, ok)] + rest;
    assert run[1..] == [Report(t, t, ok)] + rest && run[1..][1..] == rest;
  }

  /** From every open state, whatever callbacks are outstanding, one `State` call after the expiry
      and `maxRequests` successful requests lead back to Closed. */
  lemma Recovers(cfg: Config, w: World, t: Time)
    requires cfg.Valid() && w.b.state == Open
    requires ZERO_TIME < t && w.b.expiry < t
    ensures var run := [Query(t)] + Trials(cfg.maxRequests, t);
            Runnable(cfg, w, run) && Exec(cfg, w, run).b.state == Closed
  {
    var v := Step(cfg, w, Query(t));
    assert TrialsPending(cfg, v.b) && v.b.counts == NO_COUNTS;
    TrialsClose(cfg, v, cfg.maxRequests, t);
    assert ([Query(t)] + Trials(cfg.maxRequests, t))[1..] == Trials(cfg.maxRequests, t);
  }

  // ----- counters and history -----

  /** Everything a run admits and reports, with no regard to clearing. */
  function Marks(cfg: Config, w: World, evs: seq<Event>): seq<Mark>
    decreases evs
  {
    if evs == [] then [] else MarksOf(cfg, w.b, evs[0]) + Marks(cfg, Step(cfg, w, evs[0]), evs[1..])
  }

  ghost predicate SuffixOf(s: seq<Mark>, t: seq<Mark>) {
    |s| <= |t| && t[|t| - |s|..] == s
  }

  lemma LogStaysSuffix(cfg: Config, w: World, past: seq<Mark>, ev: Event)
    requires SuffixOf(w.log, past)
    ensures SuffixOf(LogAfter(cfg, w, ev), past + MarksOf(cfg, w.b, ev))
  {
  }

  lemma {:induction false} LogIsSuffix(cfg: Config, w: World, past: seq<Mark>, evs: seq<Event>)
    requires SuffixOf(w.log, past)
    ensures SuffixOf(Exec(cfg, w, evs).log, past + Marks(cfg, w, evs))
    decreases evs
  {
    hide AfterEvent, OutstandingAfter, LogAfter, BaseAfter, Sets, MarksOf, SuffixOf;
    if evs == [] {
      assert past + [] == past;
    } else {
      var v := Step(cfg, w, evs[0]);
      var m := MarksOf(cfg, w.b, evs[0]);
      LogStaysSuffix(cfg, w, past, evs[0]);
      assert Exec(cfg, w, evs) == Exec(cfg, v, evs[1..]) && v.log == LogAfter(cfg, w, evs[0]);
      assert Marks(cfg, w, evs) == m + Marks(cfg, v, evs[1..]);
      hide *;
      LogIsSuffix(cfg, v, past + m, evs[1..]);
      assert past + m + Marks(cfg, v, evs[1..]) == past + Marks(cfg, w, evs);
    }
  }

  /** In every run the counters sum up the most recent marks, modulo 2^32. */
  lemma CountersRefineHistory(cfg: Config, evs: seq<Event>)
    requires cfg.Valid() && Runnable(cfg, NEW_WORLD, evs)
    ensures SuffixOf(Exec(cfg, NEW_WORLD, evs).log, Marks(cfg, NEW_WORLD, evs))
    ensures Exec(cfg, NEW_WORLD, evs).b.counts == Summary(Exec(cfg, NEW_WORLD, evs).log)
  {
    hide Step, Runnable, Exec, Summary;
    Reachable(cfg, evs);
    LogIsSuffix(cfg, NEW_WORLD, [], evs);
    assert [] + Marks(cfg, NEW_WORLD, evs) == Marks(cfg, NEW_WORLD, evs);
    TallyIsSummary(Exec(cfg, NEW_WORLD, evs).log);
  }

  lemma {:induction false} OccursBound(log: seq<Mark>, m: Mark)
    ensures Occurs(log, m) <= |log|
  {
    if log != [] {
      OccursBound(log[..|log| - 1], m);
    }
  }

  /** While the window holds fewer than 2^32 marks, outstanding callbacks balance the counters. */
  lemma CountersBalance(cfg: Config, w: World)
    requires Inv(cfg, w) && |w.log| < TWO32
    ensures |w.outstanding| ==
            w.base + w.b.counts.requests - w.b.counts.totalSuccesses - w.b.counts.totalFailures
  {
    hide Wrap32, Occurs, Tally, HalfOpenInv, Leads;
    TallyIsSummary(w.log);
    BalanceIsDifference(w.log);
    OccursBound(w.log, Admission);
    OccursBound(w.log, Success);
    OccursBound(w.log, Failure);
    WrapSmall(Occurs(w.log, Admission));
    WrapSmall(Occurs(w.log, Success));
    WrapSmall(Occurs(w.log, Failure));
  }

  // ----- the default policy -----

  ghost predicate TripsOnThree(cfg: Config) {
    forall c: Counts :: 3 <= c.consecutiveFailures ==> cfg.readyToTrip(c)
  }

  /** A closed breaker's window does not end in three failures. */
  ghost predicate Calm(w: World) {
    w.b.state == Closed ==> TrailingRun(Outcomes(w.log), Failure) < 3
  }

  lemma CalmStep(cfg: Config, w: World, ev: Event)
    requires TripsOnThree(cfg) && w.b.counts == Tally(w.log) && Calm(w)
    ensures Calm(Step(cfg, w, ev))
  {
    hide Wrap32, Tally, Occurs, TrailingRun, Outcomes;
    var v := Step(cfg, w, ev);
    TallyStep(cfg, w, ev);
    TallyIsSummary(v.log);
    RunOfLog(cfg, w, ev);
    if v.b.state == Closed && TrailingRun(Outcomes(v.log), Failure) <= 3 {
      WrapSmall(TrailingRun(Outcomes(v.log), Failure));
    }
  }

  lemma NoRun()
    ensures TrailingRun(Outcomes([]), Failure) == 0
  {
  }

  /** How an event moves the failures at the end of the window. */
  lemma RunOfLog(cfg: Config, w: World, ev: Event)
    ensures var run := TrailingRun(Outcomes(w.log), Failure);
            TrailingRun(Outcomes(LogAfter(cfg, w, ev)), Failure) ==
            if Clears(cfg, w.b, ev) then 0
            else if !ev.Report? then run
            else if ev.ok then 0
            else run + 1
  {
    hide Clears, AllowReply, TrailingRun, Outcomes;
    var marks := MarksOf(cfg, w.b, ev);
    NoRun();
    if marks == [] {
      assert w.log + [] == w.log;
    } else {
      RunAppend(w.log, marks[0], Failure);
      RunAppend([], marks[0], Failure);
      assert marks == [marks[0]] && [] + marks == marks;
    }
  }

  /** No run leaves a closed breaker with three failures at the end of its window, and the counter
      that could have wrapped agrees. */
  lemma {:induction false} ClosedNeverRestsOnThree(cfg: Config, w: World, evs: seq<Event>)
    requires TripsOnThree(cfg) && w.b.counts == Tally(w.log) && Calm(w)
    ensures var v := Exec(cfg, w, evs);
            v.b.state == Closed ==>
              TrailingRun(Outcomes(v.log), Failure) == v.b.counts.consecutiveFailures < 3
    decreases evs
  {
    hide Step, Outcomes, TrailingRun, Wrap32, Tally, Occurs;
    if evs == [] {
      TallyIsSummary(w.log);
      if w.b.state == Closed {
        WrapSmall(TrailingRun(Outcomes(w.log), Failure));
      }
    } else {
      CalmStep(cfg, w, evs[0]);
      TallyKept(cfg, w, evs[0]);
      ClosedNeverRestsOnThree(cfg, Step(cfg, w, evs[0]), evs[1..]);
    }
  }

  lemma TallyKept(cfg: Config, w: World, ev: Event)
    requires w.b.counts == Tally(w.log)
    ensures Step(cfg, w, ev).b.counts == Tally(Step(cfg, w, ev).log)
  {
    hide AfterEvent, LogAfter, Tally;
    TallyStep(cfg, w, ev);
  }

  /** A policy that needs at least `maxRequests` admissions in the window to trip, once no failure in
      it lacks its admission. */
  ghost predicate TripsLate(cfg: Config) {
    forall c: Counts ::
      cfg.readyToTrip(c) && c.consecutiveFailures <= c.totalFailures <= c.requests ==> cfg.maxRequests <= c.requests
  }

  /** The default policy is the code's float test read over the reals. */
  lemma DefaultPolicyIsRate(c: Counts)
    ensures DefaultReadyToTrip(c) <==>
            || 3 <= c.consecutiveFailures
            || (5 <= c.requests && c.totalFailures as real / c.requests as real > 0.4)
  {
    if 5 <= c.requests {
      RateTest(c.totalFailures, c.requests);
    }
  }

  lemma RateTest(failures: nat, requests: nat)
    requires 0 < requests
    ensures failures as real / requests as real > 0.4 <==> 2 * requests < 5 * failures
  {
    Quotient(failures as real, requests as real, 0.4);
    assert failures as real > 0.4 * requests as real <==> 5 * failures > 2 * requests;
  }

  lemma Quotient(f: real, r: real, rate: real)
    requires 0.0 < r
    ensures f / r > rate <==> f > rate * r
  {
    var q := f / r;
    assert q * r == f;
    Monotone(q, rate, r);
    Monotone(rate, q, r);
  }

  lemma Monotone(x: real, y: real, r: real)
    requires 0.0 < r
    ensures x > y ==> x * r > y * r
  {
  }

  lemma DefaultPolicy()
    ensures DEFAULT_CONFIG.Valid() && TripsOnThree(DEFAULT_CONFIG) && TripsLate(DEFAULT_CONFIG)
    ensures DEFAULT_CONFIG.maxRequests == 3
    ensures DEFAULT_CONFIG.interval == 30_000_000_000 && DEFAULT_CONFIG.timeout == 10_000_000_000
  {
  }

  lemma {:induction false} RunsAreParts(log: seq<Mark>)
    ensures TrailingRun(Outcomes(log), Failure) <= Occurs(log, Failure)
  {
    if log != [] {
      var prefix, m := log[..|log| - 1], log[|log| - 1];
      assert prefix + [m] == log;
      RunsAreParts(prefix);
      RunAppend(prefix, m, Failure);
      OccursAppend(prefix, m, Failure);
    }
  }

  /** In a window that opened with nothing outstanding no failure lacks its admission. */
  lemma WindowCounts(cfg: Config, w: World)
    requires Inv(cfg, w) && w.base == 0 && |w.log| < TWO32
    ensures w.b.counts.consecutiveFailures <= w.b.counts.totalFailures <= w.b.counts.requests
  {
    CountersBalance(cfg, w);
    TallyIsSummary(w.log);
    RunsAreParts(w.log);
    OccursBound(w.log, Failure);
    hide Occurs, Outcomes, TrailingRun, Tally, Wrap32, HalfOpenInv, Leads, Conserved;
    WrapSmall(Occurs(w.log, Failure));
    WrapSmall(TrailingRun(Outcomes(w.log), Failure));
  }

  ghost predicate InFirstWindow(w: World) {
    w.b.state == Closed && w.b.expiry == ZERO_TIME && w.base == 0
  }

  /** The first closed window has no expiry, so the counters are not cleared before the trip. */
  lemma FirstWindowMove(cfg: Config, w: World, ev: Event)
    requires cfg.Valid() && TripsLate(cfg) && Inv(cfg, w) && InFirstWindow(w) && Enabled(w, ev)
    requires !ev.Manual() && |w.log| + 1 < TWO32
    ensures var v := Step(cfg, w, ev);
            && |v.log| <= |w.log| + 1
            && (InFirstWindow(v) || (v.b.state == Open && Remaining(cfg, v.b) == 0))
  {
    InvStep(cfg, w, ev);
    var v := Step(cfg, w, ev);
    assert v.base == 0 && |v.log| <= |w.log| + 1;
    hide Inv;
    if ev.Report? && !ev.ok {
      WindowCounts(cfg, v);
    }
  }

  lemma {:induction false} FirstTripExhausts(cfg: Config, w: World, evs: seq<Event>)
    requires cfg.Valid() && TripsLate(cfg) && Inv(cfg, w) && InFirstWindow(w)
    requires Runnable(cfg, w, evs) && AllHarmless(cfg, w, evs) && NoManual(evs) && |w.log| + |evs| < TWO32
    ensures Exec(cfg, w, evs).b.state == Open ==> Remaining(cfg, Exec(cfg, w, evs).b) == 0
    decreases evs
  {
    hide Step, Inv, Enabled, AllHarmless;
    if evs != [] {
      assert !evs[0].Manual();
      AllHarmlessTail(cfg, w, evs);
      InvStep(cfg, w, evs[0]);
      FirstWindowMove(cfg, w, evs[0]);
      if InFirstWindow(Step(cfg, w, evs[0])) {
        FirstTripExhausts(cfg, Step(cfg, w, evs[0]), evs[1..]);
      } else {
        OpenAdmissions(cfg, Step(cfg, w, evs[0]), evs[1..]);
      }
    }
  }

  /** The documentation promises recovery after `Timeout`. Once the default policy has tripped a new
      breaker, it never admits a request again, at any later time, until someone resets it or calls
      `State` later than the expiry; `State` calls before that change nothing. */
  lemma FirstTripIsPermanent(cfg: Config, before: seq<Event>, after: seq<Event>)
    requires cfg.Valid() && TripsLate(cfg)
    requires Runnable(cfg, NEW_WORLD, before) && AllHarmless(cfg, NEW_WORLD, before) && NoManual(before)
    requires |before| < TWO32 && Exec(cfg, NEW_WORLD, before).b.state == Open
    requires AllHarmless(cfg, Exec(cfg, NEW_WORLD, before), after)
    ensures Admissions(cfg, Exec(cfg, NEW_WORLD, before), after) == 0
  {
    FirstTripExhausts(cfg, NEW_WORLD, before);
    OpenAdmissions(cfg, Exec(cfg, NEW_WORLD, before), after);
  }

  // ----- serial failures under the default settings -----

  /** Requests one after the other, each failing at once. */
  function Failing(times: seq<Time>): seq<Event> {
    if times == [] then []
    else [Allow(times[0]), Report(times[0], times[0], false)] + Failing(times[1..])
  }

  ghost predicate AllAfter(times: seq<Time>, t: Time) {
    forall i :: 0 <= i < |times| ==> t < times[i]
  }

  ghost predicate NonDecreasing(times: seq<Time>) {
    forall i, j :: 0 <= i < j < |times| ==> times[i] <= times[j]
  }

  lemma {:induction false} FailingIsTraffic(times: seq<Time>)
    ensures |Failing(times)| == 2 * |times|
    ensures forall k :: 0 <= k < |Failing(times)| ==> Failing(times)[k].Allow? || Failing(times)[k].Report?
  {
    if times != [] {
      FailingIsTraffic(times[1..]);
    }
  }

  /** Whether the window with this expiry has run out at `t`; an expiry of zero is none. */
  predicate RunOut(expiry: Time, t: Time) {
    expiry != ZERO_TIME && expiry < t
  }

  /** A closed breaker whose window holds `k` requests, all failed. */
  ghost predicate Streak(w: World, expiry: Time, k: nat) {
    k < 3 && w.b.state == Closed && w.b.expiry == expiry && w.b.counts == Counts(k, 0, k, 0, k)
  }

  /** One more failed request: it starts a window that has run out anew. */
  lemma OneFailure(w: World, expiry: Time, k: nat, t: Time)
    requires Streak(w, expiry, k) && ZERO_TIME < t
    ensures var v := Step(DEFAULT_CONFIG, w, Allow(t));
            var u := Step(DEFAULT_CONFIG, v, Report(t, t, false));
            var failures := if RunOut(expiry, t) then 1 else k + 1;
            && Enabled(w, Allow(t)) && Enabled(v, Report(t, t, false)) && Grants(DEFAULT_CONFIG, w.b, Allow(t))
            && if failures < 3 then Streak(u, expiry, failures) else u.b.state == Open
  {
  }

  /** Three in a window that lasts trip the breaker. */
  lemma {:induction false} StreakTrips(w: World, expiry: Time, k: nat, times: seq<Time>)
    requires Streak(w, expiry, k) && k + |times| == 3 && AllAfter(times, ZERO_TIME)
    requires forall i :: 0 <= i < |times| ==> !RunOut(expiry, times[i])
    ensures Runnable(DEFAULT_CONFIG, w, Failing(times))
    ensures Exec(DEFAULT_CONFIG, w, Failing(times)).b.state == Open
    decreases |times|
  {
    hide Streak, Step, Enabled, RunOut;
    assert k < 3 by {
      StreakBelowThree(w, expiry, k);
    }
    var t := times[0];
    OneFailure(w, expiry, k, t);
    ExecPair(DEFAULT_CONFIG, w, Allow(t), Report(t, t, false), Failing(times[1..]));
    if 1 < |times| {
      var u := Step(DEFAULT_CONFIG, Step(DEFAULT_CONFIG, w, Allow(t)), Report(t, t, false));
      StreakTrips(u, expiry, k + 1, times[1..]);
    }
  }

  lemma StreakBelowThree(w: World, expiry: Time, k: nat)
    requires Streak(w, expiry, k)
    ensures k < 3
  {
  }

  /** When every failure from the third on comes after the window has run out, none trips it. */
  lemma {:induction false} StreakForgotten(w: World, expiry: Time, k: nat, times: seq<Time>)
    requires Streak(w, expiry, k) && AllAfter(times, ZERO_TIME)
    requires forall i :: 0 <= i < |times| ==> RunOut(expiry, times[i]) || k + i < 2
    ensures Runnable(DEFAULT_CONFIG, w, Failing(times))
    ensures Exec(DEFAULT_CONFIG, w, Failing(times)).b.state == Closed
    decreases |times|
  {
    if times != [] {
      hide Streak, Step, Enabled, RunOut;
      var t := times[0];
      var failures := if RunOut(expiry, t) then 1 else k + 1;
      OneFailure(w, expiry, k, t);
      ExecPair(DEFAULT_CONFIG, w, Allow(t), Report(t, t, false), Failing(times[1..]));
      var u := Step(DEFAULT_CONFIG, Step(DEFAULT_CONFIG, w, Allow(t)), Report(t, t, false));
      assert failures < 3;
      StreakForgotten(u, expiry, failures, times[1..]);
    }
  }

  /** The first `n` of the requests can be made and leave the breaker open. */
  ghost predicate TripsBy(w: World, times: seq<Time>, n: nat)
    requires n <= |times|
  {
    && Runnable(DEFAULT_CONFIG, w, Failing(times[..n]))
    && Exec(DEFAULT_CONFIG, w, Failing(times[..n])).b.state == Open
  }

  /** Serial failures trip a closed breaker with a fresh window if and only if there are three and
      the third comes no later than the expiry of the window, or the window has none; then the third
      does it. */
  lemma SerialFailuresTrip(w: World, times: seq<Time>)
    requires w.b.state == Closed && w.b.counts == NO_COUNTS
    requires AllAfter(times, ZERO_TIME) && NonDecreasing(times)
    ensures var inTime := 3 <= |times| && (w.b.expiry == ZERO_TIME || times[2] <= w.b.expiry);
            && (inTime ==> TripsBy(w, times, 3))
            && ((exists n :: 0 <= n <= |times| && TripsBy(w, times, n)) <==> inTime)
  {
    hide Step, Failing, Exec, Runnable;
    var expiry := w.b.expiry;
    if 3 <= |times| && !RunOut(expiry, times[2]) {
      StreakTrips(w, expiry, 0, times[..3]);
      assert TripsBy(w, times, 3);
    } else {
      forall n | 0 <= n <= |times|
        ensures !TripsBy(w, times, n)
      {
        assert forall i :: 2 < i < |times| ==> times[2] <= times[i];
        StreakForgotten(w, expiry, 0, times[..n]);
      }
    }
  }

  /** Three failed requests shut a new host out for good: with the default settings no later request
      is admitted, however long one waits, unless someone resets it or calls `State` after the expiry. */
  lemma ThreeFailuresLockOut(times: seq<Time>, after: seq<Event>)
    requires |times| == 3 && AllAfter(times, ZERO_TIME)
    requires AllHarmless(DEFAULT_CONFIG, Exec(DEFAULT_CONFIG, NEW_WORLD, Failing(times)), after)
    ensures Runnable(DEFAULT_CONFIG, NEW_WORLD, Failing(times))
    ensures Exec(DEFAULT_CONFIG, NEW_WORLD, Failing(times)).b.state == Open
    ensures Admissions(DEFAULT_CONFIG, Exec(DEFAULT_CONFIG, NEW_WORLD, Failing(times)), after) == 0
  {
    hide Step, Failing, Exec, Runnable, Admissions, TripsLate;
    StreakTrips(NEW_WORLD, ZERO_TIME, 0, times);
    FailingIsTraffic(times);
    DefaultPolicy();
    FirstTripIsPermanent(DEFAULT_CONFIG, Failing(times), after);
  }

  /** After a reset serial failures trip the breaker if and only if there are three and the third comes
      no later than `Interval` after the reset. */
  lemma SerialFailuresAfterReset(w: World, reset: Time, times: seq<Time>)
    requires ZERO_TIME < reset && AllAfter(times, ZERO_TIME) && NonDecreasing(times)
    ensures var v := Step(DEFAULT_CONFIG, w, Reset(reset));
            (exists n :: 0 <= n <= |times| && TripsBy(v, times, n)) <==>
            3 <= |times| && times[2] <= reset + DEFAULT_CONFIG.interval
  {
    hide TripsBy;
    SerialFailuresTrip(Step(DEFAULT_CONFIG, w, Reset(reset)), times);
  }

  /** Once a breaker has been reset, every `Allow` later than `Interval` after the reset clears the
      counters, so any number of requests that fail one after the other leave it closed. */
  lemma SerialFailuresNeverTripAgain(w: World, reset: Time, times: seq<Time>)
    requires ZERO_TIME < reset && AllAfter(times, reset + DEFAULT_CONFIG.interval)
    ensures var v := Step(DEFAULT_CONFIG, w, Reset(reset));
            Runnable(DEFAULT_CONFIG, v, Failing(times)) && Exec(DEFAULT_CONFIG, v, Failing(times)).b.state == Closed
  {
    hide Failing, Exec, Runnable;
    StreakForgotten(Step(DEFAULT_CONFIG, w, Reset(reset)), reset + DEFAULT_CONFIG.interval, 0, times);
  }
}
