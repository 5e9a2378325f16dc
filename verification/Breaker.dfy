/**
 The circuit breaker of internal/circuitbreaker/breaker.go as a pure state machine.

 The functions on `Breaker` follow the code operation by operation. `World` adds what the code does
 not store but its callers rely on: the callbacks handed out and not yet invoked, the marks recorded
 since the counters were last cleared, and the notifications sent to `OnStateChange`.
 */
module BreakerSpec {
  import opened Words

  datatype State = Closed | HalfOpen | Open

  datatype Counts = Counts(
    requests: Uint32,
    totalSuccesses: Uint32,
    totalFailures: Uint32,
    consecutiveSuccesses: Uint32,
    consecutiveFailures: Uint32)

  const NO_COUNTS := Counts(0, 0, 0, 0, 0)

  datatype Config = Config(maxRequests: Uint32, interval: Time, timeout: Time, readyToTrip: Counts -> bool) {
    ghost predicate Valid() {
      0 < maxRequests && 0 < interval && 0 < timeout
    }
  }

  const SECOND: Time := 1_000_000_000

  /** The default trip policy. The code's float test `failures/requests > 0.4` is exact here. */
  predicate DefaultReadyToTrip(c: Counts) {
    3 <= c.consecutiveFailures || (5 <= c.requests && 2 * c.requests < 5 * c.totalFailures)
  }

  const DEFAULT_CONFIG := Config(3, 30 * SECOND, 10 * SECOND, DefaultReadyToTrip)

  /** The fields of a `Breaker` that change. */
  datatype Breaker = Breaker(state: State, generation: Uint64, counts: Counts, expiry: Time)

  const NEW_BREAKER := Breaker(Closed, 0, NO_COUNTS, ZERO_TIME)

  // ----- the code's operations -----

  /** A closed window that has run out: `currentState` clears the counts but keeps the expiry. */
  predicate WindowExpired(b: Breaker, now: Time) {
    b.state == Closed && b.expiry != ZERO_TIME && b.expiry < now
  }

  /** The side effect of `currentState`. */
  function Settled(b: Breaker, now: Time): Breaker {
    if WindowExpired(b, now) then b.(counts := NO_COUNTS) else b
  }

  /** The result of `currentState`. */
  function Observed(b: Breaker, now: Time): State {
    if b.state == Open && b.expiry < now then HalfOpen else b.state
  }

  function SetState(cfg: Config, b: Breaker, to: State, now: Time): Breaker {
    var b := b.(state := to, generation := Inc64(b.generation));
    match to
    case Closed => b.(counts := NO_COUNTS, expiry := now + cfg.interval)
    case Open => b.(expiry := now + cfg.timeout)
    case HalfOpen => b.(counts := NO_COUNTS, expiry := ZERO_TIME)
  }

  datatype Reply = Granted | CircuitOpen | TooManyRequests

  function AllowReply(cfg: Config, b: Breaker, now: Time): Reply {
    if Observed(b, now) == Open then CircuitOpen
    else if Observed(b, now) == HalfOpen && cfg.maxRequests <= b.counts.requests then TooManyRequests
    else Granted
  }

  function AfterAllow(cfg: Config, b: Breaker, now: Time): Breaker {
    var s := Settled(b, now);
    if AllowReply(cfg, b, now).Granted?
    then s.(counts := s.counts.(requests := Inc32(s.counts.requests)))
    else s
  }

  function AfterQuery(cfg: Config, b: Breaker, now: Time): Breaker {
    var s := Settled(b, now);
    if Observed(b, now) != b.state then SetState(cfg, s, Observed(b, now), now) else s
  }

  function CountSuccess(c: Counts): Counts {
    c.(totalSuccesses := Inc32(c.totalSuccesses),
    consecutiveSuccesses := Inc32(c.consecutiveSuccesses),
    consecutiveFailures := 0)
  }

  function CountFailure(c: Counts): Counts {
    c.(totalFailures := Inc32(c.totalFailures),
    consecutiveFailures := Inc32(c.consecutiveFailures),
    consecutiveSuccesses := 0)
  }

  /** `onResult`; `admitted` is the clock reading taken by the `Allow` that made the callback. */
  function AfterResult(cfg: Config, b: Breaker, ok: bool, admitted: Time): (after: Breaker)
    ensures !ok && after.state == Closed ==> !cfg.readyToTrip(after.counts)
  {
    if ok then
      var s := b.(counts := CountSuccess(b.counts));
      if s.state == HalfOpen && cfg.maxRequests <= s.counts.consecutiveSuccesses
      then SetState(cfg, s, Closed, admitted) else s
    else
      var s := b.(counts := CountFailure(b.counts));
      if s.state == HalfOpen || cfg.readyToTrip(s.counts)
      then SetState(cfg, s, Open, admitted) else s
  }

  // ----- runs -----

  /** One call under the breaker's lock. `Report` is the invocation, at clock time `at`, of the
      callback of a request admitted at `admitted`. */
  datatype Event =
    | Allow(now: Time)
    | Report(at: Time, admitted: Time, ok: bool)
    | Query(now: Time)
    | Trip(now: Time)
    | Reset(now: Time)
  {
    function When(): Time {
      if Report? then at else now
    }
    predicate Manual() {
      Trip? || Reset?
    }
  }

  /** What the counters count. */
  datatype Mark = Admission | Success | Failure

  /** A notification, with the call that caused it and the expiry in force before it. */
  datatype Note = Note(from: State, to: State, cause: Event, deadline: Time)

  datatype World = World(
    b: Breaker,
    outstanding: multiset<Time>, // admission times of callbacks not yet invoked
    log: seq<Mark>,              // marks since the counters were last cleared
    base: nat,                   // |outstanding| when they were cleared
    sets: nat,                   // calls of setState so far
    trace: seq<Note>)            // notifications sent to OnStateChange

  const NEW_WORLD := World(NEW_BREAKER, multiset{}, [], 0, 0, [])

  ghost predicate Enabled(w: World, ev: Event) {
    ZERO_TIME < ev.When() && (ev.Report? ==> ev.admitted in w.outstanding)
  }

  function AfterEvent(cfg: Config, b: Breaker, ev: Event): Breaker {
    match ev
    case Allow(now) => AfterAllow(cfg, b, now)
    case Report(_, admitted, ok) => AfterResult(cfg, b, ok, admitted)
    case Query(now) => AfterQuery(cfg, b, now)
    case Trip(now) => SetState(cfg, b, Open, now)
    case Reset(now) => SetState(cfg, b, Closed, now)
  }

  predicate Grants(cfg: Config, b: Breaker, ev: Event) {
    ev.Allow? && AllowReply(cfg, b, ev.now).Granted?
  }

  /** Whether the event starts a new counting window. */
  predicate Clears(cfg: Config, b: Breaker, ev: Event) {
    match ev
    case Allow(now) => WindowExpired(b, now)
    case Query(now) => WindowExpired(b, now) || (b.state == Open && b.expiry < now)
    case Report(_, _, ok) => ok && b.state == HalfOpen && cfg.maxRequests <= Inc32(b.counts.consecutiveSuccesses)
    case Trip(_) => false
    case Reset(_) => true
  }

  /** Whether the event calls setState. */
  predicate Sets(cfg: Config, b: Breaker, ev: Event) {
    match ev
    case Allow(_) => false
    case Query(now) => b.state == Open && b.expiry < now
    case Report(_, _, ok) =>
      if ok then b.state == HalfOpen && cfg.maxRequests <= Inc32(b.counts.consecutiveSuccesses)
      else b.state == HalfOpen || cfg.readyToTrip(CountFailure(b.counts))
    case Trip(_) => true
    case Reset(_) => true
  }

  function OutstandingAfter(cfg: Config, w: World, ev: Event): multiset<Time> {
    if Grants(cfg, w.b, ev) then w.outstanding + multiset{ev.now}
    else if ev.Report? then w.outstanding - multiset{ev.admitted}
    else w.outstanding
  }

  /** What an event gives the counters to count. */
  function MarksOf(cfg: Config, b: Breaker, ev: Event): (marks: seq<Mark>)
    ensures |marks| <= 1
  {
    if Grants(cfg, b, ev) then [Admission]
    else if ev.Report? then [if ev.ok then Success else Failure]
    else []
  }

  /** An expired window is cleared before the admission, a half-open one after the report. */
  function LogAfter(cfg: Config, w: World, ev: Event): seq<Mark> {
    if !Clears(cfg, w.b, ev) then w.log + MarksOf(cfg, w.b, ev)
    else if ev.Report? then []
    else MarksOf(cfg, w.b, ev)
  }

  /** The count of callbacks at the moment the window opened: before an admission, after a report. */
  function BaseAfter(cfg: Config, w: World, ev: Event): nat {
    if !Clears(cfg, w.b, ev) then w.base
    else if ev.Report? then |OutstandingAfter(cfg, w, ev)|
    else |w.outstanding|
  }

  function Step(cfg: Config, w: World, ev: Event): World {
    var b := AfterEvent(cfg, w.b, ev);
    World(
      b,
      OutstandingAfter(cfg, w, ev),
      LogAfter(cfg, w, ev),
      BaseAfter(cfg, w, ev),
      if Sets(cfg, w.b, ev) then w.sets + 1 else w.sets,
      if b.state != w.b.state then w.trace + [Note(w.b.state, b.state, ev, w.b.expiry)] else w.trace)
  }

  function Exec(cfg: Config, w: World, evs: seq<Event>): World
    decreases evs
  {
    if evs == [] then w else Exec(cfg, Step(cfg, w, evs[0]), evs[1..])
  }

  /** Every event can happen where the run reaches it; each callback is invoked at most once. */
  ghost predicate Runnable(cfg: Config, w: World, evs: seq<Event>)
    decreases evs
  {
    evs == [] || (Enabled(w, evs[0]) && Runnable(cfg, Step(cfg, w, evs[0]), evs[1..]))
  }

  /** Clock readings under one lock never decrease. */
  ghost predicate Ordered(evs: seq<Event>) {
    forall i, j :: 0 <= i < j < |evs| ==> evs[i].When() <= evs[j].When()
  }

  /** The state in which event number `k` of a run takes place. */
  function Before(cfg: Config, w: World, evs: seq<Event>, k: nat): World
    requires k <= |evs|
  {
    Exec(cfg, w, evs[..k])
  }

  lemma BeforeTail(cfg: Config, w: World, evs: seq<Event>, k: nat)
    requires 0 < k <= |evs|
    ensures Before(cfg, w, evs, k) == Before(cfg, Step(cfg, w, evs[0]), evs[1..], k - 1)
  {
    assert evs[..k][1..] == evs[1..][..k - 1];
  }

  /** The answers a run's `Allow` calls get. */
  ghost predicate AnswersAll(cfg: Config, w: World, evs: seq<Event>, reply: Reply) {
    forall k :: 0 <= k < |evs| && evs[k].Allow? ==>
                  AllowReply(cfg, Before(cfg, w, evs, k).b, evs[k].now) == reply
  }

  lemma AnswersAllCons(cfg: Config, w: World, evs: seq<Event>, reply: Reply)
    requires evs != []
    requires evs[0].Allow? ==> AllowReply(cfg, w.b, evs[0].now) == reply
    requires AnswersAll(cfg, Step(cfg, w, evs[0]), evs[1..], reply)
    ensures AnswersAll(cfg, w, evs, reply)
  {
    forall k | 0 <= k < |evs| && evs[k].Allow?
      ensures AllowReply(cfg, Before(cfg, w, evs, k).b, evs[k].now) == reply
    {
      if k > 0 {
        BeforeTail(cfg, w, evs, k);
        assert evs[1..][k - 1] == evs[k];
      }
    }
  }

  /** How many requests a run admits. */
  function Admissions(cfg: Config, w: World, evs: seq<Event>): nat
    decreases evs
  {
    if evs == [] then 0
    else (if Grants(cfg, w.b, evs[0]) then 1 else 0) + Admissions(cfg, Step(cfg, w, evs[0]), evs[1..])
  }

  /** A run that begins with two events. */
  lemma ExecPair(cfg: Config, w: World, first: Event, second: Event, rest: seq<Event>)
    ensures var v := Step(cfg, w, first);
            var u := Step(cfg, v, second);
            && Exec(cfg, w, [first, second] + rest) == Exec(cfg, u, rest)
            && (Runnable(cfg, w, [first, second] + rest) <==>
                Enabled(w, first) && Enabled(v, second) && Runnable(cfg, u, rest))
  {
  }
}
