/** What every call keeps true of a breaker, and what that says about its counters and its trace. */
module BreakerInvariant {
  import opened Words
  import opened BreakerSpec

  // ----- reading the counters off the log -----

  function Occurs(log: seq<Mark>, m: Mark): nat {
    if log == [] then 0
    else Occurs(log[..|log| - 1], m) + if log[|log| - 1] == m then 1 else 0
  }

  /** The log without its admissions. */
  function Outcomes(log: seq<Mark>): seq<Mark> {
    if log == [] then []
    else Outcomes(log[..|log| - 1]) + if log[|log| - 1].Admission? then [] else [log[|log| - 1]]
  }

  /** How many times `m` occurs at the end of `s` without interruption. */
  function TrailingRun(s: seq<Mark>, m: Mark): nat {
    if s != [] && s[|s| - 1] == m then 1 + TrailingRun(s[..|s| - 1], m) else 0
  }

  /** The run is the longest suffix made of `m` alone. */
  lemma {:induction false} TrailingRunIsLongest(s: seq<Mark>, m: Mark)
    ensures var k := TrailingRun(s, m);
            && k <= |s|
            && (forall i :: |s| - k <= i < |s| ==> s[i] == m)
            && (k < |s| ==> s[|s| - k - 1] != m)
  {
    if s != [] && s[|s| - 1] == m {
      TrailingRunIsLongest(s[..|s| - 1], m);
    }
  }

  /** What a mark does to the counters. */
  function Recorded(c: Counts, m: Mark): Counts {
    match m
    case Admission => c.(requests := Inc32(c.requests))
    case Success => CountSuccess(c)
    case Failure => CountFailure(c)
  }

  /** The counters after the marks of a log. */
  function Tally(log: seq<Mark>): Counts {
    if log == [] then NO_COUNTS else Recorded(Tally(log[..|log| - 1]), log[|log| - 1])
  }

  /** What a log amounts to: occurrences and trailing runs, modulo 2^32. */
  function Summary(log: seq<Mark>): Counts {
    Counts(
      Wrap32(Occurs(log, Admission)),
      Wrap32(Occurs(log, Success)),
      Wrap32(Occurs(log, Failure)),
      Wrap32(TrailingRun(Outcomes(log), Success)),
      Wrap32(TrailingRun(Outcomes(log), Failure)))
  }

  /** How far a log's admissions exceed its reports. */
  function Balance(log: seq<Mark>): int {
    if log == [] then 0
    else Balance(log[..|log| - 1]) + if log[|log| - 1].Admission? then 1 else -1
  }

  lemma {:induction false} BalanceIsDifference(log: seq<Mark>)
    ensures Balance(log) == Occurs(log, Admission) - Occurs(log, Success) - Occurs(log, Failure)
  {
    if log != [] {
      BalanceIsDifference(log[..|log| - 1]);
    }
  }

  lemma BalanceAppend(log: seq<Mark>, marks: seq<Mark>)
    requires |marks| <= 1
    ensures Balance(log + marks) == Balance(log) + Balance(marks)
  {
    if marks == [] {
      assert log + marks == log;
    } else {
      assert (log + marks)[..|log|] == log && marks[..0] == [];
    }
  }

  lemma WrapNext(n: nat)
    ensures Wrap32(n + 1) == Inc32(Wrap32(n))
  {
  }

  lemma WrapSmall(n: nat)
    requires n < TWO32
    ensures Wrap32(n) == n
  {
  }

  lemma OccursAppend(log: seq<Mark>, m: Mark, n: Mark)
    ensures Occurs(log + [m], n) == if m == n then Occurs(log, n) + 1 else Occurs(log, n)
  {
  }

  lemma RunAppend(log: seq<Mark>, m: Mark, n: Mark)
    requires n != Admission
    ensures TrailingRun(Outcomes(log + [m]), n) ==
            if m == n then TrailingRun(Outcomes(log), n) + 1
            else if m == Admission then TrailingRun(Outcomes(log), n)
            else 0
  {
    assert (log + [m])[..|log|] == log;
    var s := Outcomes(log);
    if m == Admission {
      assert s + [] == s;
    } else {
      assert (s + [m])[..|s|] == s;
    }
  }

  lemma SummaryAppend(log: seq<Mark>, m: Mark)
    ensures Summary(log + [m]) == Recorded(Summary(log), m)
  {
    hide Wrap32, Inc32, Occurs, Outcomes, TrailingRun;
    OccursAppend(log, m, Admission);
    OccursAppend(log, m, Success);
    OccursAppend(log, m, Failure);
    RunAppend(log, m, Success);
    RunAppend(log, m, Failure);
    WrapNext(Occurs(log, m));
    WrapNext(TrailingRun(Outcomes(log), m));
    WrapSmall(0);
  }

  /** The counters are what the log amounts to. */
  lemma {:induction false} TallyIsSummary(log: seq<Mark>)
    ensures Tally(log) == Summary(log)
  {
    if log != [] {
      var prefix := log[..|log| - 1];
      TallyIsSummary(prefix);
      SummaryAppend(prefix, log[|log| - 1]);
      assert prefix + [log[|log| - 1]] == log;
      hide Summary, Recorded;
    }
  }

  lemma TallyAppend(log: seq<Mark>, m: Mark)
    ensures Tally(log + [m]) == Recorded(Tally(log), m)
  {
  }

  // ----- the notification trace -----

  /** The state changes the code can make, each with the only call that makes it. */
  ghost predicate Legal(n: Note) {
    match (n.from, n.to)
    case (Closed, Open) => n.cause.Trip? || (n.cause.Report? && !n.cause.ok)
    case (Open, HalfOpen) => n.cause.Query? && n.deadline < n.cause.now
    case (Open, Closed) => n.cause.Reset?
    case (HalfOpen, Open) => n.cause.Trip? || (n.cause.Report? && !n.cause.ok)
    case (HalfOpen, Closed) => n.cause.Reset? || (n.cause.Report? && n.cause.ok)
    case _ => false
  }

  /** The trace is a path of legal changes from Closed to `s`. */
  ghost predicate Leads(trace: seq<Note>, s: State) {
    if trace == [] then s == Closed
    else
      var last := trace[|trace| - 1];
      Legal(last) && last.to == s && Leads(trace[..|trace| - 1], last.from)
  }

  // ----- the invariant -----

  ghost predicate HalfOpenInv(cfg: Config, w: World) {
    var c := w.b.counts;
    && c.totalFailures == c.consecutiveFailures == 0
    && c.consecutiveSuccesses == c.totalSuccesses < cfg.maxRequests
    && c.requests <= cfg.maxRequests
    && c.requests <= c.totalSuccesses + |w.outstanding|
  }

  ghost predicate Conserved(w: World) {
    |w.outstanding| == w.base + Balance(w.log)
  }

  ghost predicate Inv(cfg: Config, w: World) {
    && w.b.counts == Tally(w.log)
    && Conserved(w)
    && (w.b.state == HalfOpen ==> HalfOpenInv(cfg, w))
    && Leads(w.trace, w.b.state)
  }

  /** How the marks of an event reach the counters. */
  lemma CountsAfter(cfg: Config, b: Breaker, ev: Event)
    ensures var start := if Clears(cfg, b, ev) then NO_COUNTS else b.counts;
            AfterEvent(cfg, b, ev).counts ==
            if Clears(cfg, b, ev) && ev.Report? then NO_COUNTS
            else if MarksOf(cfg, b, ev) == [] then start
            else Recorded(start, MarksOf(cfg, b, ev)[0])
  {
  }

  lemma TallyStep(cfg: Config, w: World, ev: Event)
    requires w.b.counts == Tally(w.log)
    ensures AfterEvent(cfg, w.b, ev).counts == Tally(LogAfter(cfg, w, ev))
  {
    CountsAfter(cfg, w.b, ev);
    var marks := MarksOf(cfg, w.b, ev);
    if marks == [] {
      assert w.log + [] == w.log;
    } else {
      assert marks == [marks[0]] && [] + marks == marks;
      TallyAppend(w.log, marks[0]);
      TallyAppend([], marks[0]);
    }
  }

  /** Each mark is one callback made or invoked. */
  lemma OutstandingMoves(cfg: Config, w: World, ev: Event)
    requires Enabled(w, ev)
    ensures |OutstandingAfter(cfg, w, ev)| == |w.outstanding| + Balance(MarksOf(cfg, w.b, ev))
  {
  }

  lemma BalanceOfLog(cfg: Config, w: World, ev: Event)
    ensures Balance(LogAfter(cfg, w, ev)) ==
            if !Clears(cfg, w.b, ev) then Balance(w.log) + Balance(MarksOf(cfg, w.b, ev))
            else if ev.Report? then 0
            else Balance(MarksOf(cfg, w.b, ev))
  {
    hide Clears, MarksOf;
    BalanceAppend(w.log, MarksOf(cfg, w.b, ev));
  }

  lemma ConservedStep(cfg: Config, w: World, ev: Event)
    requires Conserved(w) && Enabled(w, ev)
    ensures Conserved(Step(cfg, w, ev))
  {
    OutstandingMoves(cfg, w, ev);
    BalanceOfLog(cfg, w, ev);
    hide AfterEvent, Clears, Sets, OutstandingAfter, LogAfter, MarksOf, Balance, Grants;
  }

  lemma HalfOpenStep(cfg: Config, w: World, ev: Event)
    requires cfg.Valid() && Enabled(w, ev)
    requires w.b.state == HalfOpen ==> HalfOpenInv(cfg, w)
    ensures var v := Step(cfg, w, ev); v.b.state == HalfOpen ==> HalfOpenInv(cfg, v)
  {
  }

  lemma LegalStep(cfg: Config, w: World, ev: Event)
    ensures var v := Step(cfg, w, ev); v.b.state != w.b.state ==> Legal(Note(w.b.state, v.b.state, ev, w.b.expiry))
  {
  }

  lemma TraceStep(cfg: Config, w: World, ev: Event)
    requires Leads(w.trace, w.b.state)
    ensures var v := Step(cfg, w, ev); Leads(v.trace, v.b.state)
  {
    LegalStep(cfg, w, ev);
    var n := Note(w.b.state, Step(cfg, w, ev).b.state, ev, w.b.expiry);
    assert (w.trace + [n])[..|w.trace|] == w.trace;
  }

  lemma InvStep(cfg: Config, w: World, ev: Event)
    requires cfg.Valid() && Inv(cfg, w) && Enabled(w, ev)
    ensures Inv(cfg, Step(cfg, w, ev))
  {
    TallyStep(cfg, w, ev);
    ConservedStep(cfg, w, ev);
    HalfOpenStep(cfg, w, ev);
    TraceStep(cfg, w, ev);
    hide AfterEvent, Clears, Sets, OutstandingAfter, LogAfter, BaseAfter;
  }

  /** Every run keeps the invariant. */
  lemma {:induction false} InvRun(cfg: Config, w: World, evs: seq<Event>)
    requires cfg.Valid() && Inv(cfg, w) && Runnable(cfg, w, evs)
    ensures Inv(cfg, Exec(cfg, w, evs))
    decreases evs
  {
    hide Step, Inv;
    if evs != [] {
      InvStep(cfg, w, evs[0]);
      InvRun(cfg, Step(cfg, w, evs[0]), evs[1..]);
    }
  }

  /** The invariant holds wherever a run of a new breaker leads. */
  lemma Reachable(cfg: Config, evs: seq<Event>)
    requires cfg.Valid() && Runnable(cfg, NEW_WORLD, evs)
    ensures Inv(cfg, Exec(cfg, NEW_WORLD, evs))
  {
    InvRun(cfg, NEW_WORLD, evs);
  }

  lemma WrapNext64(n: nat)
    ensures Inc64(Wrap64(n)) == Wrap64(n + 1)
  {
  }

  lemma GenerationStep(cfg: Config, w: World, ev: Event)
    requires w.b.generation == Wrap64(w.sets)
    ensures Step(cfg, w, ev).b.generation == Wrap64(Step(cfg, w, ev).sets)
  {
    hide Wrap64, Inc64, Inc32;
    WrapNext64(w.sets);
  }

  /** `generation` counts the calls of setState, modulo 2^64. */
  lemma {:induction false} GenerationCountsSets(cfg: Config, w: World, evs: seq<Event>)
    requires w.b.generation == Wrap64(w.sets)
    ensures Exec(cfg, w, evs).b.generation == Wrap64(Exec(cfg, w, evs).sets)
    decreases evs
  {
    hide Step, Wrap64;
    if evs != [] {
      GenerationStep(cfg, w, evs[0]);
      GenerationCountsSets(cfg, Step(cfg, w, evs[0]), evs[1..]);
    }
  }

  lemma {:induction false} LeadsInOrder(trace: seq<Note>, s: State)
    requires Leads(trace, s)
    ensures forall i :: 0 <= i < |trace| ==> Legal(trace[i])
    ensures forall i :: 0 < i < |trace| ==> trace[i].from == trace[i - 1].to
    ensures if trace == [] then s == Closed else trace[0].from == Closed && trace[|trace| - 1].to == s
  {
    if trace != [] {
      var front, last := trace[..|trace| - 1], trace[|trace| - 1];
      LeadsInOrder(front, last.from);
      forall i | 0 <= i < |trace|
        ensures Legal(trace[i])
        ensures 0 < i ==> trace[i].from == trace[i - 1].to
      {
        if i < |front| {
          assert trace[i] == front[i] && (0 < i ==> trace[i - 1] == front[i - 1]);
        }
      }
    }
  }

  /** In every run the notifications are legal changes that chain from Closed to the current state,
      and the generation counts the calls of setState. */
  lemma NotificationTrace(cfg: Config, evs: seq<Event>)
    requires cfg.Valid() && Runnable(cfg, NEW_WORLD, evs)
    ensures var w := Exec(cfg, NEW_WORLD, evs);
            && (forall i :: 0 <= i < |w.trace| ==> Legal(w.trace[i]))
            && (forall i :: 0 < i < |w.trace| ==> w.trace[i].from == w.trace[i - 1].to)
            && (if w.trace == [] then w.b.state == Closed
                else w.trace[0].from == Closed && w.trace[|w.trace| - 1].to == w.b.state)
            && w.b.generation == Wrap64(w.sets)
  {
    hide Exec, Step, Runnable, Legal, Wrap64, Tally, HalfOpenInv, Conserved;
    Reachable(cfg, evs);
    LeadsInOrder(Exec(cfg, NEW_WORLD, evs).trace, Exec(cfg, NEW_WORLD, evs).b.state);
    assert NEW_WORLD.b.generation == Wrap64(NEW_WORLD.sets) by {
      NoSetsYet();
    }
    GenerationCountsSets(cfg, NEW_WORLD, evs);
  }

  lemma NoSetsYet()
    ensures NEW_WORLD.b.generation == Wrap64(NEW_WORLD.sets)
  {
  }
}
