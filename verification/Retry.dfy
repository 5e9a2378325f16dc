/** The retry loops, the waits between attempts, and the transport that uses them. */
module Retrying {
  import opened Words
  import opened Backends

  // ----- the loops -----

  /** What happens outside: the error of call k, whether the context is done when attempt k would
      start, and which errors are worth another attempt. */
  datatype Outside<!E> = Outside(outcome: nat -> Option<E>, cancelled: nat -> bool, retryable: E -> bool, ctxErr: E)

  /** How a loop went: its calls, its result, and what it told `OnRetry`. */
  datatype Course<E> = Course(calls: nat, err: Option<E>, notes: seq<(nat, E)>)

  /** Call k failed with an error that is retried, and the wait after it ended. */
  predicate GoesOn<E>(o: Outside<E>, k: nat) {
    o.outcome(k).Some? && o.retryable(o.outcome(k).value) && !o.cancelled(k + 1)
  }

  /** The documented behaviour: call until success, a permanent error, cancellation or exhaustion,
      and announce each further attempt with the error before it. */
  ghost predicate IsCourse<E>(o: Outside<E>, maxRetries: int, c: Course<E>) {
    if maxRetries < 0 then c == Course(0, None, [])
    else
      && 1 <= c.calls <= maxRetries + 1
      && (forall k: nat :: k < c.calls - 1 ==> GoesOn(o, k))
      && (c.calls <= maxRetries ==> !GoesOn(o, c.calls - 1))
      && c.err == LastWord(o, c.calls - 1, maxRetries)
      && |c.notes| == c.calls - 1
      && (forall k :: 0 <= k < |c.notes| ==> o.outcome(k).Some? && c.notes[k] == (k + 1, o.outcome(k).value))
  }

  /** The result when call `last` was the last. */
  function LastWord<E>(o: Outside<E>, last: nat, maxRetries: int): Option<E> {
    var e := o.outcome(last);
    if e.Some? && o.retryable(e.value) && last < maxRetries then Some(o.ctxErr) else e
  }

  /** That behaviour determines everything, so the two loops cannot differ. */
  lemma OneCourse<E>(o: Outside<E>, maxRetries: int, c: Course<E>, d: Course<E>)
    requires IsCourse(o, maxRetries, c) && IsCourse(o, maxRetries, d)
    ensures c == d
  {
    if 0 <= maxRetries {
      var i: nat, j: nat := c.calls - 1, d.calls - 1;
      assert i < j ==> GoesOn(o, i);
      assert j < i ==> GoesOn(o, j);
      assert c.notes == d.notes;
    }
  }

  /** The same in words, without the predicates: success, a permanent error and the last error of an
      exhausted loop come back as they are; a loop that stops otherwise was cancelled. */
  lemma CourseInWords<E>(o: Outside<E>, maxRetries: int, c: Course<E>)
    requires 0 <= maxRetries && IsCourse(o, maxRetries, c)
    ensures 1 <= c.calls <= maxRetries + 1
    ensures var e := o.outcome(c.calls - 1);
            && (e == None ==> c.err == None)
            && (e.Some? && (!o.retryable(e.value) || c.calls == maxRetries + 1) ==> c.err == e)
            && (e.Some? && o.retryable(e.value) && c.calls <= maxRetries ==>
                  o.cancelled(c.calls) && c.err == Some(o.ctxErr))
    ensures forall k: nat :: k < c.calls - 1 ==>
              && o.outcome(k).Some? && o.retryable(o.outcome(k).value) && !o.cancelled(k + 1)
              && k < |c.notes| && c.notes[k] == (k + 1, o.outcome(k).value)
    ensures |c.notes| == c.calls - 1
  {
    var last: nat := c.calls - 1;
    assert c.calls <= maxRetries ==> !GoesOn(o, last);
    forall k: nat | k < last
      ensures o.outcome(k).Some? && o.retryable(o.outcome(k).value) && !o.cancelled(k + 1)
      ensures c.notes[k] == (k + 1, o.outcome(k).value)
    {
      assert GoesOn(o, k);
    }
  }

  method Retry<E>(o: Outside<E>, maxRetries: int) returns (c: Course<E>)
    ensures IsCourse(o, maxRetries, c)
  {
    var lastErr: Option<E> := None;
    var notes: seq<(nat, E)> := [];
    var attempt: nat := 0;
    while attempt <= maxRetries
      invariant attempt <= maxRetries + 1 || (attempt == 0 && maxRetries < 0)
      invariant |notes| == if attempt == 0 then 0 else attempt - 1
      invariant forall k :: 0 <= k < |notes| ==> o.outcome(k).Some? && notes[k] == (k + 1, o.outcome(k).value)
      invariant forall k: nat :: k < attempt - 1 ==> GoesOn(o, k)
      invariant attempt == 0 ==> lastErr == None
      invariant 0 < attempt ==>
                  o.outcome(attempt - 1).Some? && lastErr == o.outcome(attempt - 1) && o.retryable(lastErr.value)
    {
      if 0 < attempt {
        if o.cancelled(attempt) {
          return Course(attempt, Some(o.ctxErr), notes);
        }
        notes := notes + [(attempt, lastErr.value)];
      }
      var err := o.outcome(attempt);
      if err.None? {
        return Course(attempt + 1, None, notes);
      }
      lastErr := err;
      if !o.retryable(err.value) {
        return Course(attempt + 1, err, notes);
      }
      attempt := attempt + 1;
    }
    return Course(attempt, lastErr, notes);
  }

  /** `data(k)` is what call k returns beside its error. */
  method RetryWithData<E, T>(o: Outside<E>, maxRetries: int, data: nat -> T, zero: T) returns (c: Course<E>, result: T)
    ensures IsCourse(o, maxRetries, c)
    ensures result == if 0 < c.calls && c.err.None? then data(c.calls - 1) else zero
  {
    result := zero;
    var lastErr: Option<E> := None;
    var notes: seq<(nat, E)> := [];
    var attempt: nat := 0;
    while attempt <= maxRetries
      invariant attempt <= maxRetries + 1 || (attempt == 0 && maxRetries < 0)
      invariant |notes| == if attempt == 0 then 0 else attempt - 1
      invariant forall k :: 0 <= k < |notes| ==> o.outcome(k).Some? && notes[k] == (k + 1, o.outcome(k).value)
      invariant forall k: nat :: k < attempt - 1 ==> GoesOn(o, k)
      invariant attempt == 0 ==> lastErr == None
      invariant 0 < attempt ==>
                  o.outcome(attempt - 1).Some? && lastErr == o.outcome(attempt - 1) && o.retryable(lastErr.value)
    {
      if 0 < attempt {
        if o.cancelled(attempt) {
          return Course(attempt, Some(o.ctxErr), notes), zero;
        }
        notes := notes + [(attempt, lastErr.value)];
      }
      var err := o.outcome(attempt);
      if err.None? {
        return Course(attempt + 1, None, notes), data(attempt);
      }
      lastErr := err;
      if !o.retryable(err.value) {
        return Course(attempt + 1, err, notes), zero;
      }
      attempt := attempt + 1;
    }
    return Course(attempt, lastErr, notes), zero;
  }

  // ----- the waits -----

  datatype Backoff = Backoff(initialInterval: real, maxInterval: real, multiplier: real, jitter: real)

  function Power(m: real, n: nat): real {
    if n == 0 then 1.0 else m * Power(m, n - 1)
  }

  /** The wait before attempt number `attempt`; `draw` is the random number from [0, 1). */
  function CalculateBackoff(attempt: nat, cfg: Backoff, draw: real): real {
    if attempt == 0 then 0.0
    else
      var plain := cfg.initialInterval * Power(cfg.multiplier, attempt - 1);
      var backoff := if 0.0 < cfg.jitter then plain + (draw * 2.0 - 1.0) * (plain * cfg.jitter) else plain;
      if backoff > cfg.maxInterval then cfg.maxInterval else backoff
  }

  lemma {:induction false} PowerNonNegative(m: real, n: nat)
    requires 0.0 <= m
    ensures 0.0 <= Power(m, n)
  {
    if n > 0 {
      PowerNonNegative(m, n - 1);
    }
  }

  lemma NonNegativeProduct(x: real, y: real)
    requires 0.0 <= x && 0.0 <= y
    ensures 0.0 <= x * y
  {
  }

  lemma Scaled(plain: real, jitter: real, draw: real)
    requires 0.0 <= plain && 0.0 <= jitter <= 1.0 && 0.0 <= draw < 1.0
    ensures 0.0 <= plain + (draw * 2.0 - 1.0) * (plain * jitter) <= (1.0 + jitter) * plain
    ensures (1.0 - jitter) * plain <= plain + (draw * 2.0 - 1.0) * (plain * jitter)
  {
    var x := plain * jitter;
    NonNegativeProduct(plain, jitter);
    NonNegativeProduct(plain, 1.0 - jitter);
    assert 0.0 <= x <= plain;
    var y := draw * 2.0 - 1.0;
    assert -x <= y * x <= x by {
      NonNegativeProduct(y + 1.0, x);
      NonNegativeProduct(1.0 - y, x);
    }
  }

  /** Each wait lies between the jittered exponential bounds, cut off at the cap. */
  lemma WaitBounds(attempt: nat, cfg: Backoff, draw: real)
    requires 1 <= attempt && 0.0 <= draw < 1.0
    requires 0.0 <= cfg.initialInterval && 0.0 <= cfg.maxInterval && 0.0 <= cfg.multiplier && 0.0 <= cfg.jitter <= 1.0
    ensures var wait := CalculateBackoff(attempt, cfg, draw);
            && 0.0 <= wait <= cfg.maxInterval
            && wait <= (1.0 + cfg.jitter) * (cfg.initialInterval * Power(cfg.multiplier, attempt - 1))
            && (wait == cfg.maxInterval ||
                wait >= (1.0 - cfg.jitter) * (cfg.initialInterval * Power(cfg.multiplier, attempt - 1)))
  {
    PowerNonNegative(cfg.multiplier, attempt - 1);
    var plain := cfg.initialInterval * Power(cfg.multiplier, attempt - 1);
    NonNegativeProduct(cfg.initialInterval, Power(cfg.multiplier, attempt - 1));
    Scaled(plain, cfg.jitter, draw);
    AddTimes(1.0, cfg.jitter, plain);
    NonNegativeProduct(cfg.jitter, plain);
    var backoff := if 0.0 < cfg.jitter then plain + (draw * 2.0 - 1.0) * (plain * cfg.jitter) else plain;
    assert (1.0 - cfg.jitter) * plain <= plain;
    assert 0.0 <= backoff <= (1.0 + cfg.jitter) * plain && (1.0 - cfg.jitter) * plain <= backoff;
  }

  function Capped(wait: real, cfg: Backoff): real {
    if wait > cfg.maxInterval then cfg.maxInterval else wait
  }

  /** How far a draw moves a wait that jitters by `x` either way. */
  function Shift(draw: real, x: real): real {
    (draw * 2.0 - 1.0) * x
  }

  lemma ShiftEnds(x: real)
    ensures Shift(0.0, x) == -x && Shift(0.5, x) == 0.0
  {
  }

  lemma ShiftGrows(draw: real, larger: real, x: real)
    requires draw < larger && 0.0 <= x
    ensures Shift(draw, x) <= Shift(larger, x) && (0.0 < x ==> Shift(draw, x) < Shift(larger, x))
  {
    NonNegativeProduct(larger - draw, x);
    if 0.0 < x {
      PositiveProduct(larger - draw, x);
    }
    ShiftIs(draw, x);
    ShiftIs(larger, x);
    hide Shift;
    AddTimes(larger - draw, draw, x);
  }

  lemma ShiftIs(draw: real, x: real)
    ensures Shift(draw, x) == 2.0 * (draw * x) - x
  {
  }

  lemma ShiftOfNone(draw: real)
    ensures Shift(draw, 0.0) == 0.0
  {
  }

  lemma WaitOfDraw(attempt: nat, cfg: Backoff, draw: real, plain: real, x: real)
    requires 1 <= attempt && 0.0 <= cfg.jitter
    requires plain == cfg.initialInterval * Power(cfg.multiplier, attempt - 1) && x == plain * cfg.jitter
    ensures CalculateBackoff(attempt, cfg, draw) == Capped(plain + Shift(draw, x), cfg)
  {
    hide Power;
    if cfg.jitter == 0.0 {
      assert x == 0.0;
      ShiftOfNone(draw);
    }
  }

  /** The exponential wait, without jitter and cap. */
  function Plain(attempt: nat, cfg: Backoff): real
    requires 1 <= attempt
  {
    cfg.initialInterval * Power(cfg.multiplier, attempt - 1)
  }

  /** A draw of 1/2 gives the exponential wait and 0 the least, each cut off at the cap. */
  lemma PlainWait(attempt: nat, cfg: Backoff)
    requires 1 <= attempt && 0.0 <= cfg.jitter
    ensures CalculateBackoff(attempt, cfg, 0.5) == Capped(Plain(attempt, cfg), cfg)
    ensures CalculateBackoff(attempt, cfg, 0.0) == Capped(Plain(attempt, cfg) - Plain(attempt, cfg) * cfg.jitter, cfg)
  {
    hide CalculateBackoff, Power, Shift;
    var plain := Plain(attempt, cfg);
    var x := plain * cfg.jitter;
    WaitOfDraw(attempt, cfg, 0.5, plain, x);
    WaitOfDraw(attempt, cfg, 0.0, plain, x);
    ShiftEnds(x);
    hide Plain;
    assert plain + Shift(0.0, x) == plain - x;
  }

  /** A larger draw never gives a shorter wait, and below the cap it gives a longer one. */
  lemma DrawMatters(attempt: nat, cfg: Backoff, draw: real, larger: real)
    requires 1 <= attempt && draw < larger
    requires 0.0 <= cfg.initialInterval && 0.0 <= cfg.multiplier && 0.0 <= cfg.jitter
    ensures CalculateBackoff(attempt, cfg, draw) <= CalculateBackoff(attempt, cfg, larger)
    ensures 0.0 < cfg.initialInterval && 0.0 < cfg.multiplier && 0.0 < cfg.jitter &&
            CalculateBackoff(attempt, cfg, larger) < cfg.maxInterval ==>
              CalculateBackoff(attempt, cfg, draw) < CalculateBackoff(attempt, cfg, larger)
  {
    hide CalculateBackoff, Power, Shift;
    var power := Power(cfg.multiplier, attempt - 1);
    var plain := cfg.initialInterval * power;
    var x := plain * cfg.jitter;
    PowerNonNegative(cfg.multiplier, attempt - 1);
    NonNegativeProduct(cfg.initialInterval, power);
    NonNegativeProduct(plain, cfg.jitter);
    if 0.0 < cfg.initialInterval && 0.0 < cfg.multiplier && 0.0 < cfg.jitter {
      PowerPositive(cfg.multiplier, attempt - 1);
      PositiveProduct(cfg.initialInterval, power);
      PositiveProduct(plain, cfg.jitter);
    }
    ShiftGrows(draw, larger, x);
    WaitOfDraw(attempt, cfg, draw, plain, x);
    WaitOfDraw(attempt, cfg, larger, plain, x);
  }

  lemma {:induction false} PowerPositive(m: real, n: nat)
    requires 0.0 < m
    ensures 0.0 < Power(m, n)
  {
    if n > 0 {
      PowerPositive(m, n - 1);
      PositiveProduct(m, Power(m, n - 1));
    }
  }

  lemma PositiveProduct(x: real, y: real)
    requires 0.0 < x && 0.0 < y
    ensures 0.0 < x * y
  {
  }

  /** All waits before attempts 1 to `n`, with the draws made for them. */
  function TotalWait(n: nat, cfg: Backoff, draws: nat -> real): real {
    if n == 0 then 0.0 else TotalWait(n - 1, cfg, draws) + CalculateBackoff(n, cfg, draws(n))
  }

  /** The sum of the powers 0 to n-1. */
  function Geometric(m: real, n: nat): real {
    if n == 0 then 0.0 else Geometric(m, n - 1) + Power(m, n - 1)
  }

  lemma AddTimes(x: real, y: real, z: real)
    ensures (x + y) * z == x * z + y * z
  {
  }

  lemma OneMoreTerm(a: real, b: real, x: real, y: real)
    ensures a * (b * (x + y)) == a * (b * x) + a * (b * y)
  {
  }

  /** The waits of a whole loop stay within a geometric series, whether it grows or shrinks, and
      within `n` times the cap. */
  lemma {:induction false} TotalWaitBounds(n: nat, cfg: Backoff, draws: nat -> real)
    requires forall k: nat :: 0.0 <= draws(k) < 1.0
    requires 0.0 <= cfg.initialInterval && 0.0 <= cfg.maxInterval && 0.0 <= cfg.multiplier && 0.0 <= cfg.jitter <= 1.0
    ensures 0.0 <= TotalWait(n, cfg, draws) <= n as real * cfg.maxInterval
    ensures TotalWait(n, cfg, draws) <= (1.0 + cfg.jitter) * (cfg.initialInterval * Geometric(cfg.multiplier, n))
  {
    hide CalculateBackoff, Power;
    if n > 0 {
      TotalWaitBounds(n - 1, cfg, draws);
      WaitBounds(n, cfg, draws(n));
      var m := cfg.multiplier;
      OneMoreTerm(1.0 + cfg.jitter, cfg.initialInterval, Geometric(m, n - 1), Power(m, n - 1));
      AddTimes((n - 1) as real, 1.0, cfg.maxInterval);
    }
  }

  lemma {:induction false} GeometricTimes(m: real, n: nat)
    ensures Geometric(m, n) * (m - 1.0) == Power(m, n) - 1.0
  {
    if n > 0 {
      GeometricTimes(m, n - 1);
      AddTimes(Geometric(m, n - 1), Power(m, n - 1), m - 1.0);
    }
  }

  lemma Quotient(x: real, y: real, z: real)
    requires y != 0.0 && x * y == z
    ensures x == z / y
  {
  }

  /** The series in closed form. */
  lemma {:induction false} GeometricSum(m: real, n: nat)
    ensures Geometric(m, n) == if m == 1.0 then n as real else (Power(m, n) - 1.0) / (m - 1.0)
  {
    hide Power;
    if m != 1.0 {
      hide Geometric;
      GeometricTimes(m, n);
      Quotient(Geometric(m, n), m - 1.0, Power(m, n) - 1.0);
    } else if n > 0 {
      GeometricSum(m, n - 1);
      PowerOfOne(n - 1);
    }
  }

  lemma {:induction false} PowerOfOne(n: nat)
    ensures Power(1.0, n) == 1.0
  {
    if n > 0 {
      PowerOfOne(n - 1);
    }
  }

  // ----- the counting transport -----

  /** One round trip of the base transport. */
  datatype Trip = Broken | Answered(status: int)

  predicate Retried(t: Trip) {
    t.Broken? || 502 <= t.status <= 504
  }

  /** The methods the transport repeats. */
  predicate Repeats(verb: string) {
    verb == "GET" || verb == "HEAD" || verb == "OPTIONS"
  }

  /** Section 9.2.2 of RFC 9110: the safe methods, PUT and DELETE are idempotent. */
  predicate Idempotent(verb: string) {
    verb in {"GET", "HEAD", "OPTIONS", "TRACE", "PUT", "DELETE"}
  }

  datatype Failure = TripFailed | ContextDone

  function TripOutcome(t: Trip): Option<Failure> {
    if Retried(t) then Some(TripFailed) else None
  }

  /** `RoundTrip` for a selected backend. Repeating is confined to idempotent methods; however many
      trips are made, the backend is counted once and its connection is given back. A repeatable
      request fails exactly when its last trip was broken or answered 502 to 504. */
  method RoundTrip(be: Backend, verb: string, base: nat -> Trip, cancelled: nat -> bool)
    returns (resp: Option<int>, failed: bool, trips: nat)
    modifies be
    ensures be.connections == old(be.connections) && be.totalRequests == old(be.totalRequests) + 1
    ensures 1 <= trips <= 3
    ensures 1 < trips ==> verb in {"GET", "HEAD", "OPTIONS"} && Idempotent(verb)
    ensures forall k: nat :: k < trips - 1 ==> base(k).Broken? || 502 <= base(k).status <= 504
    ensures resp == if base(trips - 1).Answered? && !failed then Some(base(trips - 1).status) else None
    ensures failed <==> base(trips - 1).Broken? ||
                        (verb in {"GET", "HEAD", "OPTIONS"} && 502 <= base(trips - 1).status <= 504)
    ensures verb in {"GET", "HEAD", "OPTIONS"} && failed && trips < 3 ==> cancelled(trips)
  {
    be.IncrementConn();
    if Repeats(verb) {
      var o := Outside((k: nat) => TripOutcome(base(k)), cancelled, (e: Failure) => true, ContextDone);
      var data := (k: nat) => if base(k).Answered? then Some(base(k).status) else None;
      var c: Course<Failure>;
      c, resp := RetryWithData(o, 2, data, None);
      failed, trips := c.err.Some?, c.calls;
      forall k: nat | k < trips - 1
        ensures Retried(base(k))
      {
        assert GoesOn(o, k);
      }
      assert c.calls <= 2 ==> !GoesOn(o, c.calls - 1);
    } else {
      trips := 1;
      var t := base(0);
      failed := t.Broken?;
      resp := if t.Answered? then Some(t.status) else None;
    }
    be.DecrementConn();
  }
}
