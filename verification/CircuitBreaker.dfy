/** The `Breaker` object and the `Manager` that owns one per host. */
module CircuitBreakers {
  import opened Words
  import opened BreakerSpec
  import opened BreakerInvariant

  /** What a caller passes to `NewBreaker`, before the zero values are replaced. */
  datatype Settings = Settings(maxRequests: Uint32, interval: Time, timeout: Time, readyToTrip: Option<Counts -> bool>)

  /** A setting that is missing becomes that of `DefaultConfig`. */
  function Normalised(s: Settings): (cfg: Config)
    ensures cfg.Valid()
    ensures cfg.maxRequests == s.maxRequests || (s.maxRequests == 0 && cfg.maxRequests == DEFAULT_CONFIG.maxRequests)
    ensures cfg.interval == s.interval || (s.interval <= 0 && cfg.interval == DEFAULT_CONFIG.interval)
    ensures cfg.timeout == s.timeout || (s.timeout <= 0 && cfg.timeout == DEFAULT_CONFIG.timeout)
    ensures cfg.readyToTrip == if s.readyToTrip.Some? then s.readyToTrip.value else DEFAULT_CONFIG.readyToTrip
  {
    Config(
      if s.maxRequests == 0 then 3 else s.maxRequests,
      if s.interval <= 0 then 30 * SECOND else s.interval,
      if s.timeout <= 0 then 10 * SECOND else s.timeout,
      if s.readyToTrip.None? then DefaultReadyToTrip else s.readyToTrip.value)
  }

  class CircuitBreaker {
    const name: string
    const cfg: Config
    var state: State
    var generation: Uint64
    var counts: Counts
    var expiry: Time
    var notified: seq<(State, State)> // the calls made to OnStateChange
    ghost var world: World

    ghost function Fields(): BreakerSpec.Breaker
      reads this
    {
      BreakerSpec.Breaker(state, generation, counts, expiry)
    }

    /** The object is where its history of calls has led the state machine. */
    ghost predicate Valid()
      reads this
    {
      && cfg.Valid()
      && Fields() == world.b
      && Inv(cfg, world)
      && |notified| == |world.trace|
      && forall i :: 0 <= i < |notified| ==> notified[i] == (world.trace[i].from, world.trace[i].to)
    }

    constructor (name: string, settings: Settings)
      ensures Valid() && this.name == name && cfg == Normalised(settings) && world == NEW_WORLD
    {
      this.name := name;
      cfg := Normalised(settings);
      state, generation, counts, expiry, notified := Closed, 0, NO_COUNTS, ZERO_TIME, [];
      world := NEW_WORLD;
    }

    method CurrentState(now: Time) returns (s: State)
      modifies `counts
      ensures s == Observed(old(Fields()), now)
      ensures Fields() == Settled(old(Fields()), now)
    {
      if state == Closed {
        if expiry != ZERO_TIME && expiry < now {
          counts := NO_COUNTS;
        }
      } else if state == Open {
        if expiry < now {
          return HalfOpen;
        }
      }
      return state;
    }

    method SetState(to: State, now: Time)
      modifies `state, `generation, `counts, `expiry, `notified
      ensures Fields() == BreakerSpec.SetState(cfg, old(Fields()), to, now)
      ensures notified == if old(state) != to then old(notified) + [(old(state), to)] else old(notified)
      ensures state == to && counts == if to == Open then old(counts) else NO_COUNTS
      ensures expiry == if to == Open then now + cfg.timeout else if to == Closed then now + cfg.interval else ZERO_TIME
    {
      if state != to {
        notified := notified + [(state, to)];
      }
      state := to;
      generation := Inc64(generation);
      match to
      case Closed =>
        counts := NO_COUNTS;
        expiry := now + cfg.interval;
      case Open =>
        expiry := now + cfg.timeout;
      case HalfOpen =>
        counts := NO_COUNTS;
        expiry := ZERO_TIME;
    }

    /** Carries the ghost history over one event whose effect on the fields is already done. */
    ghost method Record(ev: Event)
      requires cfg.Valid() && Inv(cfg, world) && Enabled(world, ev)
      requires Fields() == AfterEvent(cfg, world.b, ev)
      requires |world.trace| <= |notified|
      requires forall i :: 0 <= i < |world.trace| ==> notified[i] == (world.trace[i].from, world.trace[i].to)
      requires notified[|world.trace|..] == if state != world.b.state then [(world.b.state, state)] else []
      modifies `world
      ensures Valid() && world == Step(cfg, old(world), ev)
    {
      hide AfterEvent, Clears, Sets, OutstandingAfter, LogAfter, BaseAfter, Inv;
      InvStep(cfg, world, ev);
      assert forall i :: |world.trace| <= i < |notified| ==>
                           notified[i] == notified[|world.trace|..][i - |world.trace|];
      world := Step(cfg, world, ev);
    }

    /** `State` is the only call that commits half-open. */
    method Query(now: Time) returns (s: State)
      requires Valid() && ZERO_TIME < now
      modifies this
      ensures Valid() && world == Step(cfg, old(world), Event.Query(now))
      ensures s == state
      ensures s == if old(state) == Open && old(expiry) < now then HalfOpen else old(state)
      ensures var over := old(state) != HalfOpen && old(expiry) < now && !(old(state) == Closed && old(expiry) == ZERO_TIME);
              counts == if over then NO_COUNTS else old(counts)
    {
      s := CurrentState(now);
      if s != state {
        SetState(s, now);
      }
      Record(Event.Query(now));
    }

    /** The callback that the code returns is `OnResult` applied to `now`. */
    method Allow(now: Time) returns (reply: Reply)
      requires Valid() && ZERO_TIME < now
      modifies this
      ensures Valid() && world == Step(cfg, old(world), Event.Allow(now))
      ensures reply == AllowReply(cfg, old(world.b), now)
      ensures state == old(state) && expiry == old(expiry)
      ensures old(state) == Closed ==> reply == Granted
      ensures var over := old(state) == Closed && old(expiry) != ZERO_TIME && old(expiry) < now;
              var c := if over then NO_COUNTS else old(counts);
              counts == if reply == Granted then c.(requests := Inc32(c.requests)) else old(counts)
      ensures reply == CircuitOpen <==> old(state) == Open && now <= old(expiry)
      ensures reply == TooManyRequests <==>
              || (old(state) == HalfOpen && cfg.maxRequests <= old(counts.requests))
              || (old(state) == Open && old(expiry) < now && cfg.maxRequests <= old(counts.requests))
    {
      var s := CurrentState(now);
      if s == Open {
        reply := CircuitOpen;
      } else if s == HalfOpen && cfg.maxRequests <= counts.requests {
        reply := TooManyRequests;
      } else {
        counts := counts.(requests := Inc32(counts.requests));
        reply := Granted;
      }
      Record(Event.Allow(now));
    }

    /** The callback of the request admitted at `admitted`, invoked at clock time `at`. */
    method OnResult(ok: bool, admitted: Time, ghost at: Time)
      requires Valid() && ZERO_TIME < at && admitted in world.outstanding
      modifies this
      ensures Valid() && world == Step(cfg, old(world), Report(at, admitted, ok))
    {
      if ok {
        OnSuccess(admitted);
      } else {
        OnFailure(admitted);
      }
      Record(Report(at, admitted, ok));
    }

    method OnSuccess(now: Time)
      modifies `state, `generation, `counts, `expiry, `notified
      ensures Fields() == AfterResult(cfg, old(Fields()), true, now)
      ensures notified == if old(state) != state then old(notified) + [(old(state), state)] else old(notified)
    {
      counts := counts.(totalSuccesses := Inc32(counts.totalSuccesses));
      counts := counts.(consecutiveSuccesses := Inc32(counts.consecutiveSuccesses));
      counts := counts.(consecutiveFailures := 0);
      if state == HalfOpen && cfg.maxRequests <= counts.consecutiveSuccesses {
        SetState(Closed, now);
      }
    }

    method OnFailure(now: Time)
      modifies `state, `generation, `counts, `expiry, `notified
      ensures Fields() == AfterResult(cfg, old(Fields()), false, now)
      ensures notified == if old(state) != state then old(notified) + [(old(state), state)] else old(notified)
    {
      counts := counts.(totalFailures := Inc32(counts.totalFailures));
      counts := counts.(consecutiveFailures := Inc32(counts.consecutiveFailures));
      counts := counts.(consecutiveSuccesses := 0);
      if state == HalfOpen {
        SetState(Open, now);
        return;
      }
      if cfg.readyToTrip(counts) {
        SetState(Open, now);
      }
    }

    method TripManually(now: Time)
      requires Valid() && ZERO_TIME < now
      modifies this
      ensures Valid() && world == Step(cfg, old(world), Trip(now))
    {
      SetState(Open, now);
      Record(Trip(now));
    }

    method ResetManually(now: Time)
      requires Valid() && ZERO_TIME < now
      modifies this
      ensures Valid() && world == Step(cfg, old(world), Reset(now))
    {
      SetState(Closed, now);
      Record(Reset(now));
    }
  }

  class Manager {
    const settings: Settings
    var breakers: map<string, CircuitBreaker>

    /** Each breaker bears the name it is found under, so no two names share one. */
    ghost predicate Valid()
      reads this, breakers.Values
    {
      forall n :: n in breakers ==>
                    breakers[n].Valid() && breakers[n].name == n && breakers[n].cfg == Normalised(settings)
    }

    /** The state machines of all hosts that have a breaker. */
    ghost function View(): map<string, World>
      reads this, breakers.Values
    {
      map n | n in breakers :: breakers[n].world
    }

    constructor (settings: Settings)
      ensures Valid() && breakers == map[] && this.settings == settings
    {
      this.settings := settings;
      breakers := map[];
    }

    /** The double-checked creation, called by one thread: the second look-up sees the first. */
    method GetBreaker(name: string) returns (cb: CircuitBreaker)
      requires Valid()
      modifies `breakers
      ensures Valid() && name in breakers && breakers[name] == cb
      ensures name in old(breakers) ==> breakers == old(breakers)
      ensures name !in old(breakers) ==>
                breakers == old(breakers)[name := cb] && fresh(cb) && cb.world == NEW_WORLD
    {
      if name in breakers {
        return breakers[name];
      }
      cb := new CircuitBreaker(name, settings);
      breakers := breakers[name := cb];
    }

    method RemoveBreaker(name: string)
      requires Valid()
      modifies `breakers
      ensures Valid() && breakers == old(breakers) - {name}
    {
      breakers := breakers - {name};
    }
  }
}
