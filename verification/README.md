# Load balancer: consistent hashing, circuit breaking and request accounting

This project models the resilience core of the load balancer and proves what it keeps and what it
promises. It has three parts.

**The consistent-hash ring** (`Ring`, `Fingerprint`, `ConsistentHash`, `RingRuns`). `Ring.Owner` is the plain
definition of ownership: the nearest virtual node clockwise on the circle of 2^32 hashes, the last
writer owning a collided point. `ConsistentHash` is the object of the program, with its array, map and
fingerprint, its nested build loops, a sort and the binary search; it is proved to compute `Owner`.
Minimal disruption is proved for `Owner` and carried over to the cached ring. `RingRuns` lets any
number of goroutines interleave at each lock acquisition. The hash function is a parameter, so every
result holds for FNV-1a and for every other hash.

**The circuit breaker** (`Breaker`, `BreakerInvariant`, `BreakerRuns`, `CircuitBreaker`). The functions in
`Breaker` follow the code call by call. A `World` adds the callbacks handed out and not yet invoked, the
marks since the counters were last cleared, and the notifications sent. Events carry clock readings,
and a callback is a late `Report` that brings its admission time with it. The class `CircuitBreaker` has
the program's fields; each of its methods is proved to make exactly the step of the state machine, so
every theorem about runs is one about the object.

**The request path** (`Failover`, `Traffic`, `ManagerRuns`, `Strategies`, `Retry`). Selection with
fallback and the accounting of one request are methods on the objects. `Traffic` runs all requests,
health probes and admin calls of the process together, one atomic operation at a time.

## What the proofs found

- The documentation promises recovery from an open breaker after `Timeout`. `Allow` computes half-open
  but never commits it; only `State` does, and only the admin endpoint calls `State`. A breaker stays
  open exactly while it is not reset and every `State` call comes no later than the expiry then in
  force: `BreakerRuns.OpenExactly`. With the default settings three failed requests therefore shut a new
  host out for good: `BreakerRuns.ThreeFailuresLockOut`. One `State` call after the expiry and
  `MaxRequests` successes always lead back to Closed: `BreakerRuns.Recovers`.
- A closed window that has run out is cleared by every later `Allow`, because its expiry is never
  renewed. Serial failures trip a breaker if and only if the third comes by the expiry of its window, or
  the window has none: `BreakerRuns.SerialFailuresTrip`. Later than `Interval` after a reset no number of
  them does: `BreakerRuns.SerialFailuresNeverTripAgain`.
- The hold time of an open breaker is counted from the admission of the failing request. With reports
  up to D late it is `Timeout - D`, and under any settings, the default ones included, that bound is
  tight: `BreakerRuns.OpenHoldTime`, `BreakerRuns.HoldTimeIsTight`.
- The fingerprint of the backend list is a polynomial in 31 modulo 2^64 over all URL bytes. It tells
  apart lists whose joined URLs differ in one byte, and losing the first backends of a list goes
  unnoticed only if these alone come to 0 (`Fingerprints.OneByteChanges`, `Fingerprints.LosingTheFirst`).
  It collides for URLs that differ in `Aa` against `BB`, and a dead
  backend is then served for every key, call after call: `RingRuns.DeadBackendIsServed`.
  `RingRuns.CacheAgreement` says exactly when the cached ring is right for all keys and
  `RingRuns.ServedByOwner` when it is right for one. A key keeps the backend that the installed ring
  gives it while only other backends of that ring go down (`RingRuns.AffinitySurvives`); on a stale ring
  that need not be its owner among the healthy backends.
- `Retry` with a negative `MaxRetries` succeeds without calling anything (`Retrying.IsCourse`).
- A `WeightedRoundRobin` counter that has wrapped to a negative number sends every request to the first
  backend: `Strategies.WrappedPicksFirst`. A period gives every backend its weight if and only if it
  begins with a non-negative counter or there is one backend: `Strategies.FairExactly`.
- `LeastConnections` uses -1 for "none yet". It misses the first least loaded backend exactly when the
  smallest load is -1 and stands before the last backend: `Strategies.ScanExactly`.
  `Traffic.CountersConserve` shows that no load becomes negative.

## Model

| member | source | states |
|---|---|---|
| Ring.NearestIsNearest | internal/balancer/consistent_hash.go:112-129 | the brute-force scan returns the point at least clockwise distance, and of several at that distance the last written |
| Ring.OwnerIsNearest | internal/balancer/consistent_hash.go:112-129 | the owner is the backend of the virtual node whose string url#i hashes nearest clockwise, the last written of several |
| Ring.MinimalDisruption | internal/balancer/consistent_hash.go:83-129 | whatever set of backends goes down, a key whose owner survives keeps its owner, also when virtual nodes collide |
| Ring.OnlyTheChangedBackendMoves | ARCHITECTURE.md:47-51 | bringing a backend up anywhere in the pool order moves keys to it only; taking it down moves only its keys |
| Ring.PointsOfKept | internal/balancer/pool.go:45-57 | because the healthy list keeps pool order, dropping backends from it just drops their virtual nodes from the write sequence |
| Ring.PointOfVirtualNode | internal/balancer/consistent_hash.go:90-96 | virtual node i of a backend is written at the hash of its own url#i, in pool order |
| Ring.VirtualKeysAreDistinct | internal/balancer/consistent_hash.go:90-93 | no two virtual nodes, of one backend or of two, hash the same string, so only the hash function makes points collide |
| Ring.DecimalRoundTrip | internal/balancer/consistent_hash.go:92 | reading back the numeral of a virtual node gives its number; one digit below ten and no leading zero from ten on |
| Backends.Backend.constructor | internal/balancer/backend.go:21-31 | weights below one become one, counters start at zero |
| Backends.Pool.HealthyBackends | internal/balancer/pool.go:45-57 | the result is the live backends in pool order, all of them and no other |
| ConsistentHashing.LookUpFindsOwner | internal/balancer/consistent_hash.go:112-129 | on a complete ring the first hash at or after the key's, with wrap-around, leads through the collision map to the brute-force owner |
| Fingerprints.FingerprintIsPolynomial | internal/balancer/consistent_hash.go:66-71 | it is the sum over all bytes of all URLs of byte times 31 to the number of bytes after it, modulo 2^64 |
| Fingerprints.OneByteChanges | internal/balancer/consistent_hash.go:66-71 | joined URLs of one length that differ in one byte never have one fingerprint |
| Fingerprints.LosingTheFirst | internal/balancer/consistent_hash.go:66-71 | dropping the first backends of a list keeps the fingerprint if and only if theirs alone is that of the empty list |
| Fingerprints.ShortFirstIsNoticed | internal/balancer/consistent_hash.go:66-71 | so the loss of a first backend whose URL has one to twelve ASCII bytes always changes the fingerprint |
| Fingerprints.FingerprintsCollide | internal/balancer/consistent_hash.go:66-71 | for every prefix and suffix the URLs around `Aa` and `BB` have one fingerprint |
| ConsistentHashing.RingAndMapAgree | internal/balancer/consistent_hash.go:83-104 | a complete ring has one entry per backend and virtual node, and exactly the keys of the map |
| ConsistentHashing.HashesSpelledOut | internal/balancer/consistent_hash.go:90-96 | the hashes written are those of url#0, url#1, ... of each backend, one for each |
| ConsistentHashing.SortRing | internal/balancer/consistent_hash.go:99-101 | the array ends sorted and a permutation of what it was |
| ConsistentHashing.SortedIsUnique | internal/balancer/consistent_hash.go:99-101 | a sorted permutation is unique, so any correct sort gives the ring of the model |
| ConsistentHashing.ConsistentHash.BuildHashRing | internal/balancer/consistent_hash.go:83-104 | the fields become the complete ring of the list, the hash of each url#i on it once per virtual node, last writer owning a collided hash, under its fingerprint |
| ConsistentHashing.ConsistentHash.EnsureRing | internal/balancer/consistent_hash.go:65-81 | the installed ring is the old one on a fingerprint match and that of the list otherwise; the fingerprint is the polynomial over the bytes of all URLs, and a change of one byte always rebuilds |
| ConsistentHashing.ConsistentHash.GetNode | internal/balancer/consistent_hash.go:112-129 | binary search returns the owner of the hash, whose virtual node url#i is at the least clockwise distance of all; nil exactly when nothing was built |
| ConsistentHashing.ConsistentHash.Select | internal/balancer/consistent_hash.go:35-47 | nil without healthy backends, otherwise the owner of the hash of the next running number |
| ConsistentHashing.ConsistentHash.SelectKey | internal/balancer/consistent_hash.go:49-63 | the owner of the key's hash; an empty key falls back to the running number |
| RingRuns.AgreeBetweenPoints | internal/balancer/consistent_hash.go:112-129 | two lists that agree at their own virtual nodes agree on every hash |
| RingRuns.CacheAgreement | internal/balancer/consistent_hash.go:65-104 | after ensureRing all look-ups equal those of a fresh ring if and only if the fingerprints differ or the lists agree at every virtual node |
| RingRuns.AffinitySurvives | internal/balancer/consistent_hash.go:65-104 | whatever list the installed ring was built from, while only backends of it go down a key keeps the backend this ring gives it as long as that one is up |
| RingRuns.ServedByOwner | internal/balancer/consistent_hash.go:65-104 | for one key, any pool and any two sets of live backends, those behind the installed ring and those of now: the backend served is the owner among those of now if and only if the fingerprints differ or each of the two owners is in both sets |
| RingRuns.DeadBackendIsServed | internal/balancer/consistent_hash.go:65-81 | calls on the objects after which a dead backend is selected, and selected again, while the only live one owns every key; for every key, hash function and ring size |
| RingRuns.LostBackendIsNoticed | internal/balancer/consistent_hash.go:65-81 | calls on the objects: the first of two backends goes down, the ring is rebuilt and the key goes to the second; for every key, hash function and ring size |
| RingRuns.SafeStep | internal/balancer/consistent_hash.go:65-129 | each lock section of each goroutine keeps the ring complete for one snapshot and every answer justified |
| RingRuns.SerialPass | internal/balancer/consistent_hash.go:49-81 | from every reachable state a goroutine on its own can make its lock sections, and they install and answer what EnsureRing and SelectKey do on the object |
| RingRuns.RingSafety | internal/balancer/consistent_hash.go:35-104 | in every interleaving the installed ring is the complete ring of a non-empty snapshot, under that snapshot's fingerprint |
| RingRuns.LookUpsAreJustified | internal/balancer/consistent_hash.go:112-129 | no look-up after ensureRing returns nil; each gives the owner in a snapshot really taken, and in the only one if all were equal |
| BreakerInvariant.TallyIsSummary | internal/circuitbreaker/breaker.go:140-239 | counters that step with the code equal occurrence counts and trailing-run lengths of the log, modulo 2^32 |
| BreakerInvariant.TrailingRunIsLongest | internal/circuitbreaker/breaker.go:216-229 | the trailing run is the longest suffix of equal outcomes |
| BreakerInvariant.HalfOpenStep | internal/circuitbreaker/breaker.go:191-239 | in half-open: no failures, consecutive equal total successes below MaxRequests, requests at most MaxRequests and covered by successes and callbacks |
| BreakerInvariant.ConservedStep | internal/circuitbreaker/breaker.go:136-144 | outstanding callbacks stay equal to those at the last clearing plus admissions minus reports |
| BreakerInvariant.InvRun | internal/circuitbreaker/breaker.go:111-239 | every run keeps the invariant of counters, callbacks, half-open state and notifications |
| BreakerInvariant.NotificationTrace | internal/circuitbreaker/breaker.go:177-195 | in every run notifications chain from Closed to the current state; Closed to HalfOpen never occurs, Open to Closed only by ResetManually, Open to HalfOpen only by State after expiry; generation counts setState calls |
| BreakerRuns.AnswersExactly | internal/circuitbreaker/breaker.go:125-145 | at the end of every run: a closed breaker admits; ErrCircuitOpen exactly when open up to the expiry; ErrTooManyRequests exactly when half-open or past the expiry with MaxRequests admissions in the window |
| BreakerRuns.ClosedAdmitsAll | internal/circuitbreaker/breaker.go:125-145 | a run that asks only while the breaker is closed has every request admitted |
| BreakerRuns.ClosedExactly | internal/circuitbreaker/breaker.go:162-239 | a closed breaker opens on a manual trip and on a failure for which the policy holds of the window, and leaves Closed on nothing else |
| BreakerRuns.OpenExactly | internal/circuitbreaker/breaker.go:111-195 | from any open state: open before and after every event of a run if and only if the run has no reset and no State call later than the expiry in force at that call |
| BreakerRuns.OpenHoldTime | internal/circuitbreaker/breaker.go:125-195 | if callbacks are at most D late, every Allow up to Timeout - D after a trip gets ErrCircuitOpen unless reset, despite late failures that move the expiry back |
| BreakerRuns.HoldTimeIsTight | internal/circuitbreaker/breaker.go:142-144 | for all settings and every D up to Timeout a run, tripped by a late half-open failure, in which one nanosecond later the answer is another |
| BreakerRuns.ExpiryExactly | internal/circuitbreaker/breaker.go:177-195 | state and expiry are what the last setState made them, timed by the admission for a late report; no other call moves either |
| BreakerRuns.LateReport | internal/circuitbreaker/breaker.go:203-239 | while open, a failure for which the policy holds restarts the time-out at its admission, also backwards; no other report touches it |
| BreakerRuns.OpenAdmissions | internal/circuitbreaker/breaker.go:125-195 | without a reset or a State call after the expiry an open breaker stays open and admits at most MaxRequests minus its requests at the trip, ever |
| BreakerRuns.GenerationAdmissions | internal/circuitbreaker/breaker.go:136-140 | in one open or half-open generation at most MaxRequests requests are admitted |
| BreakerRuns.HalfOpenStays | internal/circuitbreaker/breaker.go:215-239 | without manual calls half-open lasts exactly while no failure and fewer than MaxRequests successes have been delivered |
| BreakerRuns.HalfOpenExit | internal/circuitbreaker/breaker.go:215-239 | it closes exactly on the MaxRequests-th success since entry and opens exactly on the first failure |
| BreakerRuns.HalfOpenNeverDeadlocks | internal/circuitbreaker/breaker.go:136-144 | a half-open breaker reached by any run, with every callback invoked, admits the next request, and enough of them to close (TrialsClose) |
| BreakerRuns.TrialsClose | internal/circuitbreaker/breaker.go:215-223 | while no more trials were admitted than succeeded, n successful requests are all admitted, and close it exactly when n is the missing number, whatever is outstanding |
| BreakerRuns.Recovers | internal/circuitbreaker/breaker.go:111-122 | from every open state, with any callbacks outstanding, State after the expiry and MaxRequests successful requests lead to Closed |
| BreakerRuns.CountersRefineHistory | internal/circuitbreaker/breaker.go:162-239 | in every run the counters sum up a suffix of everything admitted and reported |
| BreakerRuns.CountersBalance | internal/circuitbreaker/breaker.go:136-144 | below 2^32 marks, outstanding callbacks equal those at the last clearing plus Requests minus TotalSuccesses minus TotalFailures |
| BreakerRuns.ClosedNeverRestsOnThree | internal/circuitbreaker/breaker.go:51-60 | under a policy that trips on three, no run leaves a closed breaker whose recorded outcomes since the last clearing end in three failures; the counter agrees with them |
| BreakerRuns.DefaultPolicyIsRate | internal/circuitbreaker/breaker.go:51-60 | the integer policy of the model is the code's test on the failure rate, read over the reals |
| BreakerRuns.FirstTripIsPermanent | internal/circuitbreaker/breaker.go:124-174 | once a policy like the default has tripped a new breaker, no later Allow succeeds in any run without a reset and without State calls after the expiry; other State calls, before and after the trip, change nothing |
| BreakerRuns.ThreeFailuresLockOut | internal/circuitbreaker/breaker.go:46-61 | with the default settings three serial failures make that happen |
| BreakerRuns.SerialFailuresTrip | internal/circuitbreaker/breaker.go:162-239 | with the default settings, serial failures trip a closed breaker with a fresh window if and only if there are three and the third comes by the expiry, or the window has none; the third then does |
| BreakerRuns.SerialFailuresAfterReset | internal/circuitbreaker/breaker.go:177-195 | after a reset serial failures trip if and only if there are three and the third comes by Interval after the reset |
| BreakerRuns.SerialFailuresNeverTripAgain | internal/circuitbreaker/breaker.go:162-174 | later than Interval after a reset any number of serial failures leaves the breaker closed, whatever is outstanding |
| CircuitBreakers.Normalised | internal/circuitbreaker/breaker.go:85-97 | given settings are kept, missing ones become those of DefaultConfig, and every breaker has positive limits |
| CircuitBreakers.CircuitBreaker.constructor | internal/circuitbreaker/breaker.go:85-104 | a new object is at the start of the state machine |
| CircuitBreakers.CircuitBreaker.SetState | internal/circuitbreaker/breaker.go:177-195 | the fields make the model's transition, with counts and expiry as named, and the observer is told exactly of a change |
| CircuitBreakers.CircuitBreaker.Allow | internal/circuitbreaker/breaker.go:125-145 | the object makes the state machine's step and keeps the invariant; closed always admits, the two refusals come exactly when stated on the fields, and the window is cleared or counted accordingly |
| CircuitBreakers.CircuitBreaker.Query | internal/circuitbreaker/breaker.go:112-122 | likewise for State, whose answer is the committed state; what is over is cleared |
| CircuitBreakers.CircuitBreaker.OnResult | internal/circuitbreaker/breaker.go:203-239 | likewise for a callback, with the admission time it carries |
| CircuitBreakers.CircuitBreaker.TripManually | internal/circuitbreaker/breaker.go:148-152 | likewise for the manual trip |
| CircuitBreakers.CircuitBreaker.ResetManually | internal/circuitbreaker/breaker.go:155-159 | likewise for the manual reset |
| CircuitBreakers.Manager.GetBreaker | internal/circuitbreaker/manager.go:23-42 | the known breaker of the name, or a new one that is then known; no other entry changes |
| CircuitBreakers.Manager.RemoveBreaker | internal/circuitbreaker/manager.go:45-49 | the name, and nothing else, is forgotten |
| ManagerRuns.OneBreakerPerName | internal/circuitbreaker/manager.go:23-42 | in every interleaving in which a name is not removed, others being removed freely, at most one breaker is created for it, and its holders share it with exactly those who asked for that name |
| ManagerRuns.NamesNeverShare | internal/circuitbreaker/manager.go:23-49 | distinct names never share a breaker, with removals too |
| ManagerRuns.SerialGet | internal/circuitbreaker/manager.go:23-42 | one goroutine on its own makes the look-up or creation of the object's GetBreaker |
| ManagerRuns.RemovalSplitsAName | internal/circuitbreaker/manager.go:45-49 | a run in which removing the name leaves two callers of it with different breakers |
| Failover.RefusalChangesNothing | internal/circuitbreaker/breaker.go:132-138 | only an existing breaker refuses, and refusing leaves all breakers unchanged |
| Failover.AdmissionIsLocal | internal/circuitbreaker/breaker.go:140-144 | an admission adds one callback to its own breaker and touches no other |
| Failover.AskedInOrder | internal/server/fastproxy.go:76-111 | the selected backend in terms of the breakers' answers: the pick if granted, otherwise a backend of another host no later in the list than the first granted |
| Failover.SelectBackend | internal/server/fastproxy.go:76-111 | nothing is selected if and only if there is no pick or the pick and every other host refuse, and then no breaker is created or changed; otherwise the first to admit is returned and only its breaker has changed, by that one admission |
| Failover.SelectionIsComplete | internal/server/proxy.go:111-148 | with one healthy list, nothing is selected exactly when it is empty or every host in it refuses |
| Failover.Serve | internal/server/fastproxy.go:130-180 | one call leaves connections as they were and counts one request; a transport error or a status of 500 and up counts and reports a failure, anything else a success, once; the answer is 502 or the response's status |
| Failover.Handler | internal/server/fastproxy.go:113-187 | the whole handler: 503 with no change, or exactly that accounting on the first backend to admit and none on any other |
| Traffic.SystemInvStep | internal/server/fastproxy.go:76-187 | each atomic step of each request, probe or admin call keeps counters equal to the requests they count and callbacks with the requests that hold them |
| Traffic.SystemSafety | internal/balancer/backend.go:48-68 | in every interleaving connections, totalRequests and failedRequests are those of the requests, and each breaker's outstanding callbacks are the ones its host's requests hold |
| Traffic.CountersConserve | internal/health/checker.go:79-87 | connections are never negative, counted requests are in flight or ended, failures are failed requests plus failed probes |
| Traffic.EachBreakerIsARun | internal/circuitbreaker/breaker.go:111-239 | in every interleaving each host's breaker has gone through one runnable run from new, made of exactly the calls addressed to it, so every result on runs holds of it |
| Traffic.ProbesAreCounted | internal/health/checker.go:79-87 | in every interleaving each failed probe of a backend has been counted as one of its failures |
| Traffic.ProbeStep | internal/health/checker.go:79-87 | a probe of any backend can fail in every state, and adds one failure to it and changes nothing else |
| Traffic.AdminCall | internal/circuitbreaker/breaker.go:111-159 | admin calls are possible in every state and do nothing but their step on their host's breaker |
| Traffic.QuietSystem | internal/server/proxy.go:150-214 | when all requests have finished no connection is counted, no callback is outstanding, and a half-open breaker admits the next request |
| Traffic.FastPath | internal/server/fastproxy.go:130-180 | the steps of the fasthttp path, report before release, are a path of the system and leave exactly one counted, finished request and its two breaker calls |
| Traffic.NetPath | internal/server/proxy.go:242-293 | so are those of the net/http path, report after release, and they end in the same state |
| Traffic.HandlerAccounting | internal/server/fastproxy.go:113-187 | that state has, clause by clause, the breakers and the counters of every backend that the handler on the objects leaves |
| Strategies.WeightedRoundRobin.Select | internal/balancer/weighted_round_robin.go:15-47 | the backend whose prefix-sum slot of the backends' weights covers the counter modulo the total weight; the counter steps with int64 wrap; the zero-weight and last branches are never reached |
| Strategies.HitsOverall | internal/balancer/weighted_round_robin.go:33-44 | of any n consecutive tickets a residue range gets its share per full period and at most the rest of one more |
| Strategies.WeightedFairness | internal/balancer/weighted_round_robin.go:15-47 | over n serial selections from any non-negative counter a backend gets n/W times its weight plus at most its weight and n mod W; exactly its weight when n = W |
| Strategies.WrappedPicksFirst | internal/balancer/weighted_round_robin.go:33-44 | a negative counter, its remainder zero or not, leads to the first backend and to no other |
| Strategies.FairExactly | internal/balancer/weighted_round_robin.go:15-47 | W consecutive counter values, with no wrap among them, give every backend exactly its weight if and only if the first is not negative or there is one backend |
| Strategies.SelectSerially | internal/balancer/balancer_test.go:36-55 | n calls in a row on an unchanged pool choose each backend b.weight times per W = sum of all weights calls, at most b.weight times more in the rest, and exactly b.weight times when n = W |
| Strategies.RoundRobin.Select | internal/balancer/round_robin.go:11-20 | the backend at the ticket modulo the list length |
| Strategies.RoundRobinFairness | internal/balancer/round_robin.go:11-20 | over k consecutive tickets two positions are visited equally often up to one visit |
| Strategies.SelectInTurn | internal/balancer/round_robin.go:11-20 | n calls in a row on an unchanged pool choose the backends in list order round and round from the ticket on, each n/k or n/k + 1 times of k |
| Strategies.ScanExactly | internal/balancer/least_connections.go:11-20 | the loop finds the first backend of minimum load, except exactly when that load is -1 and occurs before the last backend |
| Strategies.LeastConnections.Select | internal/balancer/least_connections.go:5-21 | the method returns what the loop's scan finds: when no backend has negative connections, one with the fewest, those before it having more |
| Strategies.ArrivalsLevelOut | internal/balancer/least_connections.go:5-21 | arrivals bring any loads to differ by at most one after as many arrivals as the shortfall, and keep them so |
| Strategies.ArriveSerially | internal/balancer/least_connections.go:5-21 | n selections, each followed by IncrementConn, move the backends' connection counts exactly as n arrivals in ArrivalsLevelOut |
| Retrying.Retry | internal/retry/retry.go:38-66 | calls until success, permanent error, cancellation or exhaustion, 1 to MaxRetries+1 times, announcing 1, 2, ... with the error before |
| Retrying.RetryWithData | internal/retry/retry.go:88-117 | the same course, with the data of the successful call and the zero value otherwise |
| Retrying.OneCourse | internal/retry/retry.go:38-117 | that behaviour is determined, so both loops make the same calls and reach the same result for every outside world |
| Retrying.CourseInWords | internal/retry/retry.go:38-66 | success, a permanent error and the last error of an exhausted loop come back as they are, any other end is a cancellation with the context's error; every earlier call failed retryably, announced as 1, 2, ... |
| Retrying.WaitBounds | internal/retry/retry.go:68-86 | each wait is between zero and the smaller of the cap and (1+J)·I·M^(k-1), and not below (1-J)·I·M^(k-1) unless it is the cap |
| Retrying.PlainWait | internal/retry/retry.go:68-86 | a draw of 1/2 gives the exponential wait and 0 that wait less the jitter range, each cut at the cap |
| Retrying.DrawMatters | internal/retry/retry.go:75-79 | a larger draw never gives a shorter wait and below the cap gives a longer one |
| Retrying.TotalWaitBounds | internal/retry/retry.go:68-86 | for every multiplier that is not negative the waits of a loop stay within (1+J)·I times the geometric sum and within n times the cap |
| Retrying.GeometricSum | internal/retry/retry.go:68-86 | that sum in closed form: (M^n - 1)/(M - 1), and n for a multiplier of one |
| Retrying.RoundTrip | internal/server/proxy.go:242-320 | one to three trips, more than one only for GET, HEAD and OPTIONS, which are idempotent (section 9.2.2 of RFC 9110); one request counted, connection given back; a repeatable request fails exactly when its last trip broke or answered 502 to 504 |

## Left out

- HTTP forwarding, headers, TLS, client pools and body streaming: a call to a backend is an outcome given to the model.
- Metrics, logging, dashboard and admin JSON: only the breaker calls behind the admin endpoints are steps.
- Rate limiting, IP filtering, loading and checking the configuration, request size limits and security headers: they accept, reject or decorate a request before a backend is chosen, and touch neither breakers, ring nor counters.
- Protocol upgrades on the net/http path, where the library may call the error handler after the response hook: a callback is invoked at most once here.
- Panics between admission and report: a request that never finishes stays in flight in the model.
- The locks themselves: each lock section and each atomic operation is one step; a callback that re-enters the breaker from OnStateChange deadlocks and is not modelled.
- The load and store race in WeightedRoundRobin: its fairness is stated for serial calls, as only those have it.
- Floating point: waits are reals and the 40 % failure rate is the exact test 5·failures > 2·requests.
- Overflow of clock readings, of int64 request counters and of the sum of weights; uint32 breaker counters, the uint64 generation and tickets and the int64 weight counter do wrap.
- Traffic.SystemSafety: does not follow `consecutiveFailures`, which feeds only metrics and the status page, and leaves open the order in which a request reports, marks and releases, because the two request paths differ in it.
- ConsistentHashing.SortRing: stands for the library's sort with its own algorithm, because the result does not depend on it.
- BreakerRuns.FirstTripIsPermanent: the events before the trip number less than 2^32, so that the window's request counter has not wrapped.
