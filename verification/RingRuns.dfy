/** The ring shared by goroutines, and how far a cached ring can be trusted. */
module RingRuns {
  import opened Words
  import opened Backends
  import opened Ring
  import opened Fingerprints
  import opened ConsistentHashing

  // ----- when a cached ring answers like a fresh one -----

  /** Moving along the circle towards the nearest point does not change which point is nearest. */
  lemma NearestOnTheWay(ps: seq<Point>, h: Uint32, q: Uint32)
    requires ps != [] && Clockwise(h, q) <= Clockwise(h, ps[Nearest(ps, h)].at)
    ensures Nearest(ps, q) == Nearest(ps, h)
  {
    var k, m := Nearest(ps, h), Nearest(ps, q);
    NearestIsNearest(ps, h);
    NearestIsNearest(ps, q);
    assert Clockwise(h, ps[k].at) <= Clockwise(h, ps[m].at);
    assert Clockwise(q, ps[k].at) == Clockwise(h, ps[k].at) - Clockwise(h, q);
    assert Clockwise(q, ps[m].at) == Clockwise(h, ps[m].at) - Clockwise(h, q);
  }

  ghost predicate AgreeAt(l: Layout, a: seq<Backend>, b: seq<Backend>, h: Uint32)
    requires a != [] && b != [] && 0 < l.virtualNodes
  {
    Owner(l, a, h) == Owner(l, b, h)
  }

  /** Two lists give every key the same owner as soon as they do so at their own virtual nodes. */
  ghost predicate AgreeAtPoints(l: Layout, a: seq<Backend>, b: seq<Backend>)
    requires a != [] && b != [] && 0 < l.virtualNodes
  {
    forall p :: p in Points(l, a) + Points(l, b) ==> AgreeAt(l, a, b, p.at)
  }

  lemma AgreeBetweenPoints(l: Layout, a: seq<Backend>, b: seq<Backend>, h: Uint32)
    requires a != [] && b != [] && 0 < l.virtualNodes && AgreeAtPoints(l, a, b)
    ensures AgreeAt(l, a, b, h)
  {
    var ps, qs := Points(l, a), Points(l, b);
    var p, q := ps[Nearest(ps, h)], qs[Nearest(qs, h)];
    assert p in ps && q in qs && p in ps + qs && q in ps + qs;
    assert AgreeAt(l, a, b, p.at) && AgreeAt(l, a, b, q.at);
    if Clockwise(h, p.at) <= Clockwise(h, q.at) {
      NearestOnTheWay(ps, h, p.at);
      NearestOnTheWay(qs, h, p.at);
    } else {
      NearestOnTheWay(ps, h, q.at);
      NearestOnTheWay(qs, h, q.at);
    }
  }

  /** Exactly when `ensureRing(nodes)` leaves a ring that answers every look-up as a fresh ring of
      `nodes` would: unless the fingerprints match though the lists disagree at a virtual node. */
  lemma CacheAgreement(l: Layout, built: seq<Backend>, nodes: seq<Backend>)
    requires nodes != [] && 0 < l.virtualNodes
    ensures (forall h: Uint32 :: AgreeAt(l, AfterEnsure(built, nodes), nodes, h)) <==>
            built == [] || Fingerprint(built) != Fingerprint(nodes) || AgreeAtPoints(l, built, nodes)
  {
    hide Owner, Points, Fingerprint;
    if built == [] || Fingerprint(built) != Fingerprint(nodes) {
      assert AfterEnsure(built, nodes) == nodes;
    } else {
      assert AfterEnsure(built, nodes) == built;
      if AgreeAtPoints(l, built, nodes) {
        forall h: Uint32
          ensures AgreeAt(l, built, nodes, h)
        {
          AgreeBetweenPoints(l, built, nodes, h);
        }
      }
    }
  }

  /** Whatever list the installed ring was built from: when only backends of it go down, a key whose
      owner on that ring survives is still served by it. */
  lemma AffinitySurvives(l: Layout, built: seq<Backend>, live: set<Backend>, h: Uint32)
    requires 0 < l.virtualNodes && built != [] && Owner(l, built, h) in live
    ensures Keep(built, live) != []
    ensures Owner(l, AfterEnsure(built, Keep(built, live)), h) == Owner(l, built, h)
  {
    hide Fingerprint;
    PointsOfKept(l, built, live);
    NearestKept(Points(l, built), live, h);
  }

  /** Exactly when the backend served for one key is its owner among the healthy backends `now`, the
      installed ring being that of the healthy backends `before`: a ring kept by a
      collision is right for the key just when its owner on either list is also on the other. */
  lemma ServedByOwner(l: Layout, all: seq<Backend>, before: set<Backend>, now: set<Backend>, h: Uint32)
    requires 0 < l.virtualNodes && Keep(all, before) != [] && Keep(all, now) != []
    ensures var built, healthy := Keep(all, before), Keep(all, now);
            Owner(l, AfterEnsure(built, healthy), h) == Owner(l, healthy, h) <==>
            || Fingerprint(built) != Fingerprint(healthy)
            || (Owner(l, built, h) in now && Owner(l, healthy, h) in before)
  {
    hide Owner, Fingerprint;
    var built, healthy := Keep(all, before), Keep(all, now);
    OwnerIsMember(l, built, h);
    OwnerIsMember(l, healthy, h);
    if Owner(l, built, h) in now && Owner(l, healthy, h) in before {
      MinimalDisruption(l, all, before, before * now, h);
      MinimalDisruption(l, all, now, before * now, h);
    }
  }

  lemma OneBackendOwnsAll(l: Layout, a: Backend, h: Uint32)
    requires 0 < l.virtualNodes
    ensures Owner(l, [a], h) == a
  {
    OwnerIsMember(l, [a], h);
  }

  lemma OneOfTwo(a: Backend, b: Backend, live: set<Backend>)
    ensures a in live && b !in live ==> Keep([a, b], live) == [a]
    ensures a !in live && b in live ==> Keep([a, b], live) == [b]
  {
    KeepAppend([], a, live);
    KeepAppend([a], b, live);
    assert [] + [a] == [a] && [a] + [b] == [a, b];
  }

  method StaleAnswer(ring: ConsistentHash, pool: Pool, a: Backend, b: Backend, key: string)
    returns (chosen: Backend?, again: Backend?)
    requires ring.Valid() && ring.built == [] && key != ""
    requires pool.backends == [a, b] && a != b && a.url == "http://Aa" && b.url == "http://BB"
    requires a.alive && !b.alive
    modifies ring, a, b
    ensures chosen == again == a && !a.alive && b.alive
  {
    hide IsRingOf, Owner, Decimal, Fingerprint, Keep;
    OneOfTwo(a, b, Live([a, b]));
    chosen := ring.SelectKey(pool, key);
    assert ring.built == [a];
    a.SetAlive(false);
    b.SetAlive(true);
    OneOfTwo(a, b, Live([a, b]));
    SameFingerprint(a, b);
    OneBackendOwnsAll(ring.layout, a, ring.layout.hash(key));
    chosen := ring.SelectKey(pool, key);
    again := ring.SelectKey(pool, key);
  }

  /** With two backends alive one at a time the ring serves the dead one, and goes on doing so while
      the one alive owns every key of the healthy list: for every key, hash function and number of
      virtual nodes. */
  method DeadBackendIsServed(hash: string -> Uint32, virtualNodes: int, key: string)
    returns (chosen: Backend?, again: Backend?, healthy: seq<Backend>)
    requires key != ""
    ensures chosen == again != null && !again.alive && again !in healthy
    ensures |healthy| == 1 && healthy[0].alive
    ensures forall l: Layout, h: Uint32 :: 0 < l.virtualNodes ==> Owner(l, healthy, h) == healthy[0]
  {
    hide IsRingOf, Owner;
    var a := new Backend("http://Aa", "Aa", 1);
    var b := new Backend("http://BB", "BB", 1);
    b.SetAlive(false);
    var pool := new Pool();
    pool.AddBackend(a);
    pool.AddBackend(b);
    var ring := new ConsistentHash(hash, virtualNodes);
    chosen, again := StaleAnswer(ring, pool, a, b, key);
    healthy := pool.HealthyBackends();
    OneOfTwo(a, b, Live([a, b]));
    forall l: Layout, h: Uint32 | 0 < l.virtualNodes
      ensures Owner(l, healthy, h) == b
    {
      OneBackendOwnsAll(l, b, h);
    }
  }

  lemma BothOfTwo(a: Backend, b: Backend, live: set<Backend>)
    ensures a in live && b in live ==> Keep([a, b], live) == [a, b]
  {
    KeepAppend([], a, live);
    KeepAppend([a], b, live);
    assert [] + [a] == [a] && [a] + [b] == [a, b];
  }

  method FreshAnswer(ring: ConsistentHash, pool: Pool, a: Backend, b: Backend, key: string) returns (chosen: Backend?)
    requires ring.Valid() && ring.built == [] && key != ""
    requires pool.backends == [a, b] && a != b && Short(a.url) && a.alive && b.alive
    modifies ring, a
    ensures chosen == b
  {
    hide IsRingOf, Owner, Fingerprint, Decimal, Keep, Short;
    BothOfTwo(a, b, Live([a, b]));
    chosen := ring.SelectKey(pool, key);
    assert ring.built == [a, b];
    a.SetAlive(false);
    OneOfTwo(a, b, Live([a, b]));
    ShortFirstIsNoticed(a, [b]);
    assert [a] + [b] == [a, b];
    OneBackendOwnsAll(ring.layout, b, ring.layout.hash(key));
    chosen := ring.SelectKey(pool, key);
  }

  /** Without a collision the ring is rebuilt: of two backends the first, with any URL of up to twelve
      bytes, goes down, and its keys go to the second. */
  method LostBackendIsNoticed(hash: string -> Uint32, virtualNodes: int, first: string, second: string, key: string)
    returns (chosen: Backend?)
    requires key != "" && Short(first)
    ensures chosen != null && chosen.alive && chosen.url == second
  {
    hide IsRingOf, Fingerprint, Short;
    var a := new Backend(first, "a", 1);
    var b := new Backend(second, "b", 1);
    var pool := new Pool();
    pool.AddBackend(a);
    pool.AddBackend(b);
    var ring := new ConsistentHash(hash, virtualNodes);
    chosen := FreshAnswer(ring, pool, a, b, key);
  }

  // ----- every interleaving -----

  /** Where a goroutine stands: each arrow between two of these is one lock acquisition. */
  datatype Pc =
    | Snapped(nodes: seq<Backend>)   // holds a non-empty snapshot of the healthy backends
    | MustBuild(nodes: seq<Backend>) // the fingerprint check failed
    | Ready                          // ensureRing has returned
    | Found(h: Uint32, r: Option<Backend>)
    | Nothing                        // no healthy backend in the snapshot

  datatype Shared = Shared(
    ring: seq<Uint32>,
    nodeMap: map<Uint32, Backend>,
    lastNodesHash: Uint64,
    threads: map<nat, Pc>,
    taken: set<seq<Backend>>, // all snapshots so far
    built: seq<Backend>)      // the list behind the installed ring

  datatype Action =
    | Snapshot(t: nat, nodes: seq<Backend>)
    | Check(t: nat)
    | Build(t: nat)
    | Find(t: nat, h: Uint32)

  const INITIAL := Shared([], map[], 0, map[], {}, [])

  /** A snapshot may be taken at any time: the pool's health is not under the ring's lock, and an
      empty key makes a goroutine that is `Ready` begin again. */
  ghost predicate Next(l: Layout, s: Shared, a: Action, s': Shared) {
    match a
    case Snapshot(t, nodes) =>
      s' == s.(threads := s.threads[t := if nodes == [] then Nothing else Snapped(nodes)], taken := s.taken + {nodes})
    case Check(t) =>
      && t in s.threads && s.threads[t].Snapped?
      && var nodes := s.threads[t].nodes;
         var hit := s.lastNodesHash == Fingerprint(nodes) && 0 < |s.ring|;
         s' == s.(threads := s.threads[t := if hit then Ready else MustBuild(nodes)])
    case Build(t) =>
      && t in s.threads && s.threads[t].MustBuild?
      && var nodes := s.threads[t].nodes;
         && IsRingOf(l, nodes, s'.ring, s'.nodeMap)
         && s' == s.(ring := s'.ring, nodeMap := s'.nodeMap, lastNodesHash := Fingerprint(nodes), built := nodes,
                     threads := s.threads[t := Ready])
    case Find(t, h) =>
      && t in s.threads && s.threads[t].Ready?
      && s' == s.(threads := s.threads[t := Found(h, LookUp(s.ring, s.nodeMap, h))])
  }

  /** The answer is the owner according to some snapshot a goroutine really took. */
  ghost predicate Justified(l: Layout, taken: set<seq<Backend>>, h: Uint32, r: Option<Backend>)
    requires 0 < l.virtualNodes
  {
    exists nodes :: nodes in taken && nodes != [] && r == Some(Owner(l, nodes, h))
  }

  ghost predicate ThreadOk(l: Layout, s: Shared, pc: Pc)
    requires 0 < l.virtualNodes
  {
    match pc
    case Snapped(nodes) => nodes in s.taken && nodes != []
    case MustBuild(nodes) => nodes in s.taken && nodes != []
    case Ready => s.built != []
    case Found(h, r) => Justified(l, s.taken, h, r)
    case Nothing => [] in s.taken
  }

  /** Once built, the installed ring is the complete ring of one non-empty snapshot, under that
      snapshot's fingerprint. */
  ghost predicate RingOk(l: Layout, s: Shared) {
    if s.built == [] then s.ring == []
    else s.built in s.taken && IsRingOf(l, s.built, s.ring, s.nodeMap) && s.lastNodesHash == Fingerprint(s.built)
  }

  ghost predicate Safe(l: Layout, s: Shared)
    requires 0 < l.virtualNodes
  {
    RingOk(l, s) && forall t :: t in s.threads ==> ThreadOk(l, s, s.threads[t])
  }

  lemma SafeStep(l: Layout, s: Shared, a: Action, s': Shared)
    requires 0 < l.virtualNodes && Safe(l, s) && Next(l, s, a, s')
    ensures Safe(l, s')
  {
    hide Fingerprint, IsRingOf, LookUp, Owner;
    if a.Find? {
      LookUpFindsOwner(l, s.built, s.ring, s.nodeMap, a.h);
      assert Justified(l, s.taken, a.h, LookUp(s.ring, s.nodeMap, a.h));
    }
    forall t | t in s'.threads
      ensures ThreadOk(l, s', s'.threads[t])
    {
      if t in s.threads && s'.threads[t] == s.threads[t] {
        assert ThreadOk(l, s, s.threads[t]);
      }
    }
  }

  /** From any state a goroutine can pass through on its own, whatever it finds healthy; its check, and
      its build if the check fails, are the object's `EnsureRing`, and its answer that of `SelectKey`.
      `ring` and `nodeMap` are what building from its snapshot gives. */
  lemma SerialPass(l: Layout, s: Shared, t: nat, nodes: seq<Backend>, h: Uint32, ring: seq<Uint32>,
                   nodeMap: map<Uint32, Backend>)
    returns (s1: Shared, s2: Shared, s3: Shared, s4: Shared)
    requires 0 < l.virtualNodes && Safe(l, s) && nodes != [] && IsRingOf(l, nodes, ring, nodeMap)
    ensures Next(l, s, Snapshot(t, nodes), s1) && Next(l, s1, Check(t), s2)
    ensures s3 == s2 || Next(l, s2, Build(t), s3)
    ensures Next(l, s3, Find(t, h), s4)
    ensures s3.built == AfterEnsure(s.built, nodes) && s3.threads.Keys == s.threads.Keys + {t}
    ensures t in s4.threads && s4.threads[t] == Found(h, Some(Owner(l, AfterEnsure(s.built, nodes), h)))
  {
    hide Fingerprint, IsRingOf, LookUp, Owner;
    s1 := s.(threads := s.threads[t := Snapped(nodes)], taken := s.taken + {nodes});
    SafeStep(l, s, Snapshot(t, nodes), s1);
    if s.built != [] {
      RingAndMapAgree(l, s.built, s.ring, s.nodeMap);
      NonEmptyProduct(|s.built|, l.virtualNodes);
    }
    if s.lastNodesHash == Fingerprint(nodes) && 0 < |s.ring| {
      s2 := s1.(threads := s1.threads[t := Ready]);
      s3 := s2;
    } else {
      s2 := s1.(threads := s1.threads[t := MustBuild(nodes)]);
      s3 := s2.(ring := ring, nodeMap := nodeMap, lastNodesHash := Fingerprint(nodes), built := nodes,
      threads := s2.threads[t := Ready]);
    }
    LookUpFindsOwner(l, s3.built, s3.ring, s3.nodeMap, h);
    s4 := s3.(threads := s3.threads[t := Found(h, LookUp(s3.ring, s3.nodeMap, h))]);
  }

  ghost predicate IsRun(l: Layout, run: seq<Shared>, acts: seq<Action>) {
    && |run| == |acts| + 1 && run[0] == INITIAL
    && forall i :: 0 <= i < |acts| ==> Next(l, run[i], acts[i], run[i + 1])
  }

  /** Ring safety in every interleaving of any number of goroutines. */
  lemma {:induction false} RingSafety(l: Layout, run: seq<Shared>, acts: seq<Action>, i: nat)
    requires 0 < l.virtualNodes && IsRun(l, run, acts) && i < |run|
    ensures Safe(l, run[i])
  {
    hide Next;
    if i > 0 {
      RingSafety(l, run, acts, i - 1);
      assert Next(l, run[i - 1], acts[i - 1], run[i - 1 + 1]);
      SafeStep(l, run[i - 1], acts[i - 1], run[i]);
    }
  }

  /** No look-up after `ensureRing` comes back empty, and while every snapshot shows the same
      backends each look-up gives the owner among them. */
  lemma LookUpsAreJustified(l: Layout, run: seq<Shared>, acts: seq<Action>, i: nat, t: nat)
    requires 0 < l.virtualNodes && IsRun(l, run, acts) && i < |run|
    requires t in run[i].threads && run[i].threads[t].Found?
    ensures Justified(l, run[i].taken, run[i].threads[t].h, run[i].threads[t].r)
    ensures forall nodes :: run[i].taken == {nodes} && nodes != [] ==>
                              run[i].threads[t].r == Some(Owner(l, nodes, run[i].threads[t].h))
  {
    RingSafety(l, run, acts, i);
    assert ThreadOk(l, run[i], run[i].threads[t]);
  }
}
