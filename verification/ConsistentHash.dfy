/** The hash ring as the program keeps it: a sorted array, a map from hash to backend, and the
    fingerprint of the list they were built from. */
module ConsistentHashing {
  import opened Words
  import opened Backends
  import opened Ring
  import opened Fingerprints

  // ----- what a ring is, and what a look-up in it finds -----

  function Hashes(ps: seq<Point>): (hs: seq<Uint32>)
    ensures |hs| == |ps|
  {
    if ps == [] then [] else Hashes(ps[..|ps| - 1]) + [ps[|ps| - 1].at]
  }

  /** The backend that wrote each hash last. */
  function LastWriter(ps: seq<Point>): map<Uint32, Backend> {
    if ps == [] then map[] else LastWriter(ps[..|ps| - 1])[ps[|ps| - 1].at := ps[|ps| - 1].node]
  }

  ghost predicate Sorted(ring: seq<Uint32>) {
    forall i, j :: 0 <= i < j < |ring| ==> ring[i] <= ring[j]
  }

  /** A complete ring of `nodes`. */
  ghost predicate IsRingOf(l: Layout, nodes: seq<Backend>, ring: seq<Uint32>, nodeMap: map<Uint32, Backend>) {
    && Sorted(ring)
    && multiset(ring) == multiset(Hashes(Points(l, nodes)))
    && nodeMap == LastWriter(Points(l, nodes))
  }

  function FirstAtLeast(ring: seq<Uint32>, h: Uint32): (k: nat)
    ensures k <= |ring|
    ensures forall i :: 0 <= i < k ==> ring[i] < h
    ensures k < |ring| ==> h <= ring[k]
  {
    if ring == [] || h <= ring[0] then 0 else 1 + FirstAtLeast(ring[1..], h)
  }

  lemma FirstAtLeastIsUnique(ring: seq<Uint32>, h: Uint32, k: nat)
    requires k <= |ring|
    requires forall i :: 0 <= i < k ==> ring[i] < h
    requires k < |ring| ==> h <= ring[k]
    ensures k == FirstAtLeast(ring, h)
  {
  }

  function LookUp(ring: seq<Uint32>, nodeMap: map<Uint32, Backend>, h: Uint32): Option<Backend> {
    if ring == [] then None
    else
      var k := FirstAtLeast(ring, h);
      var at := ring[if k == |ring| then 0 else k];
      if at in nodeMap then Some(nodeMap[at]) else None
  }

  lemma {:induction false} HashesAt(ps: seq<Point>)
    ensures forall k :: 0 <= k < |ps| ==> Hashes(ps)[k] == ps[k].at
  {
    if ps != [] {
      HashesAt(ps[..|ps| - 1]);
    }
  }

  lemma {:induction false} LastWriterIsLast(ps: seq<Point>, k: nat)
    requires k < |ps|
    requires forall j :: k < j < |ps| ==> ps[j].at != ps[k].at
    ensures ps[k].at in LastWriter(ps) && LastWriter(ps)[ps[k].at] == ps[k].node
  {
    if k < |ps| - 1 {
      LastWriterIsLast(ps[..|ps| - 1], k);
    }
  }

  lemma {:induction false} LastWriterKeys(ps: seq<Point>)
    ensures forall x :: x in LastWriter(ps) <==> x in Hashes(ps)
  {
    if ps != [] {
      LastWriterKeys(ps[..|ps| - 1]);
    }
  }

  /** `nodeMap` has exactly the hashes on the ring. */
  lemma RingAndMapAgree(l: Layout, nodes: seq<Backend>, ring: seq<Uint32>, nodeMap: map<Uint32, Backend>)
    requires IsRingOf(l, nodes, ring, nodeMap)
    ensures |ring| == |nodes| * l.virtualNodes
    ensures forall x :: x in ring <==> x in nodeMap
  {
    var hs := Hashes(Points(l, nodes));
    LastWriterKeys(Points(l, nodes));
    assert |ring| == |multiset(ring)| == |multiset(hs)| == |hs|;
    forall x: Uint32
      ensures x in ring <==> x in nodeMap
    {
      assert x in ring <==> x in multiset(ring);
      assert x in hs <==> x in multiset(hs);
    }
  }

  /** On a sorted ring the first hash at or after `h`, or else the first of all, is the nearest
      clockwise. */
  lemma FirstIsNearest(ring: seq<Uint32>, h: Uint32, x: Uint32)
    requires Sorted(ring) && x in ring
    ensures var k := FirstAtLeast(ring, h);
            Clockwise(h, ring[if k == |ring| then 0 else k]) <= Clockwise(h, x)
  {
    var k := FirstAtLeast(ring, h);
    var j :| 0 <= j < |ring| && ring[j] == x;
    if k == |ring| {
      assert ring[0] <= ring[j] < h;
    } else if j < k {
      assert ring[j] < h <= ring[k];
    }
  }

  lemma SameDistanceSamePoint(h: Uint32, p: Uint32, q: Uint32)
    requires Clockwise(h, p) == Clockwise(h, q)
    ensures p == q
  {
  }

  /** Binary search with wrap-around finds the owner, also on collided hashes. */
  lemma LookUpFindsOwner(l: Layout, nodes: seq<Backend>, ring: seq<Uint32>, nodeMap: map<Uint32, Backend>, h: Uint32)
    requires IsRingOf(l, nodes, ring, nodeMap) && nodes != [] && 0 < l.virtualNodes
    ensures LookUp(ring, nodeMap, h) == Some(Owner(l, nodes, h))
  {
    var ps := Points(l, nodes);
    RingAndMapAgree(l, nodes, ring, nodeMap);
    NonEmptyProduct(|nodes|, l.virtualNodes);
    var first := FirstAtLeast(ring, h);
    var at := ring[if first == |ring| then 0 else first];
    var k := Nearest(ps, h);
    HashesAt(ps);
    NearestIsNearest(ps, h);
    assert ps[k].at in Hashes(ps);
    LastWriterKeys(ps);
    assert ps[k].at in ring;
    FirstIsNearest(ring, h, ps[k].at);
    assert at in Hashes(ps) by {
      assert at in ring;
    }
    var j :| 0 <= j < |ps| && Hashes(ps)[j] == at;
    assert Clockwise(h, ps[k].at) <= Clockwise(h, ps[j].at);
    SameDistanceSamePoint(h, at, ps[k].at);
    LastWriterIsLast(ps, k);
  }

  lemma NonEmptyProduct(m: nat, n: nat)
    requires 0 < m && 0 < n
    ensures 0 < m * n
  {
  }

  /** The hashes of all virtual nodes, backend by backend. */
  function AllHashes(l: Layout, nodes: seq<Backend>): seq<Uint32>
    requires 0 < l.virtualNodes
  {
    seq(|nodes| * l.virtualNodes,
        k requires 0 <= k < |nodes| * l.virtualNodes =>
          HashOf(l, nodes, k / l.virtualNodes, k % l.virtualNodes))
  }

  /** The hash of virtual node `i` of backend number `n`. */
  function HashOf(l: Layout, nodes: seq<Backend>, n: int, i: nat): Uint32 {
    if 0 <= n < |nodes| then l.hash(nodes[n].url + "#" + Decimal(i)) else 0
  }

  lemma HashesSpelledOut(l: Layout, nodes: seq<Backend>)
    requires 0 < l.virtualNodes
    ensures Hashes(Points(l, nodes)) == AllHashes(l, nodes)
  {
    hide Decimal, Points, Hashes;
    var ps, w := Points(l, nodes), l.virtualNodes;
    HashesAt(ps);
    forall k | 0 <= k < |ps|
      ensures Hashes(ps)[k] == AllHashes(l, nodes)[k]
    {
      var n, i := k / w, k % w;
      RowOf(k, |nodes|, w);
      PointOfVirtualNode(l, nodes, n, i);
    }
  }

  // ----- the object -----

  lemma HashesAppend(ps: seq<Point>, p: Point)
    ensures Hashes(ps + [p]) == Hashes(ps) + [p.at]
    ensures LastWriter(ps + [p]) == LastWriter(ps)[p.at := p.node]
  {
  }

  lemma EmptyRing(l: Layout)
    ensures Points(l, []) == [] && Hashes([]) == [] && LastWriter([]) == map[]
  {
  }

  lemma PointsOfPrefix(l: Layout, nodes: seq<Backend>, n: nat)
    requires n < |nodes|
    ensures Points(l, nodes[..n + 1]) == Points(l, nodes[..n]) + PointsOf(l, nodes[n], l.virtualNodes)
    ensures |Points(l, nodes[..n])| + l.virtualNodes == |Points(l, nodes[..n + 1])| <= |nodes| * l.virtualNodes
  {
    hide Points, PointsOf;
    PointsAppend(l, nodes[..n], nodes[n]);
    assert nodes[..n + 1] == nodes[..n] + [nodes[n]];
    ProductGrows(n + 1, |nodes|, l.virtualNodes);
  }

  /** The index of a smallest element from `from` on. */
  method SmallestFrom(a: array<Uint32>, from: nat) returns (m: nat)
    requires from < a.Length
    ensures from <= m < a.Length
    ensures forall k :: from <= k < a.Length ==> a[m] <= a[k]
  {
    m := from;
    for j := from + 1 to a.Length
      invariant from <= m < a.Length
      invariant forall k :: from <= k < j ==> a[m] <= a[k]
    {
      if a[j] < a[m] {
        m := j;
      }
    }
  }

  method Swap(a: array<Uint32>, i: nat, j: nat)
    requires i <= j < a.Length
    modifies a
    ensures a[i] == old(a[j]) && a[j] == old(a[i])
    ensures forall k :: 0 <= k < a.Length && k != i && k != j ==> a[k] == old(a[k])
    ensures multiset(a[..]) == old(multiset(a[..]))
  {
    a[i], a[j] := a[j], a[i];
  }

  /** Stands for `sort.Slice`: any correct sort gives the same array, see `SortedIsUnique`. */
  method SortRing(a: array<Uint32>)
    modifies a
    ensures Sorted(a[..]) && multiset(a[..]) == old(multiset(a[..]))
  {
    for i := 0 to a.Length
      invariant multiset(a[..]) == old(multiset(a[..]))
      invariant forall j, k :: 0 <= j < k < i ==> a[j] <= a[k]
      invariant forall j, k :: 0 <= j < i <= k < a.Length ==> a[j] <= a[k]
    {
      var m := SmallestFrom(a, i);
      Swap(a, i, m);
    }
  }

  lemma FirstsAgree(s: seq<Uint32>, t: seq<Uint32>)
    requires Sorted(s) && Sorted(t) && multiset(s) == multiset(t) && s != []
    ensures t != [] && s[0] == t[0]
  {
    assert s[0] in multiset(s);
    var i :| 0 <= i < |t| && t[i] == s[0];
    assert t[0] in multiset(t);
    var j :| 0 <= j < |s| && s[j] == t[0];
  }

  lemma RestOf(s: seq<Uint32>)
    requires s != []
    ensures multiset(s[1..]) == multiset(s) - multiset{s[0]}
  {
    assert s == [s[0]] + s[1..];
  }

  lemma {:induction false} SortedIsUnique(s: seq<Uint32>, t: seq<Uint32>)
    requires Sorted(s) && Sorted(t) && multiset(s) == multiset(t)
    ensures s == t
  {
    if s == [] {
      assert |multiset(s)| == |multiset(t)|;
    } else {
      FirstsAgree(s, t);
      RestOf(s);
      RestOf(t);
      SortedIsUnique(s[1..], t[1..]);
      assert s == [s[0]] + s[1..] && t == [t[0]] + t[1..];
    }
  }

  /** The list whose ring is installed after `ensureRing(nodes)`: a fingerprint match keeps the old. */
  function AfterEnsure(built: seq<Backend>, nodes: seq<Backend>): seq<Backend> {
    if built != [] && Fingerprint(built) == Fingerprint(nodes) then built else nodes
  }

  class ConsistentHash {
    const layout: Layout
    var hashRing: array<Uint32>
    var nodeMap: map<Uint32, Backend>
    var lastNodesHash: Uint64
    var counter: Uint64
    ghost var built: seq<Backend> // the list the installed ring was built from

    ghost predicate Valid()
      reads this, hashRing
    {
      && 0 < layout.virtualNodes
      && IsRingOf(layout, built, hashRing[..], nodeMap)
      && lastNodesHash == Fingerprint(built)
    }

    constructor (hash: string -> Uint32, virtualNodes: int)
      ensures Valid() && built == [] && counter == 0 && fresh(hashRing)
      ensures layout == Layout(hash, if virtualNodes <= 0 then 150 else virtualNodes)
    {
      layout := Layout(hash, if virtualNodes <= 0 then 150 else virtualNodes);
      hashRing := new Uint32[0];
      nodeMap := map[];
      lastNodesHash := 0;
      counter := 0;
      built := [];
    }

    /** The inner loop of `buildHashRing`: the virtual nodes of one backend. */
    method WriteNode(ring: array<Uint32>, start: nat, owners: map<Uint32, Backend>, node: Backend, ghost before: seq<Point>)
      returns (owners': map<Uint32, Backend>)
      requires |before| == start && start + layout.virtualNodes <= ring.Length
      requires ring[..start] == Hashes(before) && owners == LastWriter(before)
      modifies ring
      ensures var done := before + PointsOf(layout, node, layout.virtualNodes);
              ring[..|done|] == Hashes(done) && owners' == LastWriter(done)
    {
      owners' := owners;
      ghost var done := before;
      for i := 0 to layout.virtualNodes
        invariant done == before + PointsOf(layout, node, i)
        invariant ring[..start + i] == Hashes(done) && owners' == LastWriter(done)
      {
        var h := layout.PointAt(node.url, i);
        HashesAppend(done, Point(h, node));
        assert PointsOf(layout, node, i + 1) == PointsOf(layout, node, i) + [Point(h, node)];
        hide Hashes, LastWriter, PointsOf;
        ring[start + i] := h;
        owners' := owners'[h := node];
        done := done + [Point(h, node)];
      }
    }

    method BuildHashRing(nodes: seq<Backend>, fp: Uint64)
      requires 0 < layout.virtualNodes && fp == Fingerprint(nodes)
      modifies `hashRing, `nodeMap, `lastNodesHash, `built
      ensures Valid() && built == nodes && fresh(hashRing)
      ensures multiset(hashRing[..]) == multiset(AllHashes(layout, nodes))
    {
      hide Decimal, AllHashes, Fingerprint, PointsOf, Hashes, LastWriter, Sorted;
      var ring := new Uint32[|nodes| * layout.virtualNodes];
      var owners: map<Uint32, Backend> := map[];
      var next := 0;
      EmptyRing(layout);
      for n := 0 to |nodes|
        invariant next == |Points(layout, nodes[..n])| <= ring.Length
        invariant ring[..next] == Hashes(Points(layout, nodes[..n]))
        invariant owners == LastWriter(Points(layout, nodes[..n]))
      {
        PointsOfPrefix(layout, nodes, n);
        hide Points;
        owners := WriteNode(ring, next, owners, nodes[n], Points(layout, nodes[..n]));
        next := next + layout.virtualNodes;
      }
      assert nodes[..|nodes|] == nodes;
      assert ring[..] == ring[..next];
      SortRing(ring);
      HashesSpelledOut(layout, nodes);
      hashRing, nodeMap, lastNodesHash := ring, owners, fp;
      built := nodes;
    }

    method EnsureRing(nodes: seq<Backend>)
      requires Valid()
      modifies `hashRing, `nodeMap, `lastNodesHash, `built
      ensures Valid() && built == AfterEnsure(old(built), nodes)
      ensures hashRing == old(hashRing) || fresh(hashRing)
      ensures lastNodesHash == Weighted(Joined(nodes), |Joined(nodes)|) % 0x1_0000_0000_0000_0000
      ensures old(built) == [] || DifferInOneByte(Joined(old(built)), Joined(nodes)) ==> built == nodes
    {
      hide IsRingOf, Joined, Weighted, MixChar, DifferInOneByte;
      FingerprintIsPolynomial(nodes);
      if DifferInOneByte(Joined(built), Joined(nodes)) {
        OneByteChanges(built, nodes);
      }
      var fp: Uint64 := 0;
      for n := 0 to |nodes|
        invariant fp == Fingerprint(nodes[..n])
      {
        var url := nodes[n].url;
        ghost var start := fp;
        for i := 0 to |url|
          invariant fp == Mix(start, url[..i])
        {
          fp := MixChar(fp, url[i]);
          assert url[..i + 1][..i] == url[..i];
        }
        assert url[..|url|] == url;
        assert nodes[..n + 1][..n] == nodes[..n];
      }
      assert nodes[..|nodes|] == nodes;
      RingAndMapAgree(layout, built, hashRing[..], nodeMap);
      if built != [] {
        NonEmptyProduct(|built|, layout.virtualNodes);
      }
      if lastNodesHash == fp && 0 < hashRing.Length {
        return;
      }
      BuildHashRing(nodes, fp);
    }

    /** `sort.Search` and the look-up in `nodeMap`. */
    method GetNode(h: Uint32) returns (r: Backend?)
      requires Valid()
      ensures built == [] ==> r == null
      ensures built != [] ==> r == Owner(layout, built, h)
      ensures built != [] ==> exists n, i :: 0 <= n < |built| && 0 <= i < layout.virtualNodes &&
                                             r == built[n] && IsNearestNode(layout, built, h, n, i)
    {
      hide IsNearestNode, Owner, Points, LastWriter, Hashes, FirstAtLeast;
      RingAndMapAgree(layout, built, hashRing[..], nodeMap);
      if hashRing.Length == 0 {
        if built != [] {
          NonEmptyProduct(|built|, layout.virtualNodes);
        }
        return null;
      }
      OwnerIsNearest(layout, built, h);
      var i, j := 0, hashRing.Length;
      while i < j
        invariant 0 <= i <= j <= hashRing.Length
        invariant forall k :: 0 <= k < i ==> hashRing[k] < h
        invariant forall k :: j <= k < hashRing.Length ==> h <= hashRing[k]
      {
        var mid := i + (j - i) / 2;
        if hashRing[mid] < h {
          i := mid + 1;
        } else {
          j := mid;
        }
      }
      FirstAtLeastIsUnique(hashRing[..], h, i);
      if i == hashRing.Length {
        i := 0;
      }
      LookUpFindsOwner(layout, built, hashRing[..], nodeMap, h);
      assert hashRing[i] == hashRing[..][i];
      r := if hashRing[i] in nodeMap then nodeMap[hashRing[i]] else null;
    }

    /** An unkeyed selection hashes a running number. */
    method Select(pool: Pool) returns (r: Backend?)
      requires Valid()
      modifies `hashRing, `nodeMap, `lastNodesHash, `built, `counter
      ensures Valid() && (hashRing == old(hashRing) || fresh(hashRing))
      ensures var nodes := Keep(pool.backends, Live(pool.backends));
              if nodes == [] then r == null && built == old(built) && counter == old(counter)
              else
                && built == AfterEnsure(old(built), nodes) && counter == Inc64(old(counter))
                && r == Owner(layout, built, layout.hash("req-" + Decimal(counter)))
    {
      hide IsRingOf, Fingerprint, Keep, Decimal, Owner;
      var nodes := pool.HealthyBackends();
      if nodes == [] {
        return null;
      }
      EnsureRing(nodes);
      counter := Inc64(counter);
      r := GetNode(layout.hash("req-" + Decimal(counter)));
    }

    method SelectKey(pool: Pool, key: string) returns (r: Backend?)
      requires Valid()
      modifies `hashRing, `nodeMap, `lastNodesHash, `built, `counter
      ensures Valid() && (hashRing == old(hashRing) || fresh(hashRing))
      ensures var nodes := Keep(pool.backends, Live(pool.backends));
              if nodes == [] then r == null && built == old(built) && counter == old(counter)
              else
                && built == AfterEnsure(old(built), nodes)
                && counter == (if key == "" then Inc64(old(counter)) else old(counter))
                && r == Owner(layout, built, layout.hash(if key == "" then "req-" + Decimal(counter) else key))
    {
      hide IsRingOf, Fingerprint, Keep, Decimal, Owner;
      var nodes := pool.HealthyBackends();
      if nodes == [] {
        return null;
      }
      EnsureRing(nodes);
      if key == "" {
        r := Select(pool);
        return;
      }
      r := GetNode(layout.hash(key));
    }
  }
}
