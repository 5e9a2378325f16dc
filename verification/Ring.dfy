/**
 Which backend owns a key under consistent hashing: the plain definition, by distance on the circle
 of 32-bit hashes, and what becomes of ownership when backends come and go.
 */
module Ring {
  import opened Words
  import opened Backends

  function Decimal(n: nat): string {
    if n < 10 then [('0' as int + n) as char]
    else Decimal(n / 10) + [('0' as int + n % 10) as char]
  }

  function Digit(c: char): int {
    c as int - '0' as int
  }

  /** What a decimal numeral stands for. */
  function Value(s: string): int {
    if s == "" then 0 else Value(s[..|s| - 1]) * 10 + Digit(s[|s| - 1])
  }

  lemma {:induction false} DecimalRoundTrip(n: nat)
    ensures Decimal(n) != "" && Value(Decimal(n)) == n
    ensures forall i :: 0 <= i < |Decimal(n)| ==> '0' <= Decimal(n)[i] <= '9'
    ensures if n < 10 then |Decimal(n)| == 1 else Decimal(n)[0] != '0'
  {
    var s := Decimal(n);
    if n < 10 {
      assert s[..0] == "";
    } else {
      DecimalRoundTrip(n / 10);
      assert s[..|s| - 1] == Decimal(n / 10);
    }
  }

  function VirtualKey(url: string, i: nat): string {
    url + "#" + Decimal(i)
  }

  /** No two virtual nodes hash the same string: only the hash function can make them collide. */
  lemma VirtualKeysAreDistinct(u: string, i: nat, v: string, j: nat)
    requires VirtualKey(u, i) == VirtualKey(v, j)
    ensures u == v && i == j
  {
    hide Decimal;
    DecimalRoundTrip(i);
    DecimalRoundTrip(j);
    var a, b := VirtualKey(u, i), VirtualKey(v, j);
    assert a[|u|] == '#' && b[|v|] == '#';
    if |u| == |v| {
      assert u == a[..|u|] && v == b[..|v|];
      assert Decimal(i) == a[|u| + 1..] && Decimal(j) == b[|v| + 1..];
    }
  }

  /** A hash function (FNV-1a in the program) and the number of virtual nodes per backend. */
  datatype Layout = Layout(hash: string -> Uint32, virtualNodes: nat) {
    function PointAt(url: string, i: nat): Uint32 {
      hash(VirtualKey(url, i))
    }
  }

  /** One virtual node on the circle. */
  datatype Point = Point(at: Uint32, node: Backend)

  /** The first `n` virtual nodes of a backend. */
  function PointsOf(l: Layout, node: Backend, n: nat): (ps: seq<Point>)
    ensures |ps| == n
  {
    if n == 0 then [] else PointsOf(l, node, n - 1) + [Point(l.PointAt(node.url, n - 1), node)]
  }

  /** All virtual nodes in the order in which they are written. */
  function Points(l: Layout, nodes: seq<Backend>): (ps: seq<Point>)
    ensures |ps| == |nodes| * l.virtualNodes
  {
    if nodes == [] then []
    else Points(l, nodes[..|nodes| - 1]) + PointsOf(l, nodes[|nodes| - 1], l.virtualNodes)
  }

  /** How far clockwise from `h` the point `p` lies. */
  function Clockwise(h: Uint32, p: Uint32): (d: Uint32)
    ensures (h + d) % TWO32 == p
  {
    if h <= p then p - h else p - h + TWO32
  }

  /** The index of the nearest point clockwise; of several at that distance, the last written. */
  function Nearest(ps: seq<Point>, h: Uint32): (k: nat)
    requires ps != []
    ensures k < |ps|
  {
    var last := |ps| - 1;
    if last == 0 then 0
    else
      var k := Nearest(ps[..last], h);
      if Clockwise(h, ps[last].at) <= Clockwise(h, ps[k].at) then last else k
  }

  /** `Nearest` is what its description says, and nothing else is. */
  lemma {:induction false} NearestIsNearest(ps: seq<Point>, h: Uint32)
    requires ps != []
    ensures var k := Nearest(ps, h);
            forall j :: 0 <= j < |ps| ==>
              && Clockwise(h, ps[k].at) <= Clockwise(h, ps[j].at)
              && (k < j ==> Clockwise(h, ps[k].at) < Clockwise(h, ps[j].at))
  {
    var last := |ps| - 1;
    if last > 0 {
      NearestIsNearest(ps[..last], h);
      forall j | 0 <= j < |ps|
        ensures Clockwise(h, ps[Nearest(ps, h)].at) <= Clockwise(h, ps[j].at)
        ensures Nearest(ps, h) < j ==> Clockwise(h, ps[Nearest(ps, h)].at) < Clockwise(h, ps[j].at)
      {
        if j < last {
          assert ps[..last][j] == ps[j];
        }
      }
    }
  }

  /** The owner of hash `h` among `nodes`. */
  function Owner(l: Layout, nodes: seq<Backend>, h: Uint32): Backend
    requires nodes != [] && 0 < l.virtualNodes
  {
    Points(l, nodes)[Nearest(Points(l, nodes), h)].node
  }

  lemma {:induction false} PointsOfNode(l: Layout, node: Backend, n: nat)
    ensures forall k :: 0 <= k < n ==> PointsOf(l, node, n)[k] == Point(l.PointAt(node.url, k), node)
  {
    if n > 0 {
      PointsOfNode(l, node, n - 1);
    }
  }

  lemma {:induction false} PointsBelong(l: Layout, nodes: seq<Backend>)
    ensures forall p :: p in Points(l, nodes) ==> p.node in nodes
  {
    if nodes != [] {
      PointsBelong(l, nodes[..|nodes| - 1]);
      PointsOfNode(l, nodes[|nodes| - 1], l.virtualNodes);
    }
  }

  lemma ProductGrows(m: nat, n: nat, k: nat)
    requires m <= n
    ensures m * k <= n * k
  {
  }

  lemma InRow(m: nat, n: nat, j: nat, k: nat)
    requires m < n && j < k
    ensures m * k + j < n * k
  {
    ProductGrows(m + 1, n, k);
    assert (m + 1) * k == m * k + k;
  }

  /** Where place `k` of `n` rows of length `w` is. */
  lemma RowOf(k: nat, n: nat, w: nat)
    requires k < n * w
    ensures 0 < w && k / w < n && k % w < w && k / w * w + k % w == k
  {
    assert k / w * w + k % w == k;
    if n <= k / w {
      ProductGrows(n, k / w, w);
    }
  }

  /** Virtual node `j` of backend number `m` is written at the hash of its own string. */
  lemma {:induction false} PointOfVirtualNode(l: Layout, nodes: seq<Backend>, m: nat, j: nat)
    requires m < |nodes| && j < l.virtualNodes
    ensures m * l.virtualNodes + j < |Points(l, nodes)|
    ensures Points(l, nodes)[m * l.virtualNodes + j] == Point(l.hash(nodes[m].url + "#" + Decimal(j)), nodes[m])
  {
    hide PointsOf, Decimal;
    var last := |nodes| - 1;
    InRow(m, |nodes|, j, l.virtualNodes);
    PointsOfNode(l, nodes[last], l.virtualNodes);
    if m < last {
      InRow(m, last, j, l.virtualNodes);
      PointOfVirtualNode(l, nodes[..last], m, j);
    }
  }

  /** Of all virtual nodes, number `i` of backend number `n` is the nearest clockwise from `h`, and the
      last written of those that are. */
  ghost predicate IsNearestNode(l: Layout, nodes: seq<Backend>, h: Uint32, n: nat, i: nat)
    requires n < |nodes|
  {
    forall m, j :: 0 <= m < |nodes| && 0 <= j < l.virtualNodes ==>
      var mine := Clockwise(h, l.hash(nodes[n].url + "#" + Decimal(i)));
      var other := Clockwise(h, l.hash(nodes[m].url + "#" + Decimal(j)));
      if n < m || (n == m && i < j) then mine < other else mine <= other
  }

  /** Ownership read off the hashes of the strings. */
  lemma OwnerIsNearest(l: Layout, nodes: seq<Backend>, h: Uint32)
    requires nodes != [] && 0 < l.virtualNodes
    ensures exists n, i :: 0 <= n < |nodes| && 0 <= i < l.virtualNodes &&
                           Owner(l, nodes, h) == nodes[n] && IsNearestNode(l, nodes, h, n, i)
  {
    hide Points, Nearest, Clockwise, Decimal;
    var ps, w := Points(l, nodes), l.virtualNodes;
    var k := Nearest(ps, h);
    NearestIsNearest(ps, h);
    var n, i := k / w, k % w;
    RowOf(k, |nodes|, w);
    PointOfVirtualNode(l, nodes, n, i);
    forall m, j | 0 <= m < |nodes| && 0 <= j < w
      ensures var mine := Clockwise(h, l.hash(nodes[n].url + "#" + Decimal(i)));
              var other := Clockwise(h, l.hash(nodes[m].url + "#" + Decimal(j)));
              if n < m || (n == m && i < j) then mine < other else mine <= other
    {
      PointOfVirtualNode(l, nodes, m, j);
      if n < m {
        InRow(n, m, i, w);
      }
    }
    assert IsNearestNode(l, nodes, h, n, i);
  }

  lemma OwnerIsMember(l: Layout, nodes: seq<Backend>, h: Uint32)
    requires nodes != [] && 0 < l.virtualNodes
    ensures Owner(l, nodes, h) in nodes
  {
    PointsBelong(l, nodes);
  }

  // ----- ownership when backends come and go -----

  /** The points of live backends. */
  function KeepPoints(ps: seq<Point>, live: set<Backend>): (kept: seq<Point>)
    ensures forall p :: p in kept ==> p in ps
  {
    if ps == [] then []
    else
      var front := KeepPoints(ps[..|ps| - 1], live);
      if ps[|ps| - 1].node in live then front + [ps[|ps| - 1]] else front
  }

  lemma {:induction false} KeepPointsAppend(ps: seq<Point>, qs: seq<Point>, live: set<Backend>)
    ensures KeepPoints(ps + qs, live) == KeepPoints(ps, live) + KeepPoints(qs, live)
  {
    if qs == [] {
      assert ps + qs == ps;
    } else {
      assert (ps + qs)[..|ps + qs| - 1] == ps + qs[..|qs| - 1];
      KeepPointsAppend(ps, qs[..|qs| - 1], live);
    }
  }

  lemma {:induction false} KeepPointsOf(l: Layout, node: Backend, n: nat, live: set<Backend>)
    ensures KeepPoints(PointsOf(l, node, n), live) == if node in live then PointsOf(l, node, n) else []
  {
    if n > 0 {
      KeepPointsOf(l, node, n - 1, live);
      assert PointsOf(l, node, n)[..n - 1] == PointsOf(l, node, n - 1);
    }
  }

  lemma {:induction false} PointsAppend(l: Layout, nodes: seq<Backend>, node: Backend)
    ensures Points(l, nodes + [node]) == Points(l, nodes) + PointsOf(l, node, l.virtualNodes)
  {
  }

  /** Because the pool keeps its order, dropping backends just drops their points. */
  lemma {:induction false} PointsOfKept(l: Layout, nodes: seq<Backend>, live: set<Backend>)
    ensures Points(l, Keep(nodes, live)) == KeepPoints(Points(l, nodes), live)
  {
    if nodes != [] {
      var front, last := nodes[..|nodes| - 1], nodes[|nodes| - 1];
      PointsOfKept(l, front, live);
      PointsAppend(l, Keep(front, live), last);
      KeepPointsAppend(Points(l, front), PointsOf(l, last, l.virtualNodes), live);
      KeepPointsOf(l, last, l.virtualNodes, live);
    }
  }

  /** A nearest point that stays is still the nearest. */
  lemma {:induction false} NearestKept(ps: seq<Point>, live: set<Backend>, h: Uint32)
    requires ps != [] && ps[Nearest(ps, h)].node in live
    ensures KeepPoints(ps, live) != []
    ensures KeepPoints(ps, live)[Nearest(KeepPoints(ps, live), h)] == ps[Nearest(ps, h)]
  {
    hide Clockwise;
    var last := |ps| - 1;
    var front := ps[..last];
    var kept := KeepPoints(front, live);
    if last == 0 {
      assert kept == [];
    } else {
      var k := Nearest(front, h);
      NearestIsNearest(ps, h);
      if Nearest(ps, h) == last {
        assert (kept + [ps[last]])[..|kept|] == kept;
        if kept != [] {
          assert kept[Nearest(kept, h)] in kept;
          var j :| 0 <= j < |front| && front[j] == kept[Nearest(kept, h)];
          assert ps[j] == front[j];
        }
      } else {
        assert front[k] == ps[k];
        NearestKept(front, live, h);
        assert (kept + [ps[last]])[..|kept|] == kept;
      }
    }
  }

  /** A key whose owner survives keeps its owner, whatever set of other backends goes down; true
      even when virtual nodes of different backends collide. */
  lemma MinimalDisruption(l: Layout, all: seq<Backend>, before: set<Backend>, after: set<Backend>, h: Uint32)
    requires 0 < l.virtualNodes && after <= before
    requires Keep(all, before) != [] && Owner(l, Keep(all, before), h) in after
    ensures Keep(all, after) != []
    ensures Owner(l, Keep(all, after), h) == Owner(l, Keep(all, before), h)
  {
    var nodes := Keep(all, before);
    OwnerIsMember(l, nodes, h);
    KeepKeep(all, before, after);
    PointsOfKept(l, nodes, after);
    NearestKept(Points(l, nodes), after, h);
  }

  /** Bringing `x` up, wherever it stands in the pool, moves keys to `x` only; taking it down moves
      only the keys it owned. */
  lemma OnlyTheChangedBackendMoves(l: Layout, all: seq<Backend>, live: set<Backend>, x: Backend, h: Uint32)
    requires 0 < l.virtualNodes && Keep(all, live) != []
    ensures Keep(all, live + {x}) != []
    ensures var with, without := Owner(l, Keep(all, live + {x}), h), Owner(l, Keep(all, live), h);
            with != without ==> with == x
  {
    var b := Keep(all, live)[0];
    assert b in Keep(all, live) && b in Keep(all, live + {x});
    var with := Owner(l, Keep(all, live + {x}), h);
    OwnerIsMember(l, Keep(all, live + {x}), h);
    if with != x {
      MinimalDisruption(l, all, live + {x}, live, h);
    }
  }
}
