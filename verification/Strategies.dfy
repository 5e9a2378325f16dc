/** The other selection strategies and the shares they give. */
module Strategies {
  import opened Words
  import opened Backends

  // ----- counting tickets that fall into a residue range -----

  predicate Falls(t: nat, w: nat, lo: nat, hi: nat)
    requires 0 < w
  {
    lo <= t % w < hi
  }

  /** How many of the tickets c, c+1, ..., c+n-1 have a residue modulo `w` from `lo` up to `hi`. */
  function Hits(c: nat, n: nat, w: nat, lo: nat, hi: nat): nat
    requires 0 < w
  {
    if n == 0 then 0 else Hits(c, n - 1, w, lo, hi) + if Falls(c + n - 1, w, lo, hi) then 1 else 0
  }

  lemma {:induction false} HitsSplit(c: nat, m: nat, n: nat, w: nat, lo: nat, hi: nat)
    requires 0 < w
    ensures Hits(c, m + n, w, lo, hi) == Hits(c, m, w, lo, hi) + Hits(c + m, n, w, lo, hi)
  {
    hide Falls;
    if n > 0 {
      HitsSplit(c, m, n - 1, w, lo, hi);
      assert c + (m + n) - 1 == c + m + n - 1;
    }
  }

  lemma {:induction false} HitsFromZero(n: nat, w: nat, lo: nat, hi: nat)
    requires 0 < w && n <= w && lo <= hi <= w
    ensures Hits(0, n, w, lo, hi) == if n <= lo then 0 else if n <= hi then n - lo else hi - lo
  {
    if n > 0 {
      HitsFromZero(n - 1, w, lo, hi);
      SmallResidue(n - 1, w);
    }
  }

  lemma SmallResidue(t: nat, w: nat)
    requires t < w
    ensures t % w == t
  {
  }

  lemma OneMore(n: nat, w: nat)
    requires 0 < w
    ensures (n + w) / w == n / w + 1 && (n + w) % w == n % w
  {
    AddMultiple(n, 1, w);
  }

  /** Any `w` consecutive tickets hit the range once per residue. */
  lemma {:induction false} OnePeriod(c: nat, w: nat, lo: nat, hi: nat)
    requires 0 < w && lo <= hi <= w
    ensures Hits(c, w, w, lo, hi) == hi - lo
  {
    hide Hits, Falls;
    if c == 0 {
      HitsFromZero(w, w, lo, hi);
    } else {
      OnePeriod(c - 1, w, lo, hi);
      HitsSplit(c - 1, 1, w, w, lo, hi);
      HitsSplit(c - 1, w, 1, w, lo, hi);
      OneTicket(c - 1, w, lo, hi);
      OneTicket(c - 1 + w, w, lo, hi);
      SameFall(c - 1, w, lo, hi);
      assert 1 + w == w + 1;
    }
  }

  lemma OneTicket(c: nat, w: nat, lo: nat, hi: nat)
    requires 0 < w
    ensures Hits(c, 1, w, lo, hi) == if Falls(c, w, lo, hi) then 1 else 0
  {
  }

  lemma SameFall(c: nat, w: nat, lo: nat, hi: nat)
    requires 0 < w
    ensures Falls(c + w, w, lo, hi) == Falls(c, w, lo, hi)
  {
    OneMore(c, w);
  }

  lemma {:induction false} HitsBound(c: nat, n: nat, w: nat, lo: nat, hi: nat)
    requires 0 < w
    ensures Hits(c, n, w, lo, hi) <= n
  {
    hide Falls;
    if n > 0 {
      HitsBound(c, n - 1, w, lo, hi);
    }
  }

  /** Over `n` tickets from any start: one full share per period, and in the rest no more than a
      share and no more than the tickets left. */
  lemma {:induction false} HitsOverall(c: nat, n: nat, w: nat, lo: nat, hi: nat)
    requires 0 < w && lo <= hi <= w
    ensures var r := Hits(c, n, w, lo, hi) - n / w * (hi - lo);
            0 <= r <= hi - lo && r <= n % w
    decreases n
  {
    hide Hits;
    if n < w {
      SmallResidue(n, w);
      HitsBound(c, n, w, lo, hi);
      HitsSplit(c, n, w - n, w, lo, hi);
      OnePeriod(c, w, lo, hi);
      assert n / w == 0;
    } else {
      HitsSplit(c, w, n - w, w, lo, hi);
      OnePeriod(c, w, lo, hi);
      HitsOverall(c + w, n - w, w, lo, hi);
      OneMore(n - w, w);
      var q := (n - w) / w;
      assert (q + 1) * (hi - lo) == q * (hi - lo) + (hi - lo);
    }
  }

  // ----- weighted round robin -----

  function Weights(nodes: seq<Backend>): (ws: seq<int>)
    ensures |ws| == |nodes| && forall i :: 0 <= i < |ws| ==> ws[i] == nodes[i].weight
  {
    seq(|nodes|, i requires 0 <= i < |nodes| => nodes[i].weight)
  }

  ghost predicate Positive(ws: seq<int>) {
    forall i :: 0 <= i < |ws| ==> 1 <= ws[i]
  }

  /** The total weight of the first `n`. */
  function Prefix(ws: seq<int>, n: nat): int
    requires n <= |ws|
  {
    if n == 0 then 0 else Prefix(ws, n - 1) + ws[n - 1]
  }

  lemma {:induction false} PrefixGrows(ws: seq<int>, m: nat, n: nat)
    requires m <= n <= |ws| && Positive(ws)
    ensures Prefix(ws, m) + (n - m) <= Prefix(ws, n)
    decreases n
  {
    if m < n {
      PrefixGrows(ws, m, n - 1);
    }
  }

  /** Slot `j` covers `t`. */
  predicate Covers(ws: seq<int>, t: int, j: nat)
    requires j < |ws|
  {
    Prefix(ws, j) <= t < Prefix(ws, j + 1)
  }

  lemma OneSlotCovers(ws: seq<int>, t: int, j: nat, k: nat)
    requires j < |ws| && k < |ws| && Positive(ws) && Covers(ws, t, j) && Covers(ws, t, k)
    ensures j == k
  {
    if j < k {
      PrefixGrows(ws, j + 1, k);
    } else if k < j {
      PrefixGrows(ws, k + 1, j);
    }
  }

  /** Go's `%`: the sign of the dividend. */
  function GoMod(a: int, b: int): int
    requires 0 < b
  {
    if 0 <= a then a % b else -(-a % b)
  }

  /** `x + 1` on an int64 */
  function IncInt64(x: int): int {
    if x == 0x7FFF_FFFF_FFFF_FFFF then -0x8000_0000_0000_0000 else x + 1
  }

  method TotalWeight(nodes: seq<Backend>) returns (total: int)
    ensures total == Prefix(Weights(nodes), |nodes|)
  {
    total := 0;
    for i := 0 to |nodes|
      invariant total == Prefix(Weights(nodes), i)
    {
      total := total + nodes[i].weight;
    }
  }

  /** The loop over running weights; the line after it is never reached. */
  method SlotFor(nodes: seq<Backend>, target: int) returns (j: nat)
    requires nodes != [] && Positive(Weights(nodes)) && target < Prefix(Weights(nodes), |nodes|)
    ensures j < |nodes| && if target < 0 then j == 0 else Covers(Weights(nodes), target, j)
  {
    var runningWeight := 0;
    for i := 0 to |nodes|
      invariant runningWeight == Prefix(Weights(nodes), i)
      invariant 0 < i ==> 0 <= runningWeight <= target
    {
      assert 1 <= Weights(nodes)[i];
      runningWeight := runningWeight + nodes[i].weight;
      if target < runningWeight {
        return i;
      }
    }
    assert false;
  }

  /** The slot that counter value `current` leads to. */
  ghost predicate IsChoice(ws: seq<int>, current: int, j: nat)
    requires j < |ws| && 0 < Prefix(ws, |ws|)
  {
    var t := GoMod(current, Prefix(ws, |ws|));
    if t < 0 then j == 0 else Covers(ws, t, j)
  }

  /** Counter value `current` leads to `r`. */
  ghost predicate ChosenBy(nodes: seq<Backend>, current: int, r: Backend?)
    requires 0 < Prefix(Weights(nodes), |nodes|)
  {
    exists j :: 0 <= j < |nodes| && r == nodes[j] && IsChoice(Weights(nodes), current, j)
  }

  class WeightedRoundRobin {
    var currentWeight: int

    constructor ()
      ensures currentWeight == 0
    {
      currentWeight := 0;
    }

    /** With the weights that `NewBackend` makes, neither the zero-weight branch nor the last line
        is ever reached; after the counter has wrapped to a negative number the first backend gets
        every request. */
    method Select(pool: Pool) returns (r: Backend?)
      requires forall b :: b in pool.backends ==> 1 <= b.weight
      modifies this
      ensures var nodes := Keep(pool.backends, Live(pool.backends));
              if nodes == [] then r == null && currentWeight == old(currentWeight)
              else
                && r != null
                && currentWeight == (if old(currentWeight) == 0x7FFF_FFFF_FFFF_FFFF then -0x8000_0000_0000_0000
                                     else old(currentWeight) + 1)
                && 0 < Prefix(Weights(nodes), |nodes|)
                && ChosenBy(nodes, old(currentWeight), r)
    {
      var nodes := pool.HealthyBackends();
      if nodes == [] {
        return null;
      }
      PrefixGrows(Weights(nodes), 0, |nodes|);
      var totalWeight := TotalWeight(nodes);
      if totalWeight == 0 {
        assert false;
      }
      var current := currentWeight;
      currentWeight := IncInt64(current);
      var target := GoMod(current, totalWeight);
      assert target < totalWeight;
      hide Keep, GoMod, Prefix, Weights;
      var j := SlotFor(nodes, target);
      r := nodes[j];
    }
  }

  /** Ticket `t` goes to slot `j`. */
  predicate Takes(ws: seq<int>, t: nat, j: nat)
    requires j < |ws| && 0 < Prefix(ws, |ws|)
  {
    Covers(ws, t % Prefix(ws, |ws|), j)
  }

  /** How many of the tickets c, ..., c+n-1 go to slot `j`. */
  function Served(ws: seq<int>, j: nat, c: nat, n: nat): nat
    requires j < |ws| && 0 < Prefix(ws, |ws|)
  {
    if n == 0 then 0
    else Served(ws, j, c, n - 1) + if Takes(ws, c + n - 1, j) then 1 else 0
  }

  lemma {:induction false} ServedIsHits(ws: seq<int>, j: nat, c: nat, n: nat)
    requires j < |ws| && Positive(ws) && 0 < Prefix(ws, |ws|) && 0 <= Prefix(ws, j) <= Prefix(ws, j + 1)
    ensures Served(ws, j, c, n) == Hits(c, n, Prefix(ws, |ws|), Prefix(ws, j), Prefix(ws, j + 1))
  {
    if n > 0 {
      ServedIsHits(ws, j, c, n - 1);
    }
  }

  /** Of `n` serial selections on a fixed healthy list of total weight W, from any non-negative
      counter value c, backend `j` gets n/W times its weight and at most one share more; exactly its weight over W. */
  lemma WeightedFairness(ws: seq<int>, j: nat, c: nat, n: nat)
    requires j < |ws| && Positive(ws)
    ensures 0 < Prefix(ws, |ws|)
    ensures var w := Prefix(ws, |ws|);
            var extra := Served(ws, j, c, n) - n / w * ws[j];
            0 <= extra <= ws[j] && extra <= n % w
    ensures Served(ws, j, c, Prefix(ws, |ws|)) == ws[j]
  {
    PrefixGrows(ws, 0, j);
    PrefixGrows(ws, j, j + 1);
    PrefixGrows(ws, j + 1, |ws|);
    var w, lo, hi := Prefix(ws, |ws|), Prefix(ws, j), Prefix(ws, j + 1);
    assert hi - lo == ws[j];
    ServedIsHits(ws, j, c, n);
    ServedIsHits(ws, j, c, w);
    hide Prefix, Served, Hits;
    HitsOverall(c, n, w, lo, hi);
    OnePeriod(c, w, lo, hi);
  }

  /** A counter that has wrapped leads to the first slot, whatever its value. */
  lemma WrappedPicksFirst(ws: seq<int>, current: int, j: nat)
    requires j < |ws| && Positive(ws) && 0 < Prefix(ws, |ws|) && current < 0
    ensures IsChoice(ws, current, j) <==> j == 0
  {
    assert GoMod(current, Prefix(ws, |ws|)) <= 0;
    PrefixGrows(ws, 0, j);
    PrefixGrows(ws, 0, 1);
  }

  /** How many of the counter values c, ..., c+n-1 lead to slot `j`. */
  ghost function Picked(ws: seq<int>, j: nat, c: int, n: nat): nat
    requires j < |ws| && 0 < Prefix(ws, |ws|)
  {
    if n == 0 then 0
    else Picked(ws, j, c, n - 1) + if IsChoice(ws, c + n - 1, j) then 1 else 0
  }

  lemma {:induction false} PickedSplit(ws: seq<int>, j: nat, c: int, m: nat, n: nat)
    requires j < |ws| && 0 < Prefix(ws, |ws|)
    ensures Picked(ws, j, c, m + n) == Picked(ws, j, c, m) + Picked(ws, j, c + m, n)
  {
    hide IsChoice, Prefix;
    if n > 0 {
      PickedSplit(ws, j, c, m, n - 1);
      assert c + (m + n) - 1 == c + m + n - 1;
    }
  }

  lemma {:induction false} PickedIsServed(ws: seq<int>, j: nat, c: nat, n: nat)
    requires j < |ws| && 0 < Prefix(ws, |ws|)
    ensures Picked(ws, j, c, n) == Served(ws, j, c, n)
  {
    hide Prefix, Covers;
    if n > 0 {
      PickedIsServed(ws, j, c, n - 1);
    }
  }

  lemma {:induction false} WrappedAllToFirst(ws: seq<int>, c: int, n: nat)
    requires ws != [] && Positive(ws) && 0 < Prefix(ws, |ws|) && c + n <= 0
    ensures Picked(ws, 0, c, n) == n
  {
    hide IsChoice, Prefix, Positive;
    if n > 0 {
      WrappedAllToFirst(ws, c, n - 1);
      WrappedPicksFirst(ws, c + n - 1, 0);
    }
  }

  /** From a negative counter a period gives the first of several backends more than its weight. */
  lemma FirstGetsMore(ws: seq<int>, c: int)
    requires 2 <= |ws| && Positive(ws) && c < 0
    ensures 0 < Prefix(ws, |ws|) && ws[0] < Picked(ws, 0, c, Prefix(ws, |ws|))
  {
    PrefixGrows(ws, 0, 1);
    PrefixGrows(ws, 1, |ws|);
    var w := Prefix(ws, |ws|);
    assert 1 <= Prefix(ws, 1) == ws[0] < w;
    var m := if -c < w then -c else w;
    PickedSplit(ws, 0, c, m, w - m);
    WrappedAllToFirst(ws, c, m);
    if m < w {
      PickedIsServed(ws, 0, 0, w - m);
      ServedIsHits(ws, 0, 0, w - m);
      HitsFromZero(w - m, w, 0, ws[0]);
    }
  }

  /** While the counter does not wrap, a period of W selections gives every backend exactly its
      weight if and only if it begins with a non-negative counter or there is only one backend. */
  lemma FairExactly(ws: seq<int>, c: int)
    requires ws != [] && Positive(ws)
    ensures 0 < Prefix(ws, |ws|)
    ensures (forall j :: 0 <= j < |ws| ==> Picked(ws, j, c, Prefix(ws, |ws|)) == ws[j]) <==> 0 <= c || |ws| == 1
  {
    hide Picked, IsChoice, Covers;
    PrefixGrows(ws, 0, |ws|);
    var w := Prefix(ws, |ws|);
    if 0 <= c {
      forall j | 0 <= j < |ws|
        ensures Picked(ws, j, c, w) == ws[j]
      {
        PickedIsServed(ws, j, c, w);
        WeightedFairness(ws, j, c, w);
      }
    } else if |ws| == 1 {
      OnlyOne(ws, c, w);
      assert w == Prefix(ws, 0) + ws[0];
    } else {
      FirstGetsMore(ws, c);
    }
  }

  lemma {:induction false} OnlyOne(ws: seq<int>, c: int, n: nat)
    requires |ws| == 1 && Positive(ws) && 0 < Prefix(ws, 1)
    ensures Picked(ws, 0, c, n) == n
  {
    if n > 0 {
      OnlyOne(ws, c, n - 1);
      var t := GoMod(c + n - 1, Prefix(ws, 1));
      assert t < Prefix(ws, 1);
    }
  }

  lemma ChoiceIsUnique(ws: seq<int>, current: nat, k: nat)
    requires k < |ws| && Positive(ws) && 0 < Prefix(ws, |ws|) && IsChoice(ws, current, k)
    ensures forall j :: 0 <= j < |ws| ==> (Takes(ws, current, j) <==> j == k)
  {
    var t := current % Prefix(ws, |ws|);
    forall j | 0 <= j < |ws| && Takes(ws, current, j)
      ensures j == k
    {
      OneSlotCovers(ws, t, j, k);
    }
  }

  ghost predicate Distinct(nodes: seq<Backend>) {
    forall i, j :: 0 <= i < j < |nodes| ==> nodes[i] != nodes[j]
  }

  /** Each backend occurs among the chosen as often as its slot covers the tickets from `c` on. */
  ghost predicate Shares(nodes: seq<Backend>, chosen: seq<Backend>, c: nat)
    requires 0 < Prefix(Weights(nodes), |nodes|)
  {
    forall j :: 0 <= j < |nodes| ==> multiset(chosen)[nodes[j]] == Served(Weights(nodes), j, c, |chosen|)
  }

  lemma SharesStep(nodes: seq<Backend>, chosen: seq<Backend>, c: nat, r: Backend)
    requires 0 < Prefix(Weights(nodes), |nodes|) && Positive(Weights(nodes)) && Distinct(nodes)
    requires Shares(nodes, chosen, c) && ChosenBy(nodes, c + |chosen|, r)
    ensures Shares(nodes, chosen + [r], c)
  {
    hide Weights, Prefix, Takes, IsChoice, Positive;
    var k :| 0 <= k < |nodes| && r == nodes[k] && IsChoice(Weights(nodes), c + |chosen|, k);
    ChoiceIsUnique(Weights(nodes), c + |chosen|, k);
    forall j | 0 <= j < |nodes|
      ensures multiset(chosen + [r])[nodes[j]] == Served(Weights(nodes), j, c, |chosen| + 1)
    {
      assert multiset(chosen)[nodes[j]] == Served(Weights(nodes), j, c, |chosen|);
      assert (nodes[j] == r) == (j == k);
    }
  }

  /** The sum of the backends' weights. */
  function TotalOf(nodes: seq<Backend>): int {
    if nodes == [] then 0 else TotalOf(nodes[..|nodes| - 1]) + nodes[|nodes| - 1].weight
  }

  lemma {:induction false} PrefixIsTotal(nodes: seq<Backend>, n: nat)
    requires n <= |nodes|
    ensures Prefix(Weights(nodes), n) == TotalOf(nodes[..n])
  {
    hide Weights;
    if n > 0 {
      PrefixIsTotal(nodes, n - 1);
      assert nodes[..n][..n - 1] == nodes[..n - 1];
    }
  }

  /** Each backend of weight `b.weight` is chosen that often in every period of W selections, and at most
      once more that often in the rest; over W selections exactly that often. */
  ghost predicate FairlyChosen(nodes: seq<Backend>, chosen: seq<Backend>)
    requires 0 < TotalOf(nodes)
  {
    forall b :: b in nodes ==>
      var periods := |chosen| / TotalOf(nodes);
      && periods * b.weight <= multiset(chosen)[b] <= periods * b.weight + b.weight
      && (|chosen| == TotalOf(nodes) ==> multiset(chosen)[b] == b.weight)
  }

  lemma SharesAreFair(nodes: seq<Backend>, chosen: seq<Backend>, c: nat)
    requires 0 < Prefix(Weights(nodes), |nodes|) && Positive(Weights(nodes)) && Shares(nodes, chosen, c)
    ensures TotalOf(nodes) == Prefix(Weights(nodes), |nodes|) && FairlyChosen(nodes, chosen)
  {
    hide Weights, Prefix, Served, TotalOf, Positive;
    assert nodes[..|nodes|] == nodes;
    PrefixIsTotal(nodes, |nodes|);
    forall b | b in nodes
      ensures var periods := |chosen| / TotalOf(nodes);
              && periods * b.weight <= multiset(chosen)[b] <= periods * b.weight + b.weight
              && (|chosen| == TotalOf(nodes) ==> multiset(chosen)[b] == b.weight)
    {
      var j :| 0 <= j < |nodes| && nodes[j] == b;
      WeightedFairness(Weights(nodes), j, c, |chosen|);
    }
  }

  /** `n` selections in a row, while the pool's health does not change and the counter does not wrap:
      each backend is chosen exactly as often as `WeightedFairness` says. */
  method SelectSerially(wrr: WeightedRoundRobin, pool: Pool, n: nat) returns (chosen: seq<Backend>)
    requires forall b :: b in pool.backends ==> 1 <= b.weight
    requires Keep(pool.backends, Live(pool.backends)) != [] && Distinct(Keep(pool.backends, Live(pool.backends)))
    requires 0 <= wrr.currentWeight && wrr.currentWeight + n <= 0x7FFF_FFFF_FFFF_FFFF
    modifies wrr
    ensures var nodes := Keep(pool.backends, Live(pool.backends));
            && |chosen| == n && 0 < Prefix(Weights(nodes), |nodes|) && Shares(nodes, chosen, old(wrr.currentWeight))
            && 0 < TotalOf(nodes) && FairlyChosen(nodes, chosen)
  {
    hide TotalOf, FairlyChosen, Keep, Live, Weights, Shares, Prefix, Distinct, Positive, ChosenBy;
    ghost var nodes := Keep(pool.backends, Live(pool.backends));
    ghost var c := wrr.currentWeight;
    NodesArePositive(pool.backends, Live(pool.backends));
    NoShares(nodes, c);
    chosen := [];
    for i := 0 to n
      invariant nodes == Keep(pool.backends, Live(pool.backends))
      invariant |chosen| == i && wrr.currentWeight == c + i && Shares(nodes, chosen, c)
    {
      var r := wrr.Select(pool);
      SharesStep(nodes, chosen, c, r);
      chosen := chosen + [r];
    }
    SharesAreFair(nodes, chosen, c);
  }

  lemma NodesArePositive(all: seq<Backend>, live: set<Backend>)
    requires forall b :: b in all ==> 1 <= b.weight
    requires Keep(all, live) != []
    ensures Positive(Weights(Keep(all, live))) && 0 < Prefix(Weights(Keep(all, live)), |Keep(all, live)|)
  {
    var nodes := Keep(all, live);
    forall i | 0 <= i < |nodes|
      ensures 1 <= Weights(nodes)[i]
    {
      assert nodes[i] in nodes;
    }
    PrefixGrows(Weights(nodes), 0, |nodes|);
  }

  lemma NoShares(nodes: seq<Backend>, c: nat)
    requires 0 < Prefix(Weights(nodes), |nodes|)
    ensures Shares(nodes, [], c)
  {
  }

  // ----- round robin -----

  class RoundRobin {
    var next: Uint64

    constructor ()
      ensures next == 0
    {
      next := 0;
    }

    /** One atomic addition gives each call its own ticket. */
    method Select(pool: Pool) returns (r: Backend?)
      modifies this
      ensures var nodes := Keep(pool.backends, Live(pool.backends));
              if nodes == [] then r == null && next == old(next)
              else next == Inc64(old(next)) && r == nodes[old(next) % |nodes|]
    {
      var nodes := pool.HealthyBackends();
      if nodes == [] {
        return null;
      }
      next := Inc64(next);
      var ticket: Uint64 := if next == 0 then 0xFFFF_FFFF_FFFF_FFFF else next - 1;
      r := nodes[ticket % |nodes|];
    }
  }

  /** Any `k` consecutive tickets on a fixed healthy list of `n` visit two positions equally often up
      to one visit. */
  lemma RoundRobinFairness(n: nat, c: nat, k: nat, i: nat, j: nat)
    requires i < n && j < n
    ensures k / n <= Hits(c, k, n, i, i + 1) <= k / n + 1
    ensures Hits(c, k, n, i, i + 1) - Hits(c, k, n, j, j + 1) <= 1
  {
    hide Hits;
    HitsOverall(c, k, n, i, i + 1);
    HitsOverall(c, k, n, j, j + 1);
  }

  /** Each backend occurs among the chosen as often as the tickets from `c` on fall to its position. */
  ghost predicate Turns(nodes: seq<Backend>, chosen: seq<Backend>, c: nat)
    requires nodes != []
  {
    forall j :: 0 <= j < |nodes| ==> multiset(chosen)[nodes[j]] == Hits(c, |chosen|, |nodes|, j, j + 1)
  }

  /** The chosen follow each other in list order, from the position of ticket `c` round and round. */
  ghost predicate InTurn(nodes: seq<Backend>, chosen: seq<Backend>, c: nat)
    requires nodes != []
  {
    forall i :: 0 <= i < |chosen| ==> chosen[i] == nodes[(c + i) % |nodes|]
  }

  lemma InTurnStep(nodes: seq<Backend>, chosen: seq<Backend>, c: nat)
    requires nodes != [] && InTurn(nodes, chosen, c)
    ensures InTurn(nodes, chosen + [nodes[(c + |chosen|) % |nodes|]], c)
  {
  }

  lemma TurnsStep(nodes: seq<Backend>, chosen: seq<Backend>, c: nat)
    requires nodes != [] && Distinct(nodes) && Turns(nodes, chosen, c)
    ensures Turns(nodes, chosen + [nodes[(c + |chosen|) % |nodes|]], c)
  {
    var k := (c + |chosen|) % |nodes|;
    forall j | 0 <= j < |nodes|
      ensures multiset(chosen + [nodes[k]])[nodes[j]] == Hits(c, |chosen| + 1, |nodes|, j, j + 1)
    {
      assert multiset(chosen)[nodes[j]] == Hits(c, |chosen|, |nodes|, j, j + 1);
      assert (nodes[j] == nodes[k]) == (j == k);
    }
  }

  /** `n` selections in a row, while the pool's health does not change and the ticket does not wrap:
      each backend is chosen as often as `RoundRobinFairness` says. */
  method SelectInTurn(rr: RoundRobin, pool: Pool, n: nat) returns (chosen: seq<Backend>)
    requires Keep(pool.backends, Live(pool.backends)) != [] && Distinct(Keep(pool.backends, Live(pool.backends)))
    requires rr.next + n <= 0xFFFF_FFFF_FFFF_FFFF
    modifies rr
    ensures var nodes := Keep(pool.backends, Live(pool.backends));
            && |chosen| == n && Turns(nodes, chosen, old(rr.next))
            && InTurn(nodes, chosen, old(rr.next))
            && forall j :: 0 <= j < |nodes| ==> n / |nodes| <= multiset(chosen)[nodes[j]] <= n / |nodes| + 1
  {
    hide Keep, Live, Turns, InTurn, Distinct;
    ghost var nodes := Keep(pool.backends, Live(pool.backends));
    ghost var c := rr.next;
    NoTurns(nodes, c);
    chosen := [];
    for i := 0 to n
      invariant nodes == Keep(pool.backends, Live(pool.backends))
      invariant |chosen| == i && rr.next == c + i && Turns(nodes, chosen, c)
      invariant InTurn(nodes, chosen, c)
    {
      var r := rr.Select(pool);
      TurnsStep(nodes, chosen, c);
      InTurnStep(nodes, chosen, c);
      chosen := chosen + [r];
    }
    TurnsAreFair(nodes, chosen, c);
  }

  lemma TurnsAreFair(nodes: seq<Backend>, chosen: seq<Backend>, c: nat)
    requires nodes != [] && Turns(nodes, chosen, c)
    ensures forall j :: 0 <= j < |nodes| ==>
                          |chosen| / |nodes| <= multiset(chosen)[nodes[j]] <= |chosen| / |nodes| + 1
  {
    hide Hits;
    forall j | 0 <= j < |nodes|
      ensures |chosen| / |nodes| <= multiset(chosen)[nodes[j]] <= |chosen| / |nodes| + 1
    {
      RoundRobinFairness(|nodes|, c, |chosen|, j, j);
    }
  }

  lemma NoTurns(nodes: seq<Backend>, c: nat)
    requires nodes != []
    ensures Turns(nodes, [], c) && InTurn(nodes, [], c)
  {
  }

  // ----- least connections -----

  ghost function Loads(nodes: seq<Backend>): (ls: seq<int>)
    reads nodes
    ensures |ls| == |nodes| && forall i :: 0 <= i < |ls| ==> ls[i] == nodes[i].connections
  {
    seq(|nodes|, i requires 0 <= i < |nodes| reads nodes => nodes[i].connections)
  }

  /** The loop's two variables after the whole list: the position chosen and its load, with -1 for
      "none yet". */
  function Scan(ls: seq<int>): (int, int) {
    if ls == [] then (-1, -1)
    else
      var (best, min) := Scan(ls[..|ls| - 1]);
      var load := ls[|ls| - 1];
      if min == -1 || load < min then (|ls| - 1, load) else (best, min)
  }

  /** The first position of minimum load. */
  ghost predicate FirstLeast(ls: seq<int>, k: int) {
    && 0 <= k < |ls|
    && (forall i :: 0 <= i < |ls| ==> ls[k] <= ls[i])
    && (forall i :: 0 <= i < k ==> ls[k] < ls[i])
  }

  ghost predicate NonNegative(ls: seq<int>) {
    forall i :: 0 <= i < |ls| ==> 0 <= ls[i]
  }

  lemma {:induction false} ScanLoad(ls: seq<int>)
    requires ls != []
    ensures 0 <= Scan(ls).0 < |ls| && Scan(ls).1 == ls[Scan(ls).0]
  {
    if |ls| > 1 {
      ScanLoad(ls[..|ls| - 1]);
    }
  }

  /** A load of -1 is mistaken for "none yet": whatever comes next is taken instead. */
  lemma {:induction false} PassesOver(ls: seq<int>, f: nat)
    requires f + 1 < |ls| && ls[f] == -1 && forall i :: 0 <= i < |ls| ==> -1 <= ls[i]
    ensures f < Scan(ls).0
  {
    var front := ls[..|ls| - 1];
    if f + 1 < |front| {
      PassesOver(front, f);
    } else if f > 0 {
      ScanLoad(front[..f]);
      assert Scan(front[..f]).1 == ls[Scan(front[..f]).0];
      assert front[..|front| - 1] == front[..f];
    }
  }

  lemma {:induction false} ScanFindsLeast(ls: seq<int>)
    requires ls != [] && (-1 !in ls[..|ls| - 1] || exists i :: 0 <= i < |ls| && ls[i] < -1)
    ensures FirstLeast(ls, Scan(ls).0)
  {
    var front, last := ls[..|ls| - 1], ls[|ls| - 1];
    if front != [] {
      ScanLoad(front);
      if -1 !in front || exists i :: 0 <= i < |front| && front[i] < -1 {
        assert -1 !in front ==> -1 !in front[..|front| - 1];
        ScanFindsLeast(front);
        assert forall i :: 0 <= i < |front| ==> front[i] == ls[i];
      } else {
        assert last < -1;
      }
    }
  }

  /** The loop finds the first backend of minimum load, except exactly when the smallest load is -1
      and occurs before the last backend. */
  lemma ScanExactly(ls: seq<int>)
    requires ls != []
    ensures FirstLeast(ls, Scan(ls).0) <==>
            !(-1 in ls[..|ls| - 1] && forall i :: 0 <= i < |ls| ==> -1 <= ls[i])
  {
    if -1 in ls[..|ls| - 1] && forall i :: 0 <= i < |ls| ==> -1 <= ls[i] {
      var f :| 0 <= f < |ls| - 1 && ls[..|ls| - 1][f] == -1;
      PassesOver(ls, f);
    } else {
      ScanFindsLeast(ls);
    }
  }

  /** On backends, without a negative load: no load is below that of the one chosen, and those before it
      are above. */
  lemma LeastLoaded(nodes: seq<Backend>)
    requires nodes != []
    ensures var k := Scan(Loads(nodes)).0;
            && 0 <= k < |nodes|
            && ((forall b :: b in nodes ==> 0 <= b.connections) ==>
                  forall i :: 0 <= i < |nodes| ==>
                    if i < k then nodes[k].connections < nodes[i].connections
                    else nodes[k].connections <= nodes[i].connections)
  {
    hide Scan;
    ScanLoad(Loads(nodes));
    ScanExactly(Loads(nodes));
    assert forall i :: 0 <= i < |nodes| ==> nodes[i] in nodes;
  }

  class LeastConnections {
    constructor () {
    }

    method Select(pool: Pool) returns (best: Backend?)
      ensures var nodes := Keep(pool.backends, Live(pool.backends));
              if nodes == [] then best == null
              else
                var k := Scan(Loads(nodes)).0;
                && 0 <= k < |nodes| && best == nodes[k]
                && ((forall b :: b in nodes ==> 0 <= b.connections) ==>
                      forall i :: 0 <= i < |nodes| ==>
                        if i < k then best.connections < nodes[i].connections
                        else best.connections <= nodes[i].connections)
    {
      var nodes := pool.HealthyBackends();
      if nodes == [] {
        return null;
      }
      hide Keep;
      ghost var ls := Loads(nodes);
      best := null;
      var min := -1;
      for i := 0 to |nodes|
        invariant min == Scan(ls[..i]).1
        invariant 0 < i ==> 0 <= Scan(ls[..i]).0 < i && best == nodes[Scan(ls[..i]).0]
      {
        assert ls[..i + 1][..i] == ls[..i];
        var load := nodes[i].connections;
        if min == -1 || load < min {
          best := nodes[i];
          min := load;
        }
      }
      assert ls[..|nodes|] == ls;
      LeastLoaded(nodes);
    }
  }

  // arrivals under least connections

  ghost predicate Balanced(ls: seq<int>) {
    forall i, j :: 0 <= i < |ls| && 0 <= j < |ls| ==> ls[i] <= ls[j] + 1
  }

  function Arrive(ls: seq<int>): seq<int> {
    var k := Scan(ls).0;
    if 0 <= k < |ls| then ls[k := ls[k] + 1] else ls
  }

  function Arrivals(ls: seq<int>, n: nat): seq<int>
    decreases n
  {
    if n == 0 then ls else Arrivals(Arrive(ls), n - 1)
  }

  /** How many arrivals it takes to lift every load to `top - 1`. */
  function Shortfall(ls: seq<int>, top: int): nat {
    if ls == [] then 0
    else Shortfall(ls[..|ls| - 1], top) + if ls[|ls| - 1] < top - 1 then top - 1 - ls[|ls| - 1] else 0
  }

  lemma {:induction false} ShortfallUpdate(ls: seq<int>, k: nat, top: int)
    requires k < |ls| && ls[k] < top - 1
    ensures Shortfall(ls[k := ls[k] + 1], top) == Shortfall(ls, top) - 1
  {
    var last := |ls| - 1;
    if k == last {
      assert ls[k := ls[k] + 1][..last] == ls[..last];
    } else {
      assert ls[k := ls[k] + 1][..last] == ls[..last][k := ls[k] + 1];
      ShortfallUpdate(ls[..last], k, top);
    }
  }

  /** Least connections levels any loads out: after as many arrivals as the shortfall below the
      maximum, and ever after, loads differ by at most one. */
  lemma {:induction false} ArrivalsLevelOut(ls: seq<int>, n: nat, top: int)
    requires ls != [] && NonNegative(ls) && forall i :: 0 <= i < |ls| ==> ls[i] <= top
    requires Shortfall(ls, top) <= n || Balanced(ls)
    ensures Balanced(Arrivals(ls, n))
    decreases n
  {
    ScanExactly(ls);
    hide Scan;
    var k := Scan(ls).0;
    if ls[k] < top - 1 {
      ShortfallUpdate(ls, k, top);
    } else {
      assert Balanced(ls);
    }
    if n > 0 {
      var next := Arrive(ls);
      assert Balanced(ls) ==> Balanced(next);
      ArrivalsLevelOut(next, n - 1, if ls[k] < top then top else top + 1);
    }
  }

  lemma {:induction false} OneMoreArrival(ls: seq<int>, n: nat)
    ensures Arrivals(ls, n + 1) == Arrive(Arrivals(ls, n))
    decreases n
  {
    hide Arrive;
    if n > 0 {
      OneMoreArrival(Arrive(ls), n - 1);
    }
  }

  /** One request arrives and is counted on the backend selected for it. */
  method ArriveOnce(lc: LeastConnections, pool: Pool)
    requires Keep(pool.backends, Live(pool.backends)) != [] && Distinct(Keep(pool.backends, Live(pool.backends)))
    modifies pool.backends
    ensures var nodes := Keep(pool.backends, Live(pool.backends));
            && nodes == old(Keep(pool.backends, Live(pool.backends)))
            && Loads(nodes) == Arrive(old(Loads(Keep(pool.backends, Live(pool.backends)))))
  {
    hide Keep, Scan, Distinct;
    ghost var nodes := Keep(pool.backends, Live(pool.backends));
    ghost var before := Loads(nodes);
    ghost var k := Scan(before).0;
    var b := lc.Select(pool);
    assert nodes[k] in nodes;
    b.IncrementConn();
    assert Live(pool.backends) == old(Live(pool.backends));
    OneLoadMoves(nodes, k, before);
  }

  /** `n` requests arrive one after the other; none ends meanwhile and the pool's health does not
      change. The loads move as `ArrivalsLevelOut` says. */
  method ArriveSerially(lc: LeastConnections, pool: Pool, n: nat)
    requires Keep(pool.backends, Live(pool.backends)) != [] && Distinct(Keep(pool.backends, Live(pool.backends)))
    modifies pool.backends
    ensures var nodes := Keep(pool.backends, Live(pool.backends));
            && nodes == old(Keep(pool.backends, Live(pool.backends)))
            && Loads(nodes) == Arrivals(old(Loads(Keep(pool.backends, Live(pool.backends)))), n)
  {
    hide Keep, Live, Loads, Arrive, Arrivals, Distinct;
    ghost var nodes := Keep(pool.backends, Live(pool.backends));
    ghost var ls := Loads(nodes);
    NoArrivals(ls);
    for i := 0 to n
      invariant nodes == Keep(pool.backends, Live(pool.backends))
      invariant Loads(nodes) == Arrivals(ls, i)
    {
      ArriveOnce(lc, pool);
      OneMoreArrival(ls, i);
    }
  }

  lemma NoArrivals(ls: seq<int>)
    ensures Arrivals(ls, 0) == ls
  {
  }

  lemma OneLoadMoves(nodes: seq<Backend>, k: int, before: seq<int>)
    requires Distinct(nodes) && 0 <= k < |nodes| == |before|
    requires nodes[k].connections == before[k] + 1
    requires forall i :: 0 <= i < |nodes| && nodes[i] != nodes[k] ==> nodes[i].connections == before[i]
    ensures Loads(nodes) == before[k := before[k] + 1]
  {
    forall i | 0 <= i < |nodes| && i != k
      ensures nodes[i] != nodes[k]
    {
    }
  }
}
