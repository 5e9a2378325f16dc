/** `GetBreaker` called by many goroutines: its two lock sections interleave with those of others. */
module ManagerRuns {

  /** Between the calls of one goroutine: it has called, has missed under the read lock, or holds
      breaker number `id`. */
  datatype Pc = Called(name: string) | Missed(name: string) | Got(name: string, id: nat)

  datatype Registry = Registry(
    breakers: map<string, nat>,
    created: seq<string>, // the name each breaker was created for
    threads: map<nat, Pc>)

  const EMPTY := Registry(map[], [], map[])

  datatype Action =
    | Call(t: nat, name: string)
    | Look(t: nat)        // under the read lock
    | Create(t: nat)      // under the write lock, with the second look
    | Remove(name: string)

  predicate Can(s: Registry, a: Action) {
    match a
    case Call(_, _) => true
    case Look(t) => t in s.threads && s.threads[t].Called?
    case Create(t) => t in s.threads && s.threads[t].Missed?
    case Remove(_) => true
  }

  function Apply(s: Registry, a: Action): Registry
    requires Can(s, a)
  {
    match a
    case Call(t, name) => s.(threads := s.threads[t := Called(name)])
    case Look(t) =>
      var name := s.threads[t].name;
      s.(threads := s.threads[t := if name in s.breakers then Got(name, s.breakers[name]) else Missed(name)])
    case Create(t) =>
      var name := s.threads[t].name;
      if name in s.breakers then s.(threads := s.threads[t := Got(name, s.breakers[name])])
      else
        var id := |s.created|;
        Registry(s.breakers[name := id], s.created + [name], s.threads[t := Got(name, id)])
    case Remove(name) => s.(breakers := s.breakers - {name})
  }

  ghost predicate IsRun(run: seq<Registry>, acts: seq<Action>) {
    && |run| == |acts| + 1 && run[0] == EMPTY
    && forall i :: 0 <= i < |acts| ==> Can(run[i], acts[i]) && run[i + 1] == Apply(run[i], acts[i])
  }

  /** Holds with removals too: a breaker is found and handed out only under its own name. */
  ghost predicate Named(s: Registry) {
    && (forall n :: n in s.breakers ==> s.breakers[n] < |s.created| && s.created[s.breakers[n]] == n)
    && (forall t :: t in s.threads && s.threads[t].Got? ==>
                      s.threads[t].id < |s.created| && s.created[s.threads[t].id] == s.threads[t].name)
  }

  /** Unless `name` was removed: whatever was created or handed out under it is what the map holds. */
  ghost predicate Unique(s: Registry, name: string) {
    && (forall id :: 0 <= id < |s.created| && s.created[id] == name ==> name in s.breakers && s.breakers[name] == id)
    && (forall t :: t in s.threads && s.threads[t].Got? && s.threads[t].name == name ==>
                      name in s.breakers && s.breakers[name] == s.threads[t].id)
  }

  lemma NamedStep(s: Registry, a: Action)
    requires Named(s) && Can(s, a)
    ensures Named(Apply(s, a))
  {
  }

  lemma UniqueStep(s: Registry, a: Action, name: string)
    requires Named(s) && Unique(s, name) && Can(s, a) && a != Remove(name)
    ensures Unique(Apply(s, a), name)
  {
  }

  lemma {:induction false} NamedRun(run: seq<Registry>, acts: seq<Action>, i: nat)
    requires IsRun(run, acts) && i < |run|
    ensures Named(run[i])
  {
    hide Apply, Named;
    if i == 0 {
      EmptyIsFine("");
    } else {
      NamedRun(run, acts, i - 1);
      assert run[i - 1 + 1] == Apply(run[i - 1], acts[i - 1]);
      NamedStep(run[i - 1], acts[i - 1]);
    }
  }

  lemma EmptyIsFine(name: string)
    ensures Named(EMPTY) && Unique(EMPTY, name)
  {
  }

  lemma {:induction false} UniqueRun(run: seq<Registry>, acts: seq<Action>, i: nat, name: string)
    requires IsRun(run, acts) && i < |run|
    requires Remove(name) !in acts[..i]
    ensures Unique(run[i], name)
  {
    hide Apply, Named, Unique;
    if i == 0 {
      EmptyIsFine(name);
    } else {
      assert acts[..i] == acts[..i - 1] + [acts[i - 1]];
      UniqueRun(run, acts, i - 1, name);
      NamedRun(run, acts, i - 1);
      assert run[i - 1 + 1] == Apply(run[i - 1], acts[i - 1]);
      UniqueStep(run[i - 1], acts[i - 1], name);
    }
  }

  /** In every interleaving in which a name is not removed, whatever happens to other names, at most
      one breaker is created for it, and a caller who holds it shares it with exactly those who asked
      for the same name. */
  lemma OneBreakerPerName(run: seq<Registry>, acts: seq<Action>, i: nat, name: string)
    requires IsRun(run, acts) && i < |run|
    requires Remove(name) !in acts[..i]
    ensures forall x, y :: 0 <= x < y < |run[i].created| ==> !(run[i].created[x] == run[i].created[y] == name)
    ensures forall t, u :: t in run[i].threads && u in run[i].threads && run[i].threads[t].Got? && run[i].threads[u].Got? &&
                           run[i].threads[t].name == name ==>
                             (run[i].threads[t].id == run[i].threads[u].id <==> run[i].threads[u].name == name)
  {
    hide Apply;
    NamedRun(run, acts, i);
    UniqueRun(run, acts, i, name);
  }

  /** With `RemoveBreaker` distinct names still never share a breaker. */
  lemma NamesNeverShare(run: seq<Registry>, acts: seq<Action>, i: nat, t: nat, u: nat)
    requires IsRun(run, acts) && i < |run|
    requires t in run[i].threads && u in run[i].threads && run[i].threads[t].Got? && run[i].threads[u].Got?
    requires run[i].threads[t].id == run[i].threads[u].id
    ensures run[i].threads[t].name == run[i].threads[u].name
  {
    hide Apply;
    NamedRun(run, acts, i);
  }

  /** One goroutine on its own does what the object's `GetBreaker` does: a known name is found by the
      first look, an unknown one gets a breaker that is then known. */
  lemma SerialGet(s: Registry, t: nat, name: string)
    ensures var looked := Apply(Apply(s, Call(t, name)), Look(t));
            if name in s.breakers then looked == s.(threads := s.threads[t := Got(name, s.breakers[name])])
            else
              && Can(looked, Create(t))
              && Apply(looked, Create(t)) ==
                 Registry(s.breakers[name := |s.created|], s.created + [name], s.threads[t := Got(name, |s.created|)])
  {
    assert s.threads[t := Called(name)][t := Missed(name)] == s.threads[t := Missed(name)];
  }

  /** But one name may then have two: the exclusion in `OneBreakerPerName` is needed. */
  lemma RemovalSplitsAName(name: string) returns (run: seq<Registry>, acts: seq<Action>)
    ensures IsRun(run, acts)
    ensures var s := run[|run| - 1];
            s.threads == map[0 := Got(name, 0), 1 := Got(name, 1)]
  {
    acts := [Call(0, name), Look(0), Create(0), Remove(name), Call(1, name), Look(1), Create(1)];
    var s1 := Apply(EMPTY, acts[0]);
    var s2 := Apply(s1, acts[1]);
    var s3 := Apply(s2, acts[2]);
    var s4 := Apply(s3, acts[3]);
    var s5 := Apply(s4, acts[4]);
    var s6 := Apply(s5, acts[5]);
    run := [EMPTY, s1, s2, s3, s4, s5, s6, Apply(s6, acts[6])];
  }
}
