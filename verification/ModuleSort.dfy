/**
  The module registry's dependency sort: Kahn's algorithm with a ready queue that is
  kept sorted, and the proof that it finds the least topological order or none exists.
 */
module ModuleSort {
  import opened ModuleGraph
  import opened Sequences
  import opened StringOrder
  import opened Wrappers

  /** What sorting `ds` may answer: the least topological order, or an error exactly
      when a name is repeated, a dependency is unregistered or the graph has a cycle. */
  ghost predicate IsSortResult(ds: seq<Module>, r: Option<seq<Module>>) {
    match r
    case Some(out) =>
      && DistinctNames(ds)
      && multiset(out) == multiset(ds)
      && TopologicalOrder(GraphOf(ds), NamesOf(out))
      && forall t :: TopologicalOrder(GraphOf(ds), t) ==> LexAtMost(NamesOf(out), t)
    case None =>
      !(DistinctNames(ds) && DepsRegistered(GraphOf(ds)) && Acyclic(GraphOf(ds)))
  }

  // ---------- In-degrees ----------

  /** How many entries of `deps` have not been emitted. */
  ghost function Remaining(deps: seq<string>, done: set<string>): nat {
    if deps == [] then 0
    else (if deps[0] in done then 0 else 1) + Remaining(deps[1..], done)
  }

  ghost function Count(s: seq<string>, x: string): nat {
    if s == [] then 0 else (if s[0] == x then 1 else 0) + Count(s[1..], x)
  }

  lemma {:induction false} CountAppend(s: seq<string>, y: string, x: string)
    ensures Count(s + [y], x) == Count(s, x) + if x == y then 1 else 0
  {
    if s == [] {
      assert s + [y] == [y];
    } else {
      assert (s + [y])[1..] == s[1..] + [y];
      CountAppend(s[1..], y, x);
    }
  }

  lemma {:induction false} CountMember(s: seq<string>, x: string)
    ensures Count(s, x) > 0 <==> x in s
  {
    if s != [] {
      assert s == [s[0]] + s[1..];
      CountMember(s[1..], x);
    }
  }

  lemma {:induction false} RemainingNoneDone(deps: seq<string>)
    ensures Remaining(deps, {}) == |deps|
  {
    if deps != [] {
      RemainingNoneDone(deps[1..]);
    }
  }

  lemma {:induction false} RemainingZero(deps: seq<string>, done: set<string>)
    ensures Remaining(deps, done) == 0 <==> forall m :: m in deps ==> m in done
  {
    if deps != [] {
      assert deps == [deps[0]] + deps[1..];
      RemainingZero(deps[1..], done);
    }
  }

  /** Emitting `x` settles every entry that names it. */
  lemma {:induction false} RemainingAfter(deps: seq<string>, done: set<string>, x: string)
    requires x !in done
    ensures Remaining(deps, done) == Remaining(deps, done + {x}) + Count(deps, x)
  {
    if deps != [] {
      RemainingAfter(deps[1..], done, x);
    }
  }

  // ---------- Counting edges ----------

  type Degrees = map<string, int>
  type Dependents = map<string, seq<string>>

  function DependentsOf(dependents: Dependents, name: string): seq<string> {
    if name in dependents then dependents[name] else []
  }

  /** `dependents` is the reverse of the graph of `ds`, repeated entries included. */
  ghost predicate Reverses(ds: seq<Module>, dependents: Dependents) {
    forall m, n {:trigger Count(DependentsOf(dependents, m), n)} ::
      Count(DependentsOf(dependents, m), n) == Count(Deps(ds, n), m)
  }

  /** `inDegree` and `dependents` describe the edges of `ds`. */
  ghost predicate Counted(ds: seq<Module>, inDegree: Degrees, dependents: Dependents) {
    CountsEntries(ds, inDegree) && Reverses(ds, dependents)
  }

  /** Each registered name has as many incoming edges as it has dependency entries. */
  ghost predicate CountsEntries(ds: seq<Module>, inDegree: Degrees) {
    inDegree.Keys == Elements(NamesOf(ds)) && forall n :: n in inDegree ==> inDegree[n] == |Deps(ds, n)|
  }

  /** `d` with only the first `k` of its dependency entries. */
  ghost function Cut(d: Module, k: nat): Module
    requires k <= |d.dependsOn|
  {
    d.(dependsOn := d.dependsOn[..k])
  }

  lemma DepsAppend(ds: seq<Module>, d: Module, n: string)
    ensures Deps(ds + [d], n) == Deps(ds, n) + if d.name == n then d.dependsOn else []
  {
  }

  lemma NamesAppend(ds: seq<Module>, d: Module)
    ensures Elements(NamesOf(ds + [d])) == Elements(NamesOf(ds)) + {d.name}
  {
    assert NamesOf(ds + [d]) == NamesOf(ds) + [d.name];
  }

  lemma ReversesStart(ds: seq<Module>, d: Module, dependents: Dependents)
    requires Reverses(ds, dependents)
    ensures Reverses(ds + [Cut(d, 0)], dependents)
  {
    forall m, n ensures Count(DependentsOf(dependents, m), n) == Count(Deps(ds + [Cut(d, 0)], n), m) {
      DepsAppend(ds, Cut(d, 0), n);
      assert Deps(ds + [Cut(d, 0)], n) == Deps(ds, n);
    }
  }

  /** The edges of `ds` and the first `k` entries of `d` are counted. */
  ghost predicate Counting(ds: seq<Module>, d: Module, k: nat, inDegree: Degrees, dependents: Dependents)
    requires k <= |d.dependsOn|
  {
    Counted(ds + [Cut(d, k)], inDegree, dependents) && d.name in inDegree
  }

  lemma StartDescriptor(ds: seq<Module>, d: Module, inDegree: Degrees, dependents: Dependents)
    requires Counted(ds, inDegree, dependents)
    ensures d.name in inDegree ==> Counting(ds, d, 0, inDegree, dependents)
    ensures d.name !in inDegree ==> Counting(ds, d, 0, inDegree[d.name := 0], dependents)
  {
    ReversesStart(ds, d, dependents);
    CountsStart(ds, d, inDegree);
  }

  lemma CountsStart(ds: seq<Module>, d: Module, inDegree: Degrees)
    requires CountsEntries(ds, inDegree)
    ensures CountsEntries(ds + [Cut(d, 0)], if d.name in inDegree then inDegree else inDegree[d.name := 0])
  {
    var next := if d.name in inDegree then inDegree else inDegree[d.name := 0];
    NamesAppend(ds, Cut(d, 0));
    forall n | n in next ensures next[n] == |Deps(ds + [Cut(d, 0)], n)| {
      DepsAppend(ds, Cut(d, 0), n);
      if n !in inDegree {
        DepsOfAbsent(ds, n);
      }
    }
  }

  lemma CountsNext(ds: seq<Module>, d: Module, k: nat, inDegree: Degrees)
    requires k < |d.dependsOn| && d.name in inDegree && CountsEntries(ds + [Cut(d, k)], inDegree)
    ensures CountsEntries(ds + [Cut(d, k + 1)], inDegree[d.name := inDegree[d.name] + 1])
  {
    NamesAppend(ds, Cut(d, k));
    NamesAppend(ds, Cut(d, k + 1));
    var next := inDegree[d.name := inDegree[d.name] + 1];
    forall n | n in next ensures next[n] == |Deps(ds + [Cut(d, k + 1)], n)| {
      DepsNext(ds, d, k, n);
    }
  }

  lemma DepsNext(ds: seq<Module>, d: Module, k: nat, n: string)
    requires k < |d.dependsOn|
    ensures Deps(ds + [Cut(d, k + 1)], n)
         == Deps(ds + [Cut(d, k)], n) + if d.name == n then [d.dependsOn[k]] else []
  {
  }

  lemma ReversesNext(ds: seq<Module>, d: Module, k: nat, dependents: Dependents)
    requires k < |d.dependsOn| && Reverses(ds + [Cut(d, k)], dependents)
    ensures
      var dep := d.dependsOn[k];
      Reverses(ds + [Cut(d, k + 1)], dependents[dep := DependentsOf(dependents, dep) + [d.name]])
  {
    var dep := d.dependsOn[k];
    var next := dependents[dep := DependentsOf(dependents, dep) + [d.name]];
    forall m, n ensures Count(DependentsOf(next, m), n) == Count(Deps(ds + [Cut(d, k + 1)], n), m) {
      DepsNext(ds, d, k, n);
      CountAppend(DependentsOf(dependents, dep), d.name, n);
      CountAppend(Deps(ds + [Cut(d, k)], n), dep, m);
      assert Count(DependentsOf(dependents, m), n) == Count(Deps(ds + [Cut(d, k)], n), m);
    }
  }

  lemma CountEdge(ds: seq<Module>, d: Module, k: nat, inDegree: Degrees, dependents: Dependents)
    requires k < |d.dependsOn| && Counting(ds, d, k, inDegree, dependents)
    ensures
      var dep := d.dependsOn[k];
      Counting(ds, d, k + 1, inDegree[d.name := inDegree[d.name] + 1],
               dependents[dep := DependentsOf(dependents, dep) + [d.name]])
  {
    ReversesNext(ds, d, k, dependents);
    CountsNext(ds, d, k, inDegree);
  }

  lemma FinishDescriptor(ds: seq<Module>, d: Module, inDegree: Degrees, dependents: Dependents)
    requires Counting(ds, d, |d.dependsOn|, inDegree, dependents)
    ensures Counted(ds + [d], inDegree, dependents)
  {
    assert Cut(d, |d.dependsOn|) == d;
  }

  /** `byName` leads from each registered name to the descriptor registered last under it. */
  ghost predicate IsIndex(ds: seq<Module>, byName: map<string, Module>) {
    byName.Keys == Elements(NamesOf(ds)) && forall n :: n in byName ==> exists i: nat :: IsLast(ds, i, n, byName[n])
  }

  ghost predicate IsLast(ds: seq<Module>, i: nat, name: string, d: Module) {
    i < |ds| && ds[i] == d && d.name == name && forall j :: i < j < |ds| ==> ds[j].name != name
  }

  lemma IndexNext(ds: seq<Module>, d: Module, byName: map<string, Module>)
    requires IsIndex(ds, byName)
    ensures IsIndex(ds + [d], byName[d.name := d])
  {
    var next := byName[d.name := d];
    NamesAppend(ds, d);
    forall n | n in next ensures exists i: nat :: IsLast(ds + [d], i, n, next[n]) {
      if n == d.name {
        assert IsLast(ds + [d], |ds|, n, d);
      } else {
        var i: nat :| IsLast(ds, i, n, byName[n]);
        assert IsLast(ds + [d], i, n, byName[n]);
      }
    }
  }

  method IndexByName(ds: seq<Module>) returns (byName: map<string, Module>)
    ensures IsIndex(ds, byName)
  {
    byName := map[];
    for i := 0 to |ds|
      invariant IsIndex(ds[..i], byName)
    {
      IndexNext(ds[..i], ds[i], byName);
      assert ds[..i + 1] == ds[..i] + [ds[i]];
      byName := byName[ds[i].name := ds[i]];
    }
    assert ds[..|ds|] == ds;
  }

  /** One turn of the counting loop: the entries of one descriptor. */
  method CountDescriptor(ghost seen: seq<Module>, d: Module, inDegree0: Degrees, dependents0: Dependents)
    returns (inDegree: Degrees, dependents: Dependents)
    requires Counted(seen, inDegree0, dependents0)
    ensures Counted(seen + [d], inDegree, dependents)
  {
    inDegree, dependents := inDegree0, dependents0;
    StartDescriptor(seen, d, inDegree, dependents);
    if d.name !in inDegree {
      inDegree := inDegree[d.name := 0];
    }
    for k := 0 to |d.dependsOn|
      invariant Counting(seen, d, k, inDegree, dependents)
    {
      CountEdge(seen, d, k, inDegree, dependents);
      var dep := d.dependsOn[k];
      inDegree := inDegree[d.name := inDegree[d.name] + 1];
      dependents := dependents[dep := DependentsOf(dependents, dep) + [d.name]];
    }
    FinishDescriptor(seen, d, inDegree, dependents);
  }

  method CountEdges(ds: seq<Module>) returns (inDegree: Degrees, dependents: Dependents)
    ensures Counted(ds, inDegree, dependents)
  {
    inDegree, dependents := map[], map[];
    for i := 0 to |ds|
      invariant Counted(ds[..i], inDegree, dependents)
    {
      inDegree, dependents := CountDescriptor(ds[..i], ds[i], inDegree, dependents);
      assert ds[..i + 1] == ds[..i] + [ds[i]];
    }
    assert ds[..|ds|] == ds;
  }

  // ---------- The ready queue ----------

  ghost predicate IsQueue(queue: seq<string>, members: set<string>) {
    Sorted(queue) && NoRepeats(queue) && Elements(queue) == members
  }

  /** The names in `among` with no unmet dependency. */
  ghost function Unblocked(inDegree: Degrees, among: set<string>): set<string> {
    set n | n in inDegree && n in among && inDegree[n] == 0
  }

  lemma VisitName(inDegree: Degrees, queue: seq<string>, rest: set<string>, name: string)
    requires rest <= inDegree.Keys && name in rest && NoRepeats(queue)
    requires Elements(queue) == Unblocked(inDegree, inDegree.Keys - rest)
    ensures
      var queue' := if inDegree[name] == 0 then queue + [name] else queue;
      NoRepeats(queue') && Elements(queue') == Unblocked(inDegree, inDegree.Keys - (rest - {name}))
  {
    assert name !in Elements(queue);
    assert Elements(queue + [name]) == Elements(queue) + {name};
    assert inDegree.Keys - (rest - {name}) == (inDegree.Keys - rest) + {name};
  }

  /** Names with no unmet dependency, found by visiting the map in any order, then sorted. */
  method InitialQueue(inDegree: Degrees) returns (queue: seq<string>)
    ensures IsQueue(queue, Unblocked(inDegree, inDegree.Keys))
  {
    queue := [];
    var rest := inDegree.Keys;
    while rest != {}
      invariant rest <= inDegree.Keys
      invariant NoRepeats(queue)
      invariant Elements(queue) == Unblocked(inDegree, inDegree.Keys - rest)
      decreases |rest|
    {
      var name :| name in rest;
      VisitName(inDegree, queue, rest, name);
      if inDegree[name] == 0 {
        queue := queue + [name];
      }
      rest := rest - {name};
    }
    QueueSorted(queue);
    queue := Sort(queue);
  }

  lemma QueueSorted(queue: seq<string>)
    requires NoRepeats(queue)
    ensures IsQueue(Sort(queue), Elements(queue))
  {
    SortKeepsElements(queue);
    ElementsCount(queue);
    ElementsCount(Sort(queue));
    assert Elements(Sort(queue)) == Elements(queue);
  }

  lemma QueueTail(queue: seq<string>, members: set<string>)
    requires IsQueue(queue, members) && queue != []
    ensures queue[0] in members
    ensures IsQueue(queue[1..], members - {queue[0]})
  {
  }

  lemma QueueInsert(queue: seq<string>, members: set<string>, n: string)
    requires IsQueue(queue, members) && n !in members
    ensures IsQueue(Sort(queue + [n]), members + {n})
  {
    assert Elements(queue + [n]) == members + {n};
    assert forall i :: 0 <= i < |queue| ==> queue[i] in Elements(queue);
    QueueSorted(queue + [n]);
  }

  // ---------- Kahn's loop ----------

  /** The in-degrees once `done` has been emitted, except that the entries in `rest` are
      still to be subtracted. */
  ghost predicate DegreesMatch(g: Graph, done: set<string>, inDegree: Degrees, rest: seq<string>) {
    && inDegree.Keys == g.Keys
    && (forall n {:trigger inDegree[n]} :: n in inDegree ==> inDegree[n] == Remaining(g[n], done) + Count(rest, n))
    && (forall n :: n in done && n in inDegree ==> inDegree[n] == 0)
    && (forall n :: n in rest ==> n in inDegree)
  }

  /** The queue holds the names that are not emitted and not blocked. */
  ghost predicate Settling(g: Graph, done: set<string>, inDegree: Degrees, queue: seq<string>, rest: seq<string>) {
    && DegreesMatch(g, done, inDegree, rest)
    && IsQueue(queue, Unblocked(inDegree, g.Keys - done))
  }

  /** Between emissions every entry is settled and the queue holds the ready names. */
  lemma QueueIsReady(g: Graph, done: set<string>, inDegree: Degrees, queue: seq<string>)
    requires Settling(g, done, inDegree, queue, [])
    ensures forall n :: n in queue <==> Ready(g, done, n)
  {
    forall n ensures n in queue <==> Ready(g, done, n) {
      assert n in queue <==> n in Elements(queue);
      if n in g {
        RemainingZero(g[n], done);
      }
    }
  }

  lemma TakeHead(g: Graph, done: seq<string>, inDegree: Degrees, queue: seq<string>)
    requires Greedy(g, done) && Settling(g, Elements(done), inDegree, queue, []) && queue != []
    ensures Greedy(g, done + [queue[0]])
  {
    QueueIsReady(g, Elements(done), inDegree, queue);
    forall n | Ready(g, Elements(done), n) ensures AtMost(queue[0], n) {
      var i :| 0 <= i < |queue| && queue[i] == n;
      if i == 0 {
        AtMostReflexive(n);
      }
    }
    GreedyAppend(g, done, queue[0]);
  }

  /** `dependents` is the reverse of `g`, repeated entries included. */
  ghost predicate Mirrors(g: Graph, dependents: Dependents) {
    && (forall m, n :: n in DependentsOf(dependents, m) ==> n in g)
    && (forall m, n :: n in g ==> Count(DependentsOf(dependents, m), n) == Count(g[n], m))
  }

  lemma EmitHead(g: Graph, done: set<string>, inDegree: Degrees, queue: seq<string>, dependents: Dependents)
    requires Settling(g, done, inDegree, queue, []) && queue != []
    requires Mirrors(g, dependents)
    ensures queue[0] !in done && queue[0] in g.Keys
    ensures Settling(g, done + {queue[0]}, inDegree, queue[1..], DependentsOf(dependents, queue[0]))
  {
    var name := queue[0];
    var rest := DependentsOf(dependents, name);
    QueueTail(queue, Unblocked(inDegree, g.Keys - done));
    assert Unblocked(inDegree, g.Keys - done) - {name} == Unblocked(inDegree, g.Keys - (done + {name}));
    forall n | n in inDegree
      ensures inDegree[n] == Remaining(g[n], done + {name}) + Count(rest, n)
    {
      RemainingAfter(g[n], done, name);
    }
  }

  lemma SettleDegree(g: Graph, done: set<string>, inDegree: Degrees, rest: seq<string>)
    requires DegreesMatch(g, done, inDegree, rest) && rest != []
    ensures inDegree[rest[0]] >= 1 && rest[0] in g.Keys - done
    ensures DegreesMatch(g, done, inDegree[rest[0] := inDegree[rest[0]] - 1], rest[1..])
  {
  }

  /** Settling one entry that names the emitted module. */
  lemma SettleEntry(g: Graph, done: set<string>, inDegree: Degrees, queue: seq<string>, rest: seq<string>)
    requires Settling(g, done, inDegree, queue, rest) && rest != []
    ensures rest[0] in inDegree
    ensures
      var n := rest[0];
      var inDegree' := inDegree[n := inDegree[n] - 1];
      var queue' := if inDegree'[n] == 0 then Sort(queue + [n]) else queue;
      Settling(g, done, inDegree', queue', rest[1..])
  {
    var n := rest[0];
    SettleDegree(g, done, inDegree, rest);
    var inDegree' := inDegree[n := inDegree[n] - 1];
    var waiting := g.Keys - done;
    if inDegree'[n] == 0 {
      QueueInsert(queue, Unblocked(inDegree, waiting), n);
      assert Unblocked(inDegree', waiting) == Unblocked(inDegree, waiting) + {n};
    } else {
      assert Unblocked(inDegree', waiting) == Unblocked(inDegree, waiting);
    }
  }

  lemma SettleAt(g: Graph, done: set<string>, inDegree: Degrees, queue: seq<string>, rest: seq<string>, k: nat)
    requires k < |rest| && Settling(g, done, inDegree, queue, rest[k..])
    ensures rest[k] in inDegree
    ensures
      var degrees := inDegree[rest[k] := inDegree[rest[k]] - 1];
      && (degrees[rest[k]] == 0 ==> Settling(g, done, degrees, Sort(queue + [rest[k]]), rest[k + 1..]))
      && (degrees[rest[k]] != 0 ==> Settling(g, done, degrees, queue, rest[k + 1..]))
  {
    SettleEntry(g, done, inDegree, queue, rest[k..]);
    assert rest[k..][1..] == rest[k + 1..];
  }

  /** The inner loop: settle every entry that names the module just emitted. */
  method SettleDependents(ghost g: Graph, ghost done: set<string>, inDegree0: Degrees, queue0: seq<string>,
                          rest: seq<string>)
    returns (inDegree: Degrees, queue: seq<string>)
    requires Settling(g, done, inDegree0, queue0, rest)
    ensures Settling(g, done, inDegree, queue, [])
  {
    inDegree, queue := inDegree0, queue0;
    assert rest[0..] == rest;
    for k := 0 to |rest|
      invariant Settling(g, done, inDegree, queue, rest[k..])
    {
      SettleAt(g, done, inDegree, queue, rest, k);
      var dependent := rest[k];
      inDegree := inDegree[dependent := inDegree[dependent] - 1];
      if inDegree[dependent] == 0 {
        queue := Sort(queue + [dependent]);
      }
    }
  }

  lemma StartSettled(g: Graph, inDegree: Degrees, queue: seq<string>)
    requires inDegree.Keys == g.Keys
    requires forall n :: n in g ==> inDegree[n] == |g[n]|
    requires IsQueue(queue, Unblocked(inDegree, inDegree.Keys))
    ensures Settling(g, {}, inDegree, queue, [])
  {
    assert g.Keys - {} == g.Keys;
    forall n | n in inDegree ensures inDegree[n] == Remaining(g[n], {}) {
      RemainingNoneDone(g[n]);
    }
  }

  lemma CountedMirrors(ds: seq<Module>, inDegree: Degrees, dependents: Dependents)
    requires Counted(ds, inDegree, dependents)
    ensures inDegree.Keys == GraphOf(ds).Keys
    ensures forall n :: n in GraphOf(ds) ==> inDegree[n] == |GraphOf(ds)[n]|
    ensures Mirrors(GraphOf(ds), dependents)
  {
    forall m, n | n in DependentsOf(dependents, m) ensures n in GraphOf(ds) {
      CountMember(DependentsOf(dependents, m), n);
      if n !in GraphOf(ds) {
        DepsOfAbsent(ds, n);
      }
    }
  }

  lemma ResultIsPermutation(ds: seq<Module>, out: seq<Module>)
    requires NoRepeats(NamesOf(out)) && |out| == |ds|
    requires forall d :: d in out ==> d in ds
    ensures DistinctNames(ds) && Elements(NamesOf(out)) == Elements(NamesOf(ds))
    ensures multiset(out) == multiset(ds)
  {
    ElementsCount(NamesOf(out));
    ElementsCount(NamesOf(ds));
    NamesSubset(out, ds);
    SubsetCount(Elements(NamesOf(out)), Elements(NamesOf(ds)));
    DistinctModules(ds);
    DistinctModules(out);
    ElementsCount(out);
    ElementsCount(ds);
    SubsetCount(Elements(out), Elements(ds));
    SameElementsSameMultiset(out, ds);
  }

  lemma DistinctModules(ds: seq<Module>)
    requires DistinctNames(ds)
    ensures NoRepeats(ds)
  {
  }

  /** Appending the head of the queue to the result. */
  lemma Emit(g: Graph, result: seq<Module>, inDegree: Degrees, queue: seq<string>, dependents: Dependents, d: Module)
    requires Greedy(g, NamesOf(result)) && Settling(g, Elements(NamesOf(result)), inDegree, queue, [])
    requires queue != [] && Mirrors(g, dependents) && d.name == queue[0]
    ensures |result| < |g.Keys|
    ensures Greedy(g, NamesOf(result + [d]))
    ensures Settling(g, Elements(NamesOf(result + [d])), inDegree, queue[1..], DependentsOf(dependents, d.name))
  {
    var done := NamesOf(result);
    TakeHead(g, done, inDegree, queue);
    EmitHead(g, Elements(done), inDegree, queue, dependents);
    EmittedAtMostNames(g, done + [d.name]);
    assert NamesOf(result + [d]) == done + [d.name];
    assert Elements(done + [d.name]) == Elements(done) + {d.name};
  }

  lemma HeadRegistered(g: Graph, done: set<string>, inDegree: Degrees, queue: seq<string>)
    requires Settling(g, done, inDegree, queue, []) && queue != []
    ensures queue[0] in g
  {
    assert queue[0] in Elements(queue);
  }

  lemma EmittedAtMostNames(g: Graph, done: seq<string>)
    requires Greedy(g, done)
    ensures |done| <= |g.Keys|
  {
    GreedyIsOrdered(g, done);
    ElementsCount(done);
    SubsetCount(Elements(done), g.Keys);
  }

  lemma FullEmission(ds: seq<Module>, result: seq<Module>)
    requires Greedy(GraphOf(ds), NamesOf(result)) && |result| == |ds|
    requires forall d :: d in result ==> d in ds
    ensures IsSortResult(ds, Some(result))
  {
    var g := GraphOf(ds);
    GreedyIsOrdered(g, NamesOf(result));
    ResultIsPermutation(ds, result);
    forall t | TopologicalOrder(g, t) ensures LexAtMost(NamesOf(result), t) {
      GreedyIsLeast(g, NamesOf(result), t);
    }
  }

  lemma ShortEmission(ds: seq<Module>, result: seq<Module>)
    requires Greedy(GraphOf(ds), NamesOf(result)) && |result| != |ds|
    requires forall n :: !Ready(GraphOf(ds), Elements(NamesOf(result)), n)
    ensures IsSortResult(ds, None)
  {
    if DistinctNames(ds) {
      ElementsCount(NamesOf(ds));
      assert GraphOf(ds).Keys == Elements(NamesOf(ds));
      DryMeansUnsortable(GraphOf(ds), NamesOf(result));
    }
  }

  /** Orders modules by dependency. */
  method TopologicalSort(ds: seq<Module>) returns (r: Option<seq<Module>>)
    ensures IsSortResult(ds, r)
  {
    var byName := IndexByName(ds);
    var inDegree, dependents := CountEdges(ds);
    var queue := InitialQueue(inDegree);
    var result: seq<Module> := [];
    ghost var g := GraphOf(ds);
    CountedMirrors(ds, inDegree, dependents);
    StartSettled(g, inDegree, queue);
    assert Elements(NamesOf(result)) == {};
    while queue != []
      invariant Greedy(g, NamesOf(result))
      invariant Settling(g, Elements(NamesOf(result)), inDegree, queue, [])
      invariant forall d :: d in result ==> d in ds
      decreases |g.Keys| - |result|
    {
      var name := queue[0];
      HeadRegistered(g, Elements(NamesOf(result)), inDegree, queue);
      assert byName[name] in ds && byName[name].name == name;
      Emit(g, result, inDegree, queue, dependents, byName[name]);
      queue := queue[1..];
      result := result + [byName[name]];
      inDegree, queue :=
        SettleDependents(g, Elements(NamesOf(result)), inDegree, queue, DependentsOf(dependents, name));
    }
    QueueIsReady(g, Elements(NamesOf(result)), inDegree, queue);
    if |result| != |ds| {
      ShortEmission(ds, result);
      return None;
    }
    FullEmission(ds, result);
    return Some(result);
  }

  // ---------- What the result means ----------

  /** Sorting succeeds exactly when names are distinct, dependencies registered and the graph acyclic. */
  lemma SortSucceedsExactlyWhenSortable(ds: seq<Module>, r: Option<seq<Module>>)
    requires IsSortResult(ds, r)
    ensures r.Some? <==> DistinctNames(ds) && DepsRegistered(GraphOf(ds)) && Acyclic(GraphOf(ds))
  {
    if r.Some? {
      OrderImpliesAcyclic(GraphOf(ds), NamesOf(r.value));
    }
  }

  /** The answer does not depend on registration order nor on the order maps are visited in. */
  lemma SortIsDeterministic(ds: seq<Module>, r: Option<seq<Module>>, es: seq<Module>, q: Option<seq<Module>>)
    requires multiset(ds) == multiset(es)
    requires IsSortResult(ds, r) && IsSortResult(es, q)
    ensures r == q
  {
    GraphIgnoresRegistrationOrder(ds, es);
    SortSucceedsExactlyWhenSortable(ds, r);
    SortSucceedsExactlyWhenSortable(es, q);
    if r.Some? && q.Some? {
      var a, b := NamesOf(r.value), NamesOf(q.value);
      LexAntisymmetric(a, b);
      assert forall d :: d in r.value <==> d in multiset(r.value);
      assert forall d :: d in q.value <==> d in multiset(q.value);
      assert forall d :: d in ds <==> d in multiset(ds);
      forall i | 0 <= i < |a| ensures r.value[i] == q.value[i] {
        SameNameSameModule(ds, r.value[i], q.value[i]);
      }
      assert r.value == q.value;
    }
  }

  lemma SameNameSameModule(ds: seq<Module>, d: Module, e: Module)
    requires DistinctNames(ds) && d in ds && e in ds && d.name == e.name
    ensures d == e
  {
  }
}
