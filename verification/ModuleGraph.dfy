/**
  The dependency graph that a list of module descriptors denotes, the orders that
  respect it, and when such an order exists.
 */
module ModuleGraph {
  import opened Sequences
  import opened StringOrder
  import opened Wrappers

  /** A module descriptor. `enabledFlag` names the configuration flag its `EnabledFn`
      consults; `None` stands for a nil `EnabledFn`. */
  datatype Module = Module(name: string, core: bool, dependsOn: seq<string>, enabledFlag: Option<string>)

  // ---------- The graph ----------

  ghost function NamesOf(ds: seq<Module>): (r: seq<string>)
    ensures |r| == |ds|
    ensures forall i :: 0 <= i < |r| ==> r[i] == ds[i].name
  {
    seq(|ds|, i requires 0 <= i < |ds| => ds[i].name)
  }

  ghost predicate DistinctNames(ds: seq<Module>) {
    NoRepeats(NamesOf(ds))
  }

  /** All dependency entries listed for `name`, repeats included, in order of registration. */
  ghost function Deps(ds: seq<Module>, name: string): seq<string> {
    if ds == [] then []
    else
      var last := ds[|ds| - 1];
      Deps(ds[..|ds| - 1], name) + (if last.name == name then last.dependsOn else [])
  }

  /** Each registered name with its dependency entries. */
  type Graph = map<string, seq<string>>

  ghost function GraphOf(ds: seq<Module>): Graph {
    map n | n in Elements(NamesOf(ds)) :: Deps(ds, n)
  }

  ghost predicate DepsRegistered(g: Graph) {
    forall n, m :: n in g && m in g[n] ==> m in g
  }

  /** `n` depends on `m`. */
  ghost predicate Edge(g: Graph, n: string, m: string) {
    n in g && m in g[n]
  }

  ghost predicate IsWalk(g: Graph, p: seq<string>) {
    forall i, j :: 0 <= i < |p| && j == i + 1 < |p| ==> Edge(g, p[i], p[j])
  }

  ghost predicate IsCycle(g: Graph, c: seq<string>) {
    |c| >= 2 && c[0] == c[|c| - 1] && IsWalk(g, c)
  }

  ghost predicate Acyclic(g: Graph) {
    forall c :: !IsCycle(g, c)
  }

  /** `t` lists every module name once, each after everything it depends on. */
  ghost predicate TopologicalOrder(g: Graph, t: seq<string>) {
    && NoRepeats(t)
    && Elements(t) == g.Keys
    && forall i, m :: 0 <= i < |t| && Edge(g, t[i], m) ==> m in t[..i]
  }

  /** `a` equals `b` or is smaller at the first place where they differ. */
  ghost predicate LexAtMost(a: seq<string>, b: seq<string>) {
    || a == b
    || exists i :: 0 <= i < |a| && i < |b| && a[..i] == b[..i] && Before(a[i], b[i])
  }

  lemma LexAntisymmetric(a: seq<string>, b: seq<string>)
    requires LexAtMost(a, b) && LexAtMost(b, a)
    ensures a == b
  {
    if a != b {
      var i :| 0 <= i < |a| && i < |b| && a[..i] == b[..i] && Before(a[i], b[i]);
      forall j | 0 <= j < |b| && j < |a| && b[..j] == a[..j] ensures !Before(b[j], a[j]) {
        if j < i {
          assert a[..i][j] == b[..i][j];
        } else if i == j && AtMost(b[j], a[j]) {
          AtMostAntisymmetric(a[i], b[i]);
        }
      }
    }
  }

  lemma {:induction false} FirstDifference(a: seq<string>, b: seq<string>) returns (i: nat)
    requires |a| == |b| && a != b
    ensures i < |a| && a[..i] == b[..i] && a[i] != b[i]
  {
    i := 0;
    while a[i] == b[i]
      invariant i < |a| && a[..i] == b[..i]
      decreases |a| - i
    {
      if i + 1 == |a| {
        assert a == a[..i] + [a[i]] == b;
      }
      assert a[..i + 1] == a[..i] + [a[i]];
      assert b[..i + 1] == b[..i] + [b[i]];
      i := i + 1;
    }
  }

  // ---------- Emitting modules greedily ----------

  /** `name` is registered, not yet emitted, and everything it depends on has been emitted. */
  ghost predicate Ready(g: Graph, done: set<string>, name: string) {
    name in g && name !in done && forall m :: m in g[name] ==> m in done
  }

  /** At each place `done` holds the least name that was ready there. */
  ghost predicate Greedy(g: Graph, done: seq<string>) {
    forall i :: 0 <= i < |done| ==>
      && Ready(g, Elements(done[..i]), done[i])
      && forall n :: Ready(g, Elements(done[..i]), n) ==> AtMost(done[i], n)
  }

  lemma GreedyAppend(g: Graph, done: seq<string>, n: string)
    requires Greedy(g, done)
    requires Ready(g, Elements(done), n)
    requires forall m :: Ready(g, Elements(done), m) ==> AtMost(n, m)
    ensures Greedy(g, done + [n])
  {
    var all := done + [n];
    forall i | 0 <= i < |all|
      ensures Ready(g, Elements(all[..i]), all[i])
      ensures forall m :: Ready(g, Elements(all[..i]), m) ==> AtMost(all[i], m)
    {
      if i < |done| {
        assert all[..i] == done[..i];
      } else {
        assert all[..i] == done;
      }
    }
  }

  lemma GreedyIsOrdered(g: Graph, done: seq<string>)
    requires Greedy(g, done)
    ensures NoRepeats(done) && Elements(done) <= g.Keys
    ensures forall i, m :: 0 <= i < |done| && Edge(g, done[i], m) ==> m in done[..i]
  {
  }

  /** A greedy emission of all names is the lexicographically least topological order. */
  lemma GreedyIsLeast(g: Graph, done: seq<string>, t: seq<string>)
    requires Greedy(g, done) && Elements(done) == g.Keys
    requires TopologicalOrder(g, t)
    ensures LexAtMost(done, t)
  {
    GreedyIsOrdered(g, done);
    ElementsCount(done);
    ElementsCount(t);
    if done != t {
      var i := FirstDifference(done, t);
      assert forall j :: 0 <= j < i ==> t[..i][j] != t[i];
      assert t[i] in Elements(t);
      assert forall m :: m in g[t[i]] ==> Edge(g, t[i], m);
      assert Ready(g, Elements(done[..i]), t[i]);
      assert Before(done[i], t[i]);
    }
  }

  // ---------- Cycles ----------

  ghost predicate DependsInto(g: Graph, s: set<string>, n: string) {
    exists m :: m in s && Edge(g, n, m)
  }

  /** Every name of `s` depends on a name of `s`. */
  ghost predicate Stuck(g: Graph, s: set<string>) {
    forall n {:trigger DependsInto(g, s, n)} :: n in s ==> DependsInto(g, s, n)
  }

  lemma {:induction false} WalkInside(g: Graph, s: set<string>, start: string, steps: nat) returns (p: seq<string>)
    requires start in s && Stuck(g, s)
    ensures |p| == steps + 1 && IsWalk(g, p)
    ensures forall i :: 0 <= i < |p| ==> p[i] in s
  {
    p := [start];
    while |p| < steps + 1
      invariant 1 <= |p| <= steps + 1 && IsWalk(g, p)
      invariant forall i :: 0 <= i < |p| ==> p[i] in s
    {
      assert DependsInto(g, s, p[|p| - 1]);
      var m :| m in s && Edge(g, p[|p| - 1], m);
      p := p + [m];
    }
  }

  /** If every name of a non-empty set depends on a name of the set, the graph has a cycle. */
  lemma StuckSetHasCycle(g: Graph, s: set<string>)
    requires s != {} && Stuck(g, s)
    ensures !Acyclic(g)
  {
    var start :| start in s;
    var p := WalkInside(g, s, start, |s|);
    ElementsCount(p);
    SubsetCount(Elements(p), s);
    assert !NoRepeats(p);
    var i, j :| 0 <= i < j < |p| && p[i] == p[j];
    var c := p[i..j + 1];
    forall k, l | 0 <= k < |c| && l == k + 1 < |c| ensures Edge(g, c[k], c[l]) {
      assert c[k] == p[i + k] && c[l] == p[i + l];
    }
    assert IsCycle(g, c);
  }

  /** Walking down from `t[k]` in a topological order moves strictly towards the front. */
  lemma {:induction false} WalkDescends(g: Graph, t: seq<string>, p: seq<string>, k: nat) returns (j: nat)
    requires TopologicalOrder(g, t) && IsWalk(g, p) && p != []
    requires k < |t| && t[k] == p[0]
    ensures j < |t| && t[j] == p[|p| - 1] && j + |p| - 1 <= k
    decreases |p|
  {
    if |p| == 1 {
      j := k;
    } else {
      assert Edge(g, t[k], p[1]);
      var l :| 0 <= l < k && t[..k][l] == p[1];
      j := WalkDescends(g, t, p[1..], l);
    }
  }

  lemma OrderImpliesAcyclic(g: Graph, t: seq<string>)
    requires TopologicalOrder(g, t)
    ensures Acyclic(g) && DepsRegistered(g)
  {
    forall c ensures !IsCycle(g, c) {
      if IsCycle(g, c) {
        assert Edge(g, c[0], c[1]);
        assert c[0] in Elements(t);
        var k :| 0 <= k < |t| && t[k] == c[0];
        var j := WalkDescends(g, t, c, k);
      }
    }
    forall n, m | n in g && m in g[n] ensures m in g {
      assert n in Elements(t);
      var i :| 0 <= i < |t| && t[i] == n;
      assert Edge(g, t[i], m);
      assert m in Elements(t);
    }
  }

  lemma LeftoversAreStuck(g: Graph, done: set<string>)
    requires DepsRegistered(g)
    requires forall n :: !Ready(g, done, n)
    ensures Stuck(g, g.Keys - done)
  {
    var stuck := g.Keys - done;
    forall n | n in stuck ensures DependsInto(g, stuck, n) {
      assert !Ready(g, done, n);
      var m :| m in g[n] && m !in done;
      assert Edge(g, n, m);
    }
  }

  lemma LeftoversExist(g: Graph, done: seq<string>)
    requires Greedy(g, done) && |done| != |g|
    ensures g.Keys - Elements(done) != {}
  {
    GreedyIsOrdered(g, done);
    ElementsCount(done);
    assert g.Keys == Elements(done) + (g.Keys - Elements(done));
  }

  /** When emission has run dry early, a dependency is unregistered or there is a cycle. */
  lemma DryMeansUnsortable(g: Graph, done: seq<string>)
    requires Greedy(g, done) && |done| != |g|
    requires forall n :: !Ready(g, Elements(done), n)
    ensures !(DepsRegistered(g) && Acyclic(g))
  {
    if DepsRegistered(g) {
      LeftoversExist(g, done);
      LeftoversAreStuck(g, Elements(done));
      StuckSetHasCycle(g, g.Keys - Elements(done));
    }
  }

  // ---------- Registration order ----------

  lemma NameOfMember(ds: seq<Module>, d: Module)
    requires d in ds
    ensures d.name in Elements(NamesOf(ds))
  {
  }

  lemma NamesSubset(ds: seq<Module>, es: seq<Module>)
    requires forall d :: d in ds ==> d in es
    ensures Elements(NamesOf(ds)) <= Elements(NamesOf(es))
  {
    forall n | n in Elements(NamesOf(ds)) ensures n in Elements(NamesOf(es)) {
      var i :| 0 <= i < |ds| && NamesOf(ds)[i] == n;
      NameOfMember(es, ds[i]);
    }
  }

  lemma {:induction false} DepsOfAbsent(ds: seq<Module>, name: string)
    requires name !in Elements(NamesOf(ds))
    ensures Deps(ds, name) == []
  {
    if ds != [] {
      var front := ds[..|ds| - 1];
      NamesSubset(front, ds);
      NameOfMember(ds, ds[|ds| - 1]);
      DepsOfAbsent(front, name);
    }
  }

  /** With distinct names, the entries of a module are those of its descriptor. */
  lemma {:induction false} DepsOfMember(ds: seq<Module>, d: Module)
    requires DistinctNames(ds) && d in ds
    ensures Deps(ds, d.name) == d.dependsOn
  {
    var front, last := ds[..|ds| - 1], ds[|ds| - 1];
    assert forall i :: 0 <= i < |front| ==> NamesOf(ds)[i] == NamesOf(front)[i];
    assert NamesOf(ds)[|ds| - 1] == last.name;
    if d == last {
      assert d.name !in Elements(NamesOf(front));
      DepsOfAbsent(front, d.name);
    } else {
      assert d in front;
      DepsOfMember(front, d);
      NameOfMember(front, d);
    }
  }

  /** The graph depends on the descriptors registered, not on the order of registration. */
  lemma GraphIgnoresRegistrationOrder(ds: seq<Module>, es: seq<Module>)
    requires multiset(ds) == multiset(es)
    ensures DistinctNames(ds) <==> DistinctNames(es)
    ensures DistinctNames(ds) ==> GraphOf(ds) == GraphOf(es)
  {
    assert forall d :: d in ds <==> d in multiset(ds);
    assert forall d :: d in es <==> d in multiset(es);
    assert |ds| == |multiset(ds)| == |multiset(es)| == |es|;
    NamesSubset(ds, es);
    NamesSubset(es, ds);
    ElementsCount(NamesOf(ds));
    ElementsCount(NamesOf(es));
    assert Elements(NamesOf(ds)) == Elements(NamesOf(es));
    if DistinctNames(ds) {
      forall n | n in GraphOf(ds) ensures GraphOf(ds)[n] == GraphOf(es)[n] {
        var i :| 0 <= i < |ds| && NamesOf(ds)[i] == n;
        DepsOfMember(ds, ds[i]);
        DepsOfMember(es, ds[i]);
      }
    }
  }
}
