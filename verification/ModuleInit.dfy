/**
  Initialisation of the registered modules in dependency order, with optional modules
  degrading to "not initialised". Factories are success oracles: `factory(d)` tells
  whether the factory of `d` returns nil.
 */
module ModuleInit {
  import opened ModuleGraph
  import opened ModuleSort
  import opened Sequences
  import opened Wrappers

  /** The flags that are set; an absent flag is a nil pointer. */
  type ModulesConfig = map<string, bool>

  function IsEnabled(mc: ModulesConfig, flag: string): bool {
    if flag !in mc then true else mc[flag]
  }

  /** The module is core or not switched off. */
  predicate Wanted(mc: ModulesConfig, d: Module) {
    d.core || d.enabledFlag.None? || IsEnabled(mc, d.enabledFlag.value)
  }

  ghost predicate DepsIn(d: Module, initialized: set<string>) {
    forall m :: m in d.dependsOn ==> m in initialized
  }

  ghost predicate Starts(mc: ModulesConfig, factory: Module -> bool, d: Module, initialized: set<string>) {
    Wanted(mc, d) && factory(d) && DepsIn(d, initialized)
  }

  /** The initialised set is exactly the wanted modules whose factory succeeds and whose
      dependencies are all initialised. */
  ghost predicate IsSolution(ds: seq<Module>, mc: ModulesConfig, factory: Module -> bool, s: set<string>) {
    && s <= Elements(NamesOf(ds))
    && forall d :: d in ds ==> (d.name in s <==> Starts(mc, factory, d, s))
  }

  datatype InitResult =
    | Initialized
    | DependencyError
    | CoreUnmetDependency(name: string)
    | CoreFailed(name: string)

  // ---------- Reference definition: settle the modules one by one ----------

  ghost function Settle(order: seq<Module>, mc: ModulesConfig, factory: Module -> bool): set<string> {
    if order == [] then {}
    else
      var before, d := Settle(order[..|order| - 1], mc, factory), order[|order| - 1];
      if Starts(mc, factory, d, before) then before + {d.name} else before
  }

  lemma {:induction false} SettleNames(order: seq<Module>, mc: ModulesConfig, factory: Module -> bool)
    ensures Settle(order, mc, factory) <= Elements(NamesOf(order))
  {
    if order != [] {
      var front := order[..|order| - 1];
      SettleNames(front, mc, factory);
      NamesSubset(front, order);
      NameOfMember(order, order[|order| - 1]);
    }
  }

  /** Each module comes after its dependencies and no name occurs twice. */
  ghost predicate Ordered(order: seq<Module>) {
    && DistinctNames(order)
    && forall i, m :: 0 <= i < |order| && m in order[i].dependsOn ==> m in NamesOf(order[..i])
  }

  lemma OrderedPrefix(order: seq<Module>, k: nat)
    requires Ordered(order) && k <= |order|
    ensures Ordered(order[..k])
  {
    var front := order[..k];
    forall i, j | 0 <= i < j < k ensures NamesOf(front)[i] != NamesOf(front)[j] {
      assert NamesOf(order)[i] != NamesOf(order)[j];
    }
    forall i, m | 0 <= i < k && m in front[i].dependsOn ensures m in NamesOf(front[..i]) {
      assert front[..i] == order[..i];
      assert m in order[i].dependsOn;
    }
  }

  lemma LastNameIsNew(order: seq<Module>)
    requires DistinctNames(order) && order != []
    ensures order[|order| - 1].name !in Elements(NamesOf(order[..|order| - 1]))
  {
  }

  /** Settling in dependency order yields a solution. */
  lemma {:induction false} SettleIsSolution(order: seq<Module>, mc: ModulesConfig, factory: Module -> bool)
    requires Ordered(order)
    ensures IsSolution(order, mc, factory, Settle(order, mc, factory))
  {
    SettleNames(order, mc, factory);
    if order != [] {
      var front, last := order[..|order| - 1], order[|order| - 1];
      var before, after := Settle(front, mc, factory), Settle(order, mc, factory);
      OrderedPrefix(order, |order| - 1);
      SettleIsSolution(front, mc, factory);
      LastNameIsNew(order);
      forall d | d in order ensures d.name in after <==> Starts(mc, factory, d, after) {
        DepsNotLast(order, d);
        if d in front {
          NameOfMember(front, d);
          assert d.name in before <==> Starts(mc, factory, d, before);
        } else {
          assert d == last;
        }
      }
    }
  }

  lemma DepsNotLast(order: seq<Module>, d: Module)
    requires Ordered(order) && d in order
    ensures order[|order| - 1].name !in d.dependsOn
  {
  }

  /** The two sets agree on the first `k` modules. */
  ghost predicate Agree(order: seq<Module>, k: nat, s: set<string>, t: set<string>)
    requires k <= |order|
  {
    forall i :: 0 <= i < k ==> (order[i].name in s <==> order[i].name in t)
  }

  lemma AgreeOnDeps(order: seq<Module>, k: nat, s: set<string>, t: set<string>)
    requires Ordered(order) && k < |order| && Agree(order, k, s, t)
    ensures DepsIn(order[k], s) <==> DepsIn(order[k], t)
  {
    forall m | m in order[k].dependsOn ensures m in s <==> m in t {
      var j :| 0 <= j < k && NamesOf(order[..k])[j] == m;
      assert order[j].name == m;
    }
  }

  /** Every solution agrees with settling the modules one by one. */
  lemma {:induction false} SolutionAgreesWithSettle(order: seq<Module>, mc: ModulesConfig, factory: Module -> bool,
                                                    s: set<string>, k: nat)
    requires Ordered(order) && IsSolution(order, mc, factory, s) && k <= |order|
    ensures Agree(order, k, s, Settle(order[..k], mc, factory))
  {
    if k > 0 {
      var d, before := order[k - 1], Settle(order[..k - 1], mc, factory);
      SolutionAgreesWithSettle(order, mc, factory, s, k - 1);
      AgreeOnDeps(order, k - 1, s, before);
      SettleNext(order, k - 1, mc, factory);
      NameIsNew(order, k - 1, mc, factory);
      assert d in order;
      assert forall i :: 0 <= i < k - 1 ==> order[i].name != d.name;
    }
  }

  lemma NameIsNew(order: seq<Module>, k: nat, mc: ModulesConfig, factory: Module -> bool)
    requires Ordered(order) && k < |order|
    ensures order[k].name !in Settle(order[..k], mc, factory)
    ensures forall i :: 0 <= i < k ==> order[i].name != order[k].name
  {
    SettleNames(order[..k], mc, factory);
    forall i | 0 <= i < k ensures NamesOf(order[..k])[i] != order[k].name && order[i].name != order[k].name {
      assert NamesOf(order)[i] != NamesOf(order)[k];
    }
  }

  lemma SolutionUnique(order: seq<Module>, mc: ModulesConfig, factory: Module -> bool, s: set<string>)
    requires Ordered(order) && IsSolution(order, mc, factory, s)
    ensures s == Settle(order, mc, factory)
  {
    assert order[..|order|] == order;
    SolutionAgreesWithSettle(order, mc, factory, s, |order|);
    SettleNames(order, mc, factory);
    forall n ensures n in s <==> n in Settle(order, mc, factory) {
      if n in Elements(NamesOf(order)) {
        var i :| 0 <= i < |order| && NamesOf(order)[i] == n;
      }
    }
  }

  lemma SameMembers(ds: seq<Module>, es: seq<Module>)
    requires multiset(ds) == multiset(es)
    ensures forall d :: d in ds <==> d in es
  {
    assert forall d :: d in ds <==> d in multiset(ds);
    assert forall d :: d in es <==> d in multiset(es);
  }

  lemma SortedIsOrdered(ds: seq<Module>, order: seq<Module>)
    requires IsSortResult(ds, Some(order))
    ensures Ordered(order)
    ensures forall d :: d in ds <==> d in order
    ensures Elements(NamesOf(order)) == Elements(NamesOf(ds))
  {
    SameMembers(ds, order);
    NamesSubset(ds, order);
    NamesSubset(order, ds);
    forall i, m | 0 <= i < |order| && m in order[i].dependsOn ensures m in NamesOf(order[..i]) {
      DepsOfMember(ds, order[i]);
      NameOfMember(ds, order[i]);
      assert Edge(GraphOf(ds), NamesOf(order)[i], m);
      assert NamesOf(order)[..i] == NamesOf(order[..i]);
    }
  }

  /** Sortable descriptors have exactly one solution. */
  lemma SolutionExistsUniquely(ds: seq<Module>, order: seq<Module>, mc: ModulesConfig, factory: Module -> bool,
                               s: set<string>)
    requires IsSortResult(ds, Some(order))
    ensures IsSolution(ds, mc, factory, s) <==> s == Settle(order, mc, factory)
  {
    SortedIsOrdered(ds, order);
    SettleIsSolution(order, mc, factory);
    if IsSolution(ds, mc, factory, s) {
      SolutionUnique(order, mc, factory, s);
    }
  }

  // ---------- The factory calls made ----------

  ghost function Succeeded(calls: seq<Module>, factory: Module -> bool): set<string> {
    set d | d in calls && factory(d) :: d.name
  }

  /** Each factory that ran belongs to a wanted module all of whose dependencies had succeeded before. */
  ghost predicate CallsLegal(mc: ModulesConfig, calls: seq<Module>, factory: Module -> bool) {
    forall k :: 0 <= k < |calls| ==> Wanted(mc, calls[k]) && DepsIn(calls[k], Succeeded(calls[..k], factory))
  }

  lemma CallsAppend(mc: ModulesConfig, calls: seq<Module>, factory: Module -> bool, d: Module)
    requires CallsLegal(mc, calls, factory)
    requires Wanted(mc, d) && DepsIn(d, Succeeded(calls, factory))
    ensures CallsLegal(mc, calls + [d], factory)
    ensures Succeeded(calls + [d], factory) == Succeeded(calls, factory) + if factory(d) then {d.name} else {}
  {
    var all := calls + [d];
    forall k | 0 <= k < |all| ensures Wanted(mc, all[k]) && DepsIn(all[k], Succeeded(all[..k], factory)) {
      if k < |calls| {
        assert all[..k] == calls[..k];
      } else {
        assert all[..k] == calls;
      }
    }
    assert forall e :: e in all <==> e in calls || e == d;
  }

  /** The factories run are those of the wanted modules of `order` whose dependencies are initialised. */
  ghost predicate CalledExactly(order: seq<Module>, mc: ModulesConfig, calls: seq<Module>, initialized: set<string>) {
    && (forall d :: d in calls ==> d in order)
    && forall d :: d in order ==> (d in calls <==> Wanted(mc, d) && DepsIn(d, initialized))
  }

  /** The state of the initialisation loop before module `i` of `order`. */
  ghost predicate Progress(order: seq<Module>, i: nat, mc: ModulesConfig, factory: Module -> bool,
                           initialized: set<string>, calls: seq<Module>)
    requires i <= |order|
  {
    && initialized == Settle(order[..i], mc, factory)
    && initialized == Succeeded(calls, factory)
    && CallsLegal(mc, calls, factory) && NoRepeats(calls)
    && CalledExactly(order[..i], mc, calls, initialized)
    && forall d :: d in order[..i] && d.core ==> d.name in initialized
  }

  lemma SettleNext(order: seq<Module>, i: nat, mc: ModulesConfig, factory: Module -> bool)
    requires i < |order|
    ensures
      var s, d := Settle(order[..i], mc, factory), order[i];
      Settle(order[..i + 1], mc, factory) == if Starts(mc, factory, d, s) then s + {d.name} else s
  {
    assert order[..i + 1][..i] == order[..i];
  }

  lemma CallsNext(mc: ModulesConfig, factory: Module -> bool, initialized: set<string>, calls: seq<Module>, d: Module)
    requires initialized == Succeeded(calls, factory) && CallsLegal(mc, calls, factory) && NoRepeats(calls)
    requires Wanted(mc, d) && DepsIn(d, initialized) && d !in calls
    ensures CallsLegal(mc, calls + [d], factory) && NoRepeats(calls + [d])
    ensures Succeeded(calls + [d], factory) == if factory(d) then initialized + {d.name} else initialized
  {
    CallsAppend(mc, calls, factory, d);
  }

  lemma CoreNext(order: seq<Module>, i: nat, initialized: set<string>, initialized': set<string>)
    requires i < |order| && initialized <= initialized'
    requires forall d :: d in order[..i] && d.core ==> d.name in initialized
    requires order[i].core ==> order[i].name in initialized'
    ensures forall d :: d in order[..i + 1] && d.core ==> d.name in initialized'
  {
  }

  /** What was called for the first modules is unaffected by settling the next one. */
  lemma CalledAfter(order: seq<Module>, i: nat, mc: ModulesConfig, s: set<string>, calls: seq<Module>)
    requires Ordered(order) && i < |order| && CalledExactly(order[..i], mc, calls, s)
    ensures
      var d := order[i];
      var calls' := if Wanted(mc, d) && DepsIn(d, s) then calls + [d] else calls;
      && d !in calls
      && CalledExactly(order[..i + 1], mc, calls', s)
      && CalledExactly(order[..i + 1], mc, calls', s + {d.name})
  {
  }

  /** A module that is not wanted or lacks a dependency is passed over. */
  lemma ProgressSkip(order: seq<Module>, i: nat, mc: ModulesConfig, factory: Module -> bool,
                     initialized: set<string>, calls: seq<Module>)
    requires Ordered(order) && i < |order| && Progress(order, i, mc, factory, initialized, calls)
    requires !order[i].core && !(Wanted(mc, order[i]) && DepsIn(order[i], initialized))
    ensures Progress(order, i + 1, mc, factory, initialized, calls)
  {
    SettleNext(order, i, mc, factory);
    CalledAfter(order, i, mc, initialized, calls);
    CoreNext(order, i, initialized, initialized);
  }

  /** A module whose factory runs. */
  lemma ProgressCall(order: seq<Module>, i: nat, mc: ModulesConfig, factory: Module -> bool,
                     initialized: set<string>, calls: seq<Module>)
    requires Ordered(order) && i < |order| && Progress(order, i, mc, factory, initialized, calls)
    requires Wanted(mc, order[i]) && DepsIn(order[i], initialized)
    ensures
      var d := order[i];
      var initialized' := if factory(d) then initialized + {d.name} else initialized;
      && initialized' == Succeeded(calls + [d], factory)
      && CallsLegal(mc, calls + [d], factory) && NoRepeats(calls + [d])
      && ((d.core && !factory(d)) || Progress(order, i + 1, mc, factory, initialized', calls + [d]))
  {
    var d := order[i];
    SettleNext(order, i, mc, factory);
    CalledAfter(order, i, mc, initialized, calls);
    CallsNext(mc, factory, initialized, calls, d);
    if !d.core || factory(d) {
      CoreNext(order, i, initialized, if factory(d) then initialized + {d.name} else initialized);
    }
  }

  /** Initialisation stopped at module `i` of `order`, which is core: because a dependency is missing,
      before its factory ran, or because its factory failed. */
  ghost predicate StoppedAt(order: seq<Module>, i: nat, mc: ModulesConfig, factory: Module -> bool,
                            r: InitResult, initialized: set<string>, calls: seq<Module>) {
    && i < |order| && order[i].core
    && match r
       case CoreUnmetDependency(name) =>
         && name == order[i].name && !DepsIn(order[i], initialized)
         && Progress(order, i, mc, factory, initialized, calls)
       case CoreFailed(name) =>
         && name == order[i].name && DepsIn(order[i], initialized) && !factory(order[i])
         && calls != [] && calls[|calls| - 1] == order[i]
         && Progress(order, i, mc, factory, initialized, calls[..|calls| - 1])
       case _ => false
  }

  /** What initialisation promises about its result, the initialised names and the factory calls. */
  ghost predicate InitOutcome(ds: seq<Module>, mc: ModulesConfig, factory: Module -> bool,
                              r: InitResult, initialized: set<string>, calls: seq<Module>) {
    // Sorting fails exactly when the descriptors are not sortable, and then no factory runs.
    && (r == DependencyError <==> !(DistinctNames(ds) && DepsRegistered(GraphOf(ds)) && Acyclic(GraphOf(ds))))
    && (r == DependencyError ==> calls == [])
    // On success the initialised set is the solution, and the factories run are its candidates.
    && (r == Initialized ==> IsSolution(ds, mc, factory, initialized))
    && (r == Initialized ==> CalledExactly(ds, mc, calls, initialized))
    // Initialisation succeeds exactly when the solution contains every core module.
    && (r != DependencyError ==> forall s :: IsSolution(ds, mc, factory, s) ==>
          (r == Initialized <==> forall d :: d in ds && d.core ==> d.name in s))
    // An error names the first core module in dependency order that is in no solution.
    && (r.CoreUnmetDependency? || r.CoreFailed? ==>
          && (exists order, i ::
                IsSortResult(ds, Some(order)) && StoppedAt(order, i, mc, factory, r, initialized, calls))
          && (forall s :: IsSolution(ds, mc, factory, s) ==> r.name !in s))
    // Each factory runs at most once, after all its dependencies have succeeded.
    && CallsLegal(mc, calls, factory) && NoRepeats(calls)
    && initialized == Succeeded(calls, factory)
  }

  lemma FinishInitialized(ds: seq<Module>, order: seq<Module>, mc: ModulesConfig, factory: Module -> bool,
                          initialized: set<string>, calls: seq<Module>)
    requires IsSortResult(ds, Some(order)) && Progress(order, |order|, mc, factory, initialized, calls)
    ensures InitOutcome(ds, mc, factory, Initialized, initialized, calls)
  {
    SortSucceedsExactlyWhenSortable(ds, Some(order));
    SortedIsOrdered(ds, order);
    assert order[..|order|] == order;
    SolutionExistsUniquely(ds, order, mc, factory, initialized);
    forall s | IsSolution(ds, mc, factory, s) ensures s == initialized {
      SolutionExistsUniquely(ds, order, mc, factory, s);
    }
  }

  /** A core module that does not start is outside every solution. */
  lemma CoreMissing(ds: seq<Module>, order: seq<Module>, mc: ModulesConfig, factory: Module -> bool, i: nat)
    requires IsSortResult(ds, Some(order)) && i < |order|
    requires !Starts(mc, factory, order[i], Settle(order[..i], mc, factory))
    ensures order[i] in ds
    ensures forall s :: IsSolution(ds, mc, factory, s) ==> order[i].name !in s
  {
    SortedIsOrdered(ds, order);
    NameIsNew(order, i, mc, factory);
    SettleNext(order, i, mc, factory);
    forall s | IsSolution(ds, mc, factory, s) ensures order[i].name !in s {
      SolutionAgreesWithSettle(order, mc, factory, s, i + 1);
    }
  }

  lemma FinishCoreError(ds: seq<Module>, order: seq<Module>, mc: ModulesConfig, factory: Module -> bool, i: nat,
                        r: InitResult, initialized: set<string>, calls: seq<Module>)
    requires IsSortResult(ds, Some(order)) && StoppedAt(order, i, mc, factory, r, initialized, calls)
    requires CallsLegal(mc, calls, factory) && NoRepeats(calls) && initialized == Succeeded(calls, factory)
    ensures InitOutcome(ds, mc, factory, r, initialized, calls)
  {
    SortSucceedsExactlyWhenSortable(ds, Some(order));
    CoreMissing(ds, order, mc, factory, i);
  }

  /** After a successful initialisation a module is initialised exactly when it is core, has no flag, or
      its flag is unset or true, and its factory succeeds, and all its dependencies are initialised. */
  lemma InitializedExactly(ds: seq<Module>, mc: ModulesConfig, factory: Module -> bool,
                           initialized: set<string>, calls: seq<Module>, d: Module)
    requires InitOutcome(ds, mc, factory, Initialized, initialized, calls) && d in ds
    ensures d.name in initialized <==>
      && (d.core || d.enabledFlag == None || d.enabledFlag.value !in mc || mc[d.enabledFlag.value])
      && factory(d)
      && forall m :: m in d.dependsOn ==> m in initialized
  {
  }

  /** The registry of module descriptors. */
  class ModuleRegistry {
    var descriptors: seq<Module>

    constructor ()
      ensures descriptors == []
    {
      descriptors := [];
    }

    method Register(d: Module)
      modifies this
      ensures descriptors == old(descriptors) + [d]
    {
      descriptors := descriptors + [d];
    }

    /** Whether all dependencies of `d` are initialised: the scan that stops at the first missing one. */
    method DependenciesMet(d: Module, initialized: set<string>) returns (met: bool)
      ensures met <==> DepsIn(d, initialized)
    {
      for i := 0 to |d.dependsOn|
        invariant forall j :: 0 <= j < i ==> d.dependsOn[j] in initialized
      {
        if d.dependsOn[i] !in initialized {
          return false;
        }
      }
      return true;
    }

    /** Initialises all registered modules in dependency order. The set of initialised names and
        the factory calls made, local to the source's function, are returned for inspection. */
    method InitializeAll(mc: ModulesConfig, factory: Module -> bool)
      returns (r: InitResult, initialized: set<string>, calls: seq<Module>)
      ensures InitOutcome(descriptors, mc, factory, r, initialized, calls)
    {
      initialized, calls := {}, [];
      var sorted := TopologicalSort(descriptors);
      if sorted.None? {
        return DependencyError, initialized, calls;
      }
      var ordered := sorted.value;
      SortedIsOrdered(descriptors, ordered);
      for i := 0 to |ordered|
        invariant Progress(ordered, i, mc, factory, initialized, calls)
      {
        var desc := ordered[i];
        if !Wanted(mc, desc) {
          ProgressSkip(ordered, i, mc, factory, initialized, calls);
          continue;
        }
        var depsOK := DependenciesMet(desc, initialized);
        if !depsOK {
          if desc.core {
            r := CoreUnmetDependency(desc.name);
            FinishCoreError(descriptors, ordered, mc, factory, i, r, initialized, calls);
            return;
          }
          ProgressSkip(ordered, i, mc, factory, initialized, calls);
          continue;
        }
        ProgressCall(ordered, i, mc, factory, initialized, calls);
        assert (calls + [desc])[..|calls|] == calls;
        calls := calls + [desc];
        if !factory(desc) {
          if desc.core {
            r := CoreFailed(desc.name);
            FinishCoreError(descriptors, ordered, mc, factory, i, r, initialized, calls);
            return;
          }
          continue;
        }
        initialized := initialized + {desc.name};
      }
      FinishInitialized(descriptors, ordered, mc, factory, initialized, calls);
      r := Initialized;
    }
  }
}
