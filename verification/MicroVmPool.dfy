/**
  The pool of pre-warmed microVMs. A VM's Firecracker client belongs to it alone and is
  modelled by the flag that says whether its process runs; killing it may fail.
 */
module MicroVmPool {
  import opened Sequences

  const MINUTE := 60_000_000_000

  class PooledVM {
    const vmID: nat
    const createdAt: int
    const killable: bool
    var running: bool
    var inUse: bool

    constructor (vmID: nat, createdAt: int, killable: bool)
      ensures this.vmID == vmID && this.createdAt == createdAt && this.killable == killable
      ensures running && !inUse
    {
      this.vmID, this.createdAt, this.killable := vmID, createdAt, killable;
      running, inUse := true, false;
    }

    method Kill()
      modifies this`running
      ensures running == (old(running) && !killable)
    {
      if killable {
        running := false;
      }
    }
  }

  class Registry {
    var clients: map<nat, PooledVM>

    constructor ()
      ensures clients == map[]
    {
      clients := map[];
    }

    method Register(vmID: nat, client: PooledVM)
      modifies this
      ensures clients == old(clients)[vmID := client]
    {
      clients := clients[vmID := client];
    }

    method Remove(vmID: nat)
      modifies this
      ensures clients == old(clients) - {vmID}
    {
      clients := clients - {vmID};
    }
  }

  // ---------- Which idle VMs maintenance keeps ----------

  /** What maintenance sees of an idle VM. */
  datatype Probe = Probe(running: bool, expired: bool)

  /** The positions kept, front to back: a VM is dropped when it has expired and enough are
      kept already, or when it no longer runs. */
  ghost function Kept(ps: seq<Probe>, minIdle: int): (r: seq<nat>)
    ensures |r| <= |ps| && forall i :: 0 <= i < |r| ==> r[i] < |ps|
  {
    if ps == [] then []
    else
      var front, p := Kept(ps[..|ps| - 1], minIdle), ps[|ps| - 1];
      if (|front| >= minIdle && p.expired) || !p.running then front else front + [|ps| - 1]
  }

  ghost function RunningCount(ps: seq<Probe>): nat {
    if ps == [] then 0 else RunningCount(ps[..|ps| - 1]) + if ps[|ps| - 1].running then 1 else 0
  }

  /** At least `minIdle` VMs survive, or all that run. */
  lemma {:induction false} KeptEnough(ps: seq<Probe>, minIdle: int)
    ensures |Kept(ps, minIdle)| <= RunningCount(ps)
    ensures |Kept(ps, minIdle)| < minIdle ==> |Kept(ps, minIdle)| == RunningCount(ps)
  {
    if ps != [] {
      KeptEnough(ps[..|ps| - 1], minIdle);
    }
  }

  /** A position is kept exactly when its VM runs and is among the first `minIdle` running
      ones or has not expired. */
  lemma {:induction false} KeptExactly(ps: seq<Probe>, minIdle: int, k: nat)
    ensures k in Kept(ps, minIdle) <==>
            k < |ps| && ps[k].running && (RunningCount(ps[..k]) < minIdle || !ps[k].expired)
  {
    if ps != [] {
      var n := |ps| - 1;
      var front := ps[..n];
      var a := Kept(front, minIdle);
      KeptEnough(front, minIdle);
      if k < n {
        KeptExactly(front, minIdle, k);
        assert front[..k] == ps[..k];
      } else {
        assert forall i :: 0 <= i < |a| ==> a[i] != k;
      }
    }
  }

  /** Positions are kept in order. */
  lemma {:induction false} KeptIncreasing(ps: seq<Probe>, minIdle: int)
    ensures forall i, j :: 0 <= i < j < |Kept(ps, minIdle)| ==> Kept(ps, minIdle)[i] < Kept(ps, minIdle)[j]
  {
    if ps != [] {
      KeptIncreasing(ps[..|ps| - 1], minIdle);
    }
  }

  ghost function Select<T>(s: seq<T>, ks: seq<nat>): seq<T>
    requires forall i :: 0 <= i < |ks| ==> ks[i] < |s|
  {
    seq(|ks|, i requires 0 <= i < |ks| => s[ks[i]])
  }

  /** Selecting increasing positions from a sequence without repeats gives none. */
  lemma SelectNoRepeats<T>(s: seq<T>, ks: seq<nat>)
    requires NoRepeats(s) && forall i :: 0 <= i < |ks| ==> ks[i] < |s|
    requires forall i, j :: 0 <= i < j < |ks| ==> ks[i] < ks[j]
    ensures NoRepeats(Select(s, ks))
    ensures forall x :: x in Select(s, ks) ==> x in s
  {
  }

  ghost predicate FirstRunning(idle: seq<PooledVM>, i: nat)
    reads idle
  {
    i < |idle| && idle[i].running && forall j :: 0 <= j < i ==> !idle[j].running
  }

  // ---------- The pool ----------

  class Pool {
    const maxSize: int
    const minIdle: int
    const idleTimeout: int
    const registry: Registry
    var idle: seq<PooledVM>
    ghost var claimed: set<PooledVM>
    ghost var destroyed: set<PooledVM>
    ghost var known: set<PooledVM>

    /** Every VM the pool has dealt with is in exactly one of idle, claimed and destroyed; idle
        VMs are listed once, are not in use, and are at most `maxSize`. */
    ghost predicate Valid()
      reads this, idle, claimed
    {
      && maxSize > 0 && minIdle > 0 && idleTimeout > 0
      && |idle| <= maxSize
      && NoRepeats(idle)
      && known == Elements(idle) + claimed + destroyed
      && (forall vm :: vm in idle ==> !vm.inUse && vm !in claimed && vm !in destroyed)
      && (forall vm :: vm in claimed ==> vm.inUse && vm !in destroyed)
    }

    constructor (maxSize: int, minIdle: int, idleTimeout: int, registry: Registry)
      ensures Valid() && idle == [] && known == {} && this.registry == registry
      ensures this.maxSize == if maxSize <= 0 then 10 else maxSize
      ensures this.minIdle == if minIdle <= 0 then 2 else minIdle
      ensures this.idleTimeout == if idleTimeout <= 0 then 300_000_000_000 else idleTimeout
    {
      this.maxSize := if maxSize <= 0 then 10 else maxSize;
      this.minIdle := if minIdle <= 0 then 2 else minIdle;
      this.idleTimeout := if idleTimeout <= 0 then 5 * MINUTE else idleTimeout;
      this.registry := registry;
      idle, claimed, destroyed, known := [], {}, {}, {};
    }

    /** Takes the first idle VM that runs, if there is one. */
    method Claim() returns (vm: PooledVM?)
      requires Valid()
      modifies this, idle
      ensures Valid() && known == old(known)
      ensures vm == null <==> forall v :: v in old(idle) ==> !v.running
      ensures vm == null ==> idle == old(idle) && claimed == old(claimed)
      ensures vm != null ==> vm.inUse && claimed == old(claimed) + {vm}
      ensures vm != null ==> exists i: nat :: FirstRunning(old(idle), i) && old(idle)[i] == vm
                                           && idle == old(idle)[..i] + old(idle)[i + 1..]
      ensures destroyed == old(destroyed)
      ensures forall v :: v in old(idle) && v != vm ==> v.inUse == old(v.inUse)
      ensures forall v :: v in old(idle) ==> v.running == old(v.running)
    {
      for i := 0 to |idle|
        invariant forall j :: 0 <= j < i ==> !idle[j].running
        invariant Valid() && idle == old(idle) && claimed == old(claimed) && destroyed == old(destroyed)
        invariant known == old(known)
        invariant forall v :: v in idle ==> v.inUse == old(v.inUse) && v.running == old(v.running)
      {
        var v := idle[i];
        if !v.inUse && v.running {
          v.inUse := true;
          idle := idle[..i] + idle[i + 1..];
          claimed := claimed + {v};
          assert forall x :: x in old(idle) <==> x in idle || x == v;
          assert v !in idle;
          assert old(idle)[i] == v && FirstRunning(old(idle), i);
          return v;
        }
      }
      return null;
    }

    /** Returns a VM to the pool, or destroys it when the pool is full. The pool stays
        consistent exactly when the VM was not idle already. */
    method Release(vm: PooledVM)
      requires Valid()
      modifies this, vm, registry
      ensures Valid() <==> vm !in old(idle)
      ensures !vm.inUse
      ensures |old(idle)| < maxSize ==>
        && idle == old(idle) + [vm] && destroyed == old(destroyed) - {vm}
        && registry.clients == old(registry.clients) && vm.running == old(vm.running)
      ensures |old(idle)| >= maxSize ==>
        && idle == old(idle) && destroyed == old(destroyed) + {vm}
        && registry.clients == old(registry.clients) - {vm.vmID} && vm.running == (old(vm.running) && !vm.killable)
      ensures claimed == old(claimed) - {vm} && known == old(known) + {vm}
    {
      vm.inUse := false;
      claimed := claimed - {vm};
      known := known + {vm};
      if |idle| >= maxSize {
        vm.Kill();
        registry.Remove(vm.vmID);
        destroyed := destroyed + {vm};
        assert known == Elements(idle) + claimed + destroyed;
        return;
      }
      idle := idle + [vm];
      destroyed := destroyed - {vm};
      NoRepeatsAppend(old(idle), vm);
      assert known == Elements(idle) + claimed + destroyed;
    }

    ghost function Probes(now: int): (ps: seq<Probe>)
      reads this, idle
      ensures |ps| == |idle|
      ensures forall i :: 0 <= i < |ps| ==> ps[i] == Probe(idle[i].running, now - idle[i].createdAt > idleTimeout)
    {
      seq(|idle|, i requires 0 <= i < |idle| reads this, idle =>
        Probe(idle[i].running, now - idle[i].createdAt > idleTimeout))
    }

    /** One turn of the maintenance loop: whether to keep a VM when `count` are kept already. A VM
        that is not kept leaves the registry, and its process is killed if it still runs. */
    method Examine(vm: PooledVM, count: nat, now: int) returns (keep: bool)
      modifies vm`running, registry
      ensures keep <==> old(vm.running) && (count < minIdle || now - vm.createdAt <= idleTimeout)
      ensures vm.running == (old(vm.running) && (keep || !vm.killable))
      ensures keep ==> registry.clients == old(registry.clients)
      ensures !keep ==> registry.clients == old(registry.clients) - {vm.vmID}
    {
      if count >= minIdle {
        if now - vm.createdAt > idleTimeout {
          vm.Kill();
          registry.Remove(vm.vmID);
          return false;
        }
      }
      if !vm.running {
        registry.Remove(vm.vmID);
        return false;
      }
      return true;
    }

    /** The loop of maintenance: which idle VMs are kept, the others leaving the registry. */
    method Sweep(now: int) returns (kept: seq<PooledVM>)
      requires NoRepeats(idle)
      modifies idle`running, registry
      ensures Swept(idle, old(Probes(now)), minIdle, |idle|, kept)
      ensures registry.clients == old(registry.clients) - Ids(Missing(idle[..|idle|], kept))
      ensures forall vm :: vm in kept ==> vm.running
      ensures forall vm :: vm in Missing(idle[..|idle|], kept) && vm.killable ==> !vm.running
    {
      ghost var ps := Probes(now);
      ghost var gone: set<PooledVM> := {};
      kept := [];
      for i := 0 to |idle|
        invariant SweptOff(idle, ps, minIdle, i, kept, gone)
        invariant registry.clients == old(registry.clients) - Ids(gone)
        invariant forall vm :: vm in idle ==> vm.running == (old(vm.running) && (vm !in gone || !vm.killable))
      {
        var vm := idle[i];
        SweepNext(idle, ps, minIdle, i, kept, gone);
        ForgetNext(gone, vm, old(registry.clients));
        assert ps[i] == Probe(vm.running, now - vm.createdAt > idleTimeout);
        var keep := Examine(vm, |kept|, now);
        if keep {
          kept := kept + [vm];
        } else {
          gone := gone + {vm};
        }
      }
      forall vm | vm in kept ensures vm in idle && vm.running {
        KeptRun(idle, ps, minIdle, kept, vm);
      }
    }

    /** Leaves only `kept` idle; the others are destroyed. */
    method Keep(kept: seq<PooledVM>)
      requires Valid() && NoRepeats(kept) && |kept| <= |idle| && forall vm :: vm in kept ==> vm in idle
      modifies this`idle, this`destroyed
      ensures Valid() && idle == kept && destroyed == old(destroyed) + Missing(old(idle), kept)
    {
      destroyed := destroyed + Missing(idle, kept);
      idle := kept;
      assert Elements(old(idle)) == Elements(kept) + Missing(old(idle), kept);
    }

    /** Drops expired idle VMs beyond the minimum, and VMs that no longer run. Every dropped VM
        leaves the registry and is killed if it still runs. */
    method Maintain(now: int)
      requires Valid()
      modifies this, idle, registry
      ensures Valid() && known == old(known)
      ensures idle == Select(old(idle), Kept(old(Probes(now)), minIdle))
      ensures claimed == old(claimed) && destroyed == old(destroyed) + Missing(old(idle), idle)
      ensures registry.clients == old(registry.clients) - Ids(Missing(old(idle), idle))
      ensures forall vm :: vm in idle ==> vm.running
      ensures forall vm :: vm in Missing(old(idle), idle) && vm.killable ==> !vm.running
    {
      ghost var ps := Probes(now);
      var kept := Sweep(now);
      SweptAll(idle, ps, minIdle, kept);
      Keep(kept);
    }

    /** Shuts the pool down: every idle VM is killed and leaves the registry. */
    method Stop()
      requires Valid()
      modifies this, idle, registry
      ensures Valid() && idle == [] && claimed == old(claimed) && known == old(known)
      ensures destroyed == old(destroyed) + Missing(old(idle), [])
      ensures registry.clients == old(registry.clients) - Ids(Missing(old(idle), []))
      ensures forall vm :: vm in old(idle) && vm.killable ==> !vm.running
    {
      for i := 0 to |idle|
        invariant idle == old(idle) && claimed == old(claimed) && destroyed == old(destroyed) && known == old(known)
        invariant registry.clients == old(registry.clients) - Ids(Missing(idle[..i], []))
        invariant forall j :: 0 <= j < i && idle[j].killable ==> !idle[j].running
        invariant forall vm :: vm in idle ==> vm.inUse == old(vm.inUse)
      {
        idle[i].Kill();
        registry.Remove(idle[i].vmID);
        assert Missing(idle[..i + 1], []) == Missing(idle[..i], []) + {idle[i]};
      }
      assert idle[..|idle|] == idle;
      destroyed := destroyed + Missing(idle, []);
      idle := [];
    }
  }

  /** The VMs of `before` that are not in `after`. */
  ghost function Missing(before: seq<PooledVM>, after: seq<PooledVM>): set<PooledVM> {
    set vm | vm in before && vm !in after
  }

  ghost function Ids(vms: set<PooledVM>): set<nat> {
    set vm | vm in vms :: vm.vmID
  }

  /** `kept` is what maintenance keeps of the first `i` of `vms`. */
  ghost predicate Swept(vms: seq<PooledVM>, ps: seq<Probe>, minIdle: int, i: nat, kept: seq<PooledVM>) {
    && |ps| == |vms| && i <= |vms|
    && kept == Select(vms, Kept(ps[..i], minIdle))
    && forall vm :: vm in kept ==> vm in vms[..i]
  }

  lemma SelectAppend<T>(s: seq<T>, ks: seq<nat>, k: nat)
    requires k < |s| && forall i :: 0 <= i < |ks| ==> ks[i] < |s|
    ensures Select(s, ks + [k]) == Select(s, ks) + [s[k]]
  {
  }

  /** Moreover `gone` are the others among the first `i`. */
  ghost predicate SweptOff(vms: seq<PooledVM>, ps: seq<Probe>, minIdle: int, i: nat, kept: seq<PooledVM>,
                           gone: set<PooledVM>)
  {
    Swept(vms, ps, minIdle, i, kept) && gone == Missing(vms[..i], kept)
  }

  lemma SweepNext(vms: seq<PooledVM>, ps: seq<Probe>, minIdle: int, i: nat, kept: seq<PooledVM>, gone: set<PooledVM>)
    requires NoRepeats(vms) && i < |vms| && SweptOff(vms, ps, minIdle, i, kept, gone)
    ensures vms[i] !in gone
    ensures
      var dropped := (|kept| >= minIdle && ps[i].expired) || !ps[i].running;
      && (dropped ==> SweptOff(vms, ps, minIdle, i + 1, kept, gone + {vms[i]}))
      && (!dropped ==> SweptOff(vms, ps, minIdle, i + 1, kept + [vms[i]], gone))
  {
    assert ps[..i + 1][..i] == ps[..i];
    SelectAppend(vms, Kept(ps[..i], minIdle), i);
    MissingNext(vms, i, kept);
  }

  lemma MissingNext(vms: seq<PooledVM>, i: nat, kept: seq<PooledVM>)
    requires NoRepeats(vms) && i < |vms| && forall vm :: vm in kept ==> vm in vms[..i]
    ensures vms[i] !in vms[..i]
    ensures Missing(vms[..i + 1], kept) == Missing(vms[..i], kept) + {vms[i]}
    ensures Missing(vms[..i + 1], kept + [vms[i]]) == Missing(vms[..i], kept)
  {
  }

  /** The registry entries left when one more VM is dropped. */
  lemma ForgetNext(gone: set<PooledVM>, vm: PooledVM, m: map<nat, PooledVM>)
    ensures m - Ids(gone + {vm}) == m - Ids(gone) - {vm.vmID}
  {
  }

  /** A VM that is kept was seen running. */
  lemma KeptRun(vms: seq<PooledVM>, ps: seq<Probe>, minIdle: int, kept: seq<PooledVM>, vm: PooledVM)
    requires Swept(vms, ps, minIdle, |vms|, kept) && vm in kept
    ensures exists k :: 0 <= k < |vms| && vms[k] == vm && ps[k].running
  {
    var ks := Kept(ps[..|vms|], minIdle);
    var i :| 0 <= i < |kept| && kept[i] == vm;
    assert ks[i] in ks;
    KeptExactly(ps[..|vms|], minIdle, ks[i]);
  }

  lemma SweptAll(vms: seq<PooledVM>, ps: seq<Probe>, minIdle: int, kept: seq<PooledVM>)
    requires NoRepeats(vms) && Swept(vms, ps, minIdle, |vms|, kept)
    ensures kept == Select(vms, Kept(ps, minIdle)) && NoRepeats(kept) && |kept| <= |vms|
    ensures vms[..|vms|] == vms
    ensures forall vm :: vm in kept ==> vm in vms
  {
    assert ps[..|vms|] == ps;
    KeptIncreasing(ps, minIdle);
    SelectNoRepeats(vms, Kept(ps, minIdle));
  }
}
