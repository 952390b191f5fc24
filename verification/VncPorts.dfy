/**
  Allocation of VNC ports to virtual machines. Whether the operating system has a port free
  is an oracle that may differ from call to call.
 */
module VncPorts {
  import opened Wrappers

  const BASE_PORT := 5900
  const MAX_PORT := 5999

  type Used = map<int, string>

  /** Ports are in range, and no VM holds two. */
  ghost predicate Consistent(used: Used) {
    && (forall p :: p in used ==> BASE_PORT <= p <= MAX_PORT)
    && (forall p, q :: p in used && q in used && used[p] == used[q] ==> p == q)
  }

  ghost predicate Holds(used: Used, vm: string, port: int) {
    port in used && used[port] == vm
  }

  /** The VM holds a port. */
  ghost predicate HasPort(used: Used, vm: string) {
    exists p :: Holds(used, vm, p)
  }

  ghost predicate Available(used: Used, free: int -> bool, port: int) {
    BASE_PORT <= port <= MAX_PORT && port !in used && free(port)
  }

  /** What `Allocate` may answer; there is only one such answer and one table it leaves. */
  ghost predicate IsAllocation(used: Used, vm: string, free: int -> bool, used': Used, r: Option<int>) {
    if HasPort(used, vm) then r.Some? && Holds(used, vm, r.value) && used' == used
    else if r.Some? then
      && Available(used, free, r.value) && used' == used[r.value := vm]
      && forall p :: Available(used, free, p) ==> r.value <= p
    else used' == used && forall p :: !Available(used, free, p)
  }

  /** What `Release` leaves: the table without the VM's port. */
  ghost predicate IsRelease(used: Used, vm: string, used': Used) {
    && (forall p :: p in used' <==> p in used && used[p] != vm)
    && (forall p :: p in used' ==> used'[p] == used[p])
  }

  lemma EmptyWithoutElements(s: set<int>)
    ensures (forall p :: p !in s) ==> s == {}
  {
    if forall p :: p !in s {
      assert s == {};
    }
  }

  class VncPortAllocator {
    var used: Used

    constructor ()
      ensures used == map[]
    {
      used := map[];
    }

    /** The port of a VM, found by visiting the table in any order. */
    method Find(vm: string) returns (r: Option<int>)
      ensures r.None? <==> !HasPort(used, vm)
      ensures r.Some? ==> Holds(used, vm, r.value)
    {
      var rest := used.Keys;
      while rest != {}
        invariant rest <= used.Keys
        invariant forall p :: p in used && p !in rest ==> used[p] != vm
        decreases |rest|
      {
        EmptyWithoutElements(rest);
        var port :| port in rest;
        if used[port] == vm {
          assert Holds(used, vm, port);
          return Some(port);
        }
        rest := rest - {port};
      }
      return None;
    }

    method Allocate(vm: string, free: int -> bool) returns (r: Option<int>)
      modifies this
      ensures IsAllocation(old(used), vm, free, used, r)
      ensures r.None? ==> forall p :: 5900 <= p <= 5999 ==> p in old(used) || !free(p)
    {
      r := Find(vm);
      if r.Some? {
        return;
      }
      for port := BASE_PORT to MAX_PORT + 1
        invariant used == old(used)
        invariant forall p :: BASE_PORT <= p < port ==> !Available(used, free, p)
      {
        if port in used {
          continue;
        }
        if !free(port) {
          continue;
        }
        used := used[port := vm];
        return Some(port);
      }
      forall p | 5900 <= p <= 5999 ensures p in used || !free(p) {
        assert !Available(used, free, p);
      }
      return None;
    }

    method Release(vm: string)
      requires Consistent(used)
      modifies this
      ensures IsRelease(old(used), vm, used)
    {
      var r := Find(vm);
      if r.Some? {
        used := used - {r.value};
      } else {
        assert forall p :: p in used ==> !Holds(used, vm, p);
      }
    }

    /** The port of the VM, or 0. */
    method PortFor(vm: string) returns (port: int)
      requires Consistent(used)
      ensures HasPort(used, vm) ==> Holds(used, vm, port)
      ensures !HasPort(used, vm) <==> port == 0
    {
      var r := Find(vm);
      port := if r.Some? then r.value else 0;
    }
  }

  // ---------- Runs ----------

  /** An operation with the answers of the operating system at that time. */
  datatype Operation = Allocate(vm: string, free: int -> bool) | Release(vm: string)

  ghost predicate IsStep(used: Used, op: Operation, used': Used) {
    match op
    case Allocate(vm, free) => exists r :: IsAllocation(used, vm, free, used', r)
    case Release(vm) => IsRelease(used, vm, used')
  }

  /** A run from the empty table through `tables`, one operation at a time. */
  ghost predicate IsRun(ops: seq<Operation>, tables: seq<Used>) {
    && |tables| == |ops| + 1 && tables[0] == map[]
    && forall i, j :: 0 <= i < |ops| && j == i + 1 ==> IsStep(tables[i], ops[i], tables[j])
  }

  lemma StepConsistent(used: Used, op: Operation, used': Used)
    requires Consistent(used) && IsStep(used, op, used')
    ensures Consistent(used')
  {
    if op.Allocate? && !HasPort(used, op.vm) {
      var r :| IsAllocation(used, op.vm, op.free, used', r);
      assert forall p :: p in used ==> !Holds(used, op.vm, p);
    }
  }

  /** In every run ports stay in range, no port has two VMs and no VM two ports. */
  lemma {:induction false} RunConsistent(ops: seq<Operation>, tables: seq<Used>, i: nat)
    requires IsRun(ops, tables) && i <= |ops|
    ensures Consistent(tables[i]) && forall p :: p in tables[i] ==> 5900 <= p <= 5999
  {
    if i > 0 {
      RunConsistent(ops, tables, i - 1);
      StepConsistent(tables[i - 1], ops[i - 1], tables[i]);
    }
  }

  /** A VM keeps its port through every run of operations that do not release it. */
  lemma {:induction false} PortKept(ops: seq<Operation>, tables: seq<Used>, i: nat, j: nat, vm: string, port: int)
    requires IsRun(ops, tables) && i <= j <= |ops| && Holds(tables[i], vm, port)
    requires forall k :: i <= k < j ==> ops[k] != Release(vm)
    ensures Holds(tables[j], vm, port)
    decreases j
  {
    if i < j {
      PortKept(ops, tables, i, j - 1, vm, port);
      assert IsStep(tables[j - 1], ops[j - 1], tables[j]);
    }
  }

  /** Answers and tables are determined, whatever order the table is visited in. */
  lemma AllocationUnique(used: Used, vm: string, free: int -> bool, a: Used, r: Option<int>, b: Used, q: Option<int>)
    requires Consistent(used)
    requires IsAllocation(used, vm, free, a, r) && IsAllocation(used, vm, free, b, q)
    ensures a == b && r == q
  {
  }

  /** Releasing a VM that held nothing before undoes its allocation. */
  lemma ReleaseUndoesAllocate(used: Used, vm: string, free: int -> bool, a: Used, r: Option<int>, b: Used)
    requires !HasPort(used, vm) && IsAllocation(used, vm, free, a, r) && IsRelease(a, vm, b)
    ensures b == used
  {
    forall p ensures p in b <==> p in used {
      assert !Holds(used, vm, p);
      if p in a && a[p] == vm {
        assert r.Some? && p == r.value;
      }
    }
    forall p | p in b ensures b[p] == used[p] {
      assert a[p] != vm;
    }
    assert b.Keys == used.Keys;
  }
}
