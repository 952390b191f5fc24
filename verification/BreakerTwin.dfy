/**
  The compute node's own circuit breaker, and when it behaves like the package's breaker
  on calls that do not overlap.
 */
module BreakerTwin {
  import opened CircuitBreaker

  /** The compute breaker's fields. */
  datatype Node = Node(state: State, failures: int, successes: int, lastFailTime: int)

  /** One call: when it asks for admission, when its function returns, and how. */
  datatype Call = Call(start: int, finish: int, failed: bool)

  /** What a caller sees of a call: whether the function ran, and the state left behind. */
  datatype Seen = Seen(admitted: bool, state: State)

  // ---------- The compute breaker ----------

  function NodeBefore(timeout: int, n: Node, now: int): Node {
    if n.state == Open && now - n.lastFailTime >= timeout then n.(state := HalfOpen, successes := 0) else n
  }

  function NodeAfter(threshold: int, n: Node, now: int, failed: bool): Node {
    if failed then
      var m := n.(failures := n.failures + 1, lastFailTime := now);
      if m.failures >= threshold then m.(state := Open) else m
    else if n.state == HalfOpen then
      var m := n.(successes := n.successes + 1);
      if m.successes >= 2 then m.(state := Closed, failures := 0, successes := 0) else m
    else n.(failures := 0)
  }

  function NodeCall(threshold: int, timeout: int, n: Node, c: Call): Node {
    var m := NodeBefore(timeout, n, c.start);
    if m.state == Open then m else NodeAfter(threshold, m, c.finish, c.failed)
  }

  function NodeSeen(threshold: int, timeout: int, n: Node, c: Call): Seen {
    Seen(NodeBefore(timeout, n, c.start).state != Open, NodeCall(threshold, timeout, n, c).state)
  }

  class NodeBreaker {
    const threshold: int
    const timeout: int
    var state: State
    var failures: int
    var successes: int
    var lastFailTime: int

    function View(): Node
      reads this
    {
      Node(state, failures, successes, lastFailTime)
    }

    constructor (threshold: int, timeout: int)
      ensures this.threshold == threshold && this.timeout == timeout
      ensures View() == Node(Closed, 0, 0, 0)
    {
      this.threshold, this.timeout := threshold, timeout;
      state, failures, successes, lastFailTime := Closed, 0, 0, 0;
    }

    /** A whole call that no other call overlaps; `c.failed` is the outcome of its function. */
    method Execute(c: Call) returns (admitted: bool)
      modifies this
      ensures View() == NodeCall(threshold, timeout, old(View()), c)
      ensures admitted == NodeSeen(threshold, timeout, old(View()), c).admitted
    {
      if state == Open && c.start - lastFailTime >= timeout {
        state := HalfOpen;
        successes := 0;
      }
      if state == Open {
        return false;
      }
      admitted := true;
      if c.failed {
        failures := failures + 1;
        lastFailTime := c.finish;
        if failures >= threshold {
          state := Open;
        }
        return;
      }
      if state == HalfOpen {
        successes := successes + 1;
        if successes >= 2 {
          state := Closed;
          failures := 0;
          successes := 0;
        }
      } else {
        failures := 0;
      }
    }
  }

  // ---------- The package breaker on whole calls ----------

  function PackageCall(o: Options, b: Core, c: Call): Core {
    var d := Before(o, b, c.start);
    if Admit(o, AutoTransition(o, b, c.start)) == Admitted then After(o, d, c.finish, c.failed) else d
  }

  function PackageSeen(o: Options, b: Core, c: Call): Seen {
    Seen(Admit(o, AutoTransition(o, b, c.start)) == Admitted, PackageCall(o, b, c).state)
  }

  /** The breakers after a sequence of calls, each new to begin with. */
  function NodeRun(threshold: int, timeout: int, calls: seq<Call>): Node {
    if calls == [] then Node(Closed, 0, 0, 0)
    else NodeCall(threshold, timeout, NodeRun(threshold, timeout, calls[..|calls| - 1]), calls[|calls| - 1])
  }

  function PackageRun(o: Options, calls: seq<Call>): Core {
    if calls == [] then Core(Closed, 0, 0, 0, 0)
    else PackageCall(o, PackageRun(o, calls[..|calls| - 1]), calls[|calls| - 1])
  }

  /** Given the same threshold and timeout, the two breakers show callers the same: after any
      calls the next one is admitted by both or by neither and leaves both in the same state.
      The package breaker fills in its defaults first. */
  ghost predicate Equivalent(o: Options) {
    forall calls, c {:trigger SameSeen(o, calls, c)} :: SameSeen(o, calls, c)
  }

  ghost predicate SameSeen(o: Options, calls: seq<Call>, c: Call) {
    NodeSeen(o.failureThreshold, o.resetTimeout, NodeRun(o.failureThreshold, o.resetTimeout, calls), c)
      == PackageSeen(WithDefaults(o), PackageRun(WithDefaults(o), calls), c)
  }

  // ---------- Equivalence ----------

  /** The compute breaker keeps counting failures, so that while open or half-open its count
      stays at or above the threshold. */
  ghost predicate Related(o: Options, b: Core, n: Node) {
    && b.state == n.state
    && b.halfOpenRequests == 0
    && (b.state == Closed ==> b.failures == n.failures)
    && (b.state != Closed ==> n.failures >= o.failureThreshold && b.lastFailureTime == n.lastFailTime)
    && (b.state == HalfOpen ==> b.successes == n.successes < 2)
  }

  lemma RelatedStep(o: Options, b: Core, n: Node, c: Call)
    requires o.Positive() && o.successThreshold == 2 && Related(o, b, n)
    ensures PackageSeen(o, b, c) == NodeSeen(o.failureThreshold, o.resetTimeout, n, c)
    ensures Related(o, PackageCall(o, b, c), NodeCall(o.failureThreshold, o.resetTimeout, n, c))
  {
  }

  lemma {:induction false} RelatedRuns(o: Options, calls: seq<Call>)
    requires o.Positive() && o.successThreshold == 2
    ensures Related(o, PackageRun(o, calls), NodeRun(o.failureThreshold, o.resetTimeout, calls))
  {
    if calls != [] {
      var front := calls[..|calls| - 1];
      RelatedRuns(o, front);
      RelatedStep(o, PackageRun(o, front), NodeRun(o.failureThreshold, o.resetTimeout, front), calls[|calls| - 1]);
    }
  }

  // ---------- Settings under which they differ ----------

  function Failures(k: nat): seq<Call> {
    seq(k, _ => Call(0, 0, true))
  }

  lemma {:induction false} FailingRuns(o: Options, k: nat)
    requires o.failureThreshold > 0 && k <= o.failureThreshold
    ensures NodeRun(o.failureThreshold, o.resetTimeout, Failures(k))
         == Node(if k < o.failureThreshold then Closed else Open, k, 0, 0)
    ensures PackageRun(WithDefaults(o), Failures(k))
         == if k < o.failureThreshold then Core(Closed, k, 0, 0, 0) else Core(Open, 0, 0, 0, 0)
  {
    if k > 0 {
      assert Failures(k)[..k - 1] == Failures(k - 1);
      FailingRuns(o, k - 1);
    }
  }

  /** Without a positive threshold the compute breaker opens at the first failure. */
  lemma ThresholdMatters(o: Options)
    requires o.failureThreshold <= 0
    ensures !Equivalent(o)
  {
    assert !SameSeen(o, [], Call(0, 0, true));
  }

  /** Without a positive timeout the compute breaker probes at once. */
  lemma TimeoutMatters(o: Options)
    requires o.failureThreshold > 0 && o.resetTimeout <= 0
    ensures !Equivalent(o)
  {
    FailingRuns(o, o.failureThreshold);
    assert !SameSeen(o, Failures(o.failureThreshold), Call(0, 0, true));
  }

  /** The compute breaker closes on the second success of a recovery, whatever the setting. */
  lemma SuccessThresholdMatters(o: Options)
    requires o.failureThreshold > 0 && o.resetTimeout > 0 && WithDefaults(o).successThreshold != 2
    ensures !Equivalent(o)
  {
    var tripping, good := Failures(o.failureThreshold), Call(o.resetTimeout, o.resetTimeout, false);
    FailingRuns(o, o.failureThreshold);
    if WithDefaults(o).successThreshold == 1 {
      assert !SameSeen(o, tripping, good);
    } else {
      assert (tripping + [good])[..|tripping|] == tripping;
      assert !SameSeen(o, tripping + [good], good);
    }
  }

  /** The two breakers agree on all sequences of calls exactly when the threshold and the
      timeout are positive and the package closes after two successes. */
  lemma EquivalentExactly(o: Options)
    ensures Equivalent(o) <==>
            o.failureThreshold > 0 && o.resetTimeout > 0 && (o.successThreshold <= 0 || o.successThreshold == 2)
  {
    if o.failureThreshold <= 0 {
      ThresholdMatters(o);
    } else if o.resetTimeout <= 0 {
      TimeoutMatters(o);
    } else if WithDefaults(o).successThreshold != 2 {
      SuccessThresholdMatters(o);
    } else {
      forall calls, c ensures SameSeen(o, calls, c) {
        var d := WithDefaults(o);
        RelatedRuns(d, calls);
        RelatedStep(d, PackageRun(d, calls), NodeRun(o.failureThreshold, o.resetTimeout, calls), c);
      }
    }
  }
}
