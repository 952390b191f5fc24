/**
  Every interleaving of calls on one circuit breaker: what holds in all reachable states.
 */
module BreakerRuns {
  import opened CircuitBreaker
  import opened Wrappers

  /** A locked step: a call asks for admission, the `i`-th call in flight completes, the
      breaker is reset, or its state is read. */
  datatype Event =
    | Begin(now: int)
    | End(i: nat, now: int, failed: bool)
    | Reset(now: int)
    | Observe(now: int)

  /** The breaker, how many state changes it has made, and for each call in flight the
      number of state changes made when it was admitted. */
  datatype System = System(core: Core, epoch: nat, inflight: seq<nat>)

  const START := System(Core(Closed, 0, 0, 0, 0), 0, [])

  function Epoch(s: System, c: Core): nat {
    if c.state == s.core.state then s.epoch else s.epoch + 1
  }

  function Remove(s: seq<nat>, i: nat): seq<nat>
    requires i < |s|
  {
    s[..i] + s[i + 1..]
  }

  /** One step. Completing a call that is not in flight does nothing. */
  function Step(o: Options, s: System, e: Event): System {
    match e
    case Begin(now) =>
      var c := Before(o, s.core, now);
      var admitted := Admit(o, AutoTransition(o, s.core, now)) == Admitted;
      System(c, Epoch(s, c), if admitted then s.inflight + [Epoch(s, c)] else s.inflight)
    case End(i, now, failed) =>
      if i >= |s.inflight| then s
      else
        var c := After(o, s.core, now, failed);
        System(c, Epoch(s, c), Remove(s.inflight, i))
    case Reset(_) =>
      var c := Transition(s.core, Closed);
      System(c, Epoch(s, c), s.inflight)
    case Observe(now) =>
      var c := AutoTransition(o, s.core, now);
      System(c, Epoch(s, c), s.inflight)
  }

  function Run(o: Options, es: seq<Event>): System {
    if es == [] then START else Step(o, Run(o, es[..|es| - 1]), es[|es| - 1])
  }

  lemma RunAppend(o: Options, es: seq<Event>, e: Event)
    ensures Run(o, es + [e]) == Step(o, Run(o, es), e)
  {
  }

  ghost predicate Monotone(es: seq<Event>) {
    forall i, j :: 0 <= i < j < |es| ==> es[i].now <= es[j].now
  }

  /** The event completes a call that is in flight. */
  predicate Completes(s: System, e: Event) {
    e.End? && e.i < |s.inflight|
  }

  // ---------- Probes in flight ----------

  function CountTag(tags: seq<nat>, t: nat): nat {
    if tags == [] then 0 else (if tags[0] == t then 1 else 0) + CountTag(tags[1..], t)
  }

  lemma {:induction false} CountTagConcat(a: seq<nat>, b: seq<nat>, t: nat)
    ensures CountTag(a + b, t) == CountTag(a, t) + CountTag(b, t)
  {
    if a == [] {
      assert a + b == b;
    } else {
      assert (a + b)[1..] == a[1..] + b;
      CountTagConcat(a[1..], b, t);
    }
  }

  lemma CountTagRemove(s: seq<nat>, i: nat, t: nat)
    requires i < |s|
    ensures CountTag(Remove(s, i), t) == CountTag(s, t) - if s[i] == t then 1 else 0
  {
    assert s == s[..i] + ([s[i]] + s[i + 1..]);
    CountTagConcat(s[..i], [s[i]] + s[i + 1..], t);
    CountTagConcat(s[..i], s[i + 1..], t);
    assert ([s[i]] + s[i + 1..])[1..] == s[i + 1..];
  }

  lemma {:induction false} CountTagAbsent(s: seq<nat>, t: nat)
    requires forall i :: 0 <= i < |s| ==> s[i] != t
    ensures CountTag(s, t) == 0
  {
    if s != [] {
      CountTagAbsent(s[1..], t);
    }
  }

  /** Calls in flight that were admitted since the last state change. */
  function Probes(s: System): nat {
    CountTag(s.inflight, s.epoch)
  }

  /** Completions since the last state change of calls admitted before it. */
  function StaleEnds(o: Options, es: seq<Event>): nat {
    if es == [] then 0
    else
      var front, e := es[..|es| - 1], es[|es| - 1];
      var s := Run(o, front);
      if Step(o, s, e).epoch != s.epoch then 0
      else StaleEnds(o, front) + if Completes(s, e) && s.inflight[e.i] != s.epoch then 1 else 0
  }

  /** The counter limits what it counts, and what it fails to count is bounded by the successes. */
  ghost predicate ProbeInvariant(o: Options, s: System, stale: nat) {
    && (forall i :: 0 <= i < |s.inflight| ==> s.inflight[i] <= s.epoch)
    && (s.core.state != HalfOpen ==> s.core.halfOpenRequests == 0 && s.core.successes == 0)
    && (s.core.state == HalfOpen ==>
          && s.core.halfOpenRequests <= o.maxHalfOpen
          && Probes(s) == s.core.halfOpenRequests + stale
          && stale <= s.core.successes < o.successThreshold)
  }

  ghost function StaleAfter(o: Options, s: System, stale: nat, e: Event): nat {
    if Step(o, s, e).epoch != s.epoch then 0
    else stale + if Completes(s, e) && s.inflight[e.i] != s.epoch then 1 else 0
  }

  lemma ProbeStepBegin(o: Options, s: System, stale: nat, now: int)
    requires o.Positive() && ProbeInvariant(o, s, stale)
    ensures ProbeInvariant(o, Step(o, s, Begin(now)), StaleAfter(o, s, stale, Begin(now)))
  {
    var s' := Step(o, s, Begin(now));
    if s'.epoch != s.epoch {
      CountTagAbsent(s.inflight, s'.epoch);
    }
    CountTagConcat(s.inflight, [s'.epoch], s'.epoch);
  }

  lemma ProbeStepEnd(o: Options, s: System, stale: nat, e: Event)
    requires o.Positive() && ProbeInvariant(o, s, stale) && Completes(s, e)
    ensures ProbeInvariant(o, Step(o, s, e), StaleAfter(o, s, stale, e))
  {
    var s' := Step(o, s, e);
    CountTagRemove(s.inflight, e.i, s.epoch);
    assert forall i :: 0 <= i < |s'.inflight| ==> s'.inflight[i] in s.inflight;
    if s'.core.state == HalfOpen {
      assert s.core.state == HalfOpen && s'.epoch == s.epoch;
    }
  }

  lemma ProbeStep(o: Options, s: System, stale: nat, e: Event)
    requires o.Positive() && ProbeInvariant(o, s, stale)
    ensures ProbeInvariant(o, Step(o, s, e), StaleAfter(o, s, stale, e))
  {
    match e
    case Begin(now) =>
      ProbeStepBegin(o, s, stale, now);
    case End(_, _, _) =>
      if Completes(s, e) {
        ProbeStepEnd(o, s, stale, e);
      }
    case Reset(_) =>
    case Observe(_) =>
      CountTagAbsent(s.inflight, s.epoch + 1);
  }

  lemma {:induction false} ProbeInvariantHolds(o: Options, es: seq<Event>)
    requires o.Positive()
    ensures ProbeInvariant(o, Run(o, es), StaleEnds(o, es))
  {
    if es != [] {
      var front := es[..|es| - 1];
      ProbeInvariantHolds(o, front);
      ProbeStep(o, Run(o, front), StaleEnds(o, front), es[|es| - 1]);
    }
  }

  /** In every interleaving the probe counter is zero outside half-open, and in half-open the
      probes in flight exceed the configured maximum by at most `successThreshold - 1`, and
      not at all while no call admitted earlier has completed. */
  lemma ProbesBounded(o: Options, es: seq<Event>)
    requires o.Positive()
    ensures
      var s := Run(o, es);
      && (s.core.state != HalfOpen ==> s.core.halfOpenRequests == 0)
      && (s.core.state == HalfOpen ==>
            && Probes(s) <= o.maxHalfOpen + o.successThreshold - 1
            && (StaleEnds(o, es) == 0 ==> Probes(s) <= o.maxHalfOpen)
            && -(o.successThreshold - 1) <= s.core.halfOpenRequests <= o.maxHalfOpen)
  {
    ProbeInvariantHolds(o, es);
  }

  // ---------- The bound is attained ----------

  function Tags(n: nat, t: nat): seq<nat> {
    seq(n, _ => t)
  }

  /** Some run with a monotone clock ends in `s` at time `t` or earlier. */
  ghost predicate ReachedBy(o: Options, es: seq<Event>, s: System, t: int) {
    Run(o, es) == s && Monotone(es) && forall i :: 0 <= i < |es| ==> es[i].now <= t
  }

  lemma Extend(o: Options, es: seq<Event>, s: System, t: int, e: Event)
    requires ReachedBy(o, es, s, t) && e.now >= t
    ensures ReachedBy(o, es + [e], Step(o, s, e), e.now)
  {
  }

  lemma {:induction false} FillClosed(o: Options, n: nat) returns (es: seq<Event>)
    ensures ReachedBy(o, es, System(Core(Closed, 0, 0, 0, 0), 0, Tags(n, 0)), 0)
  {
    if n == 0 {
      es := [];
    } else {
      es := FillClosed(o, n - 1);
      Extend(o, es, System(Core(Closed, 0, 0, 0, 0), 0, Tags(n - 1, 0)), 0, Begin(0));
      assert Tags(n - 1, 0) + [0] == Tags(n, 0);
      es := es + [Begin(0)];
    }
  }

  lemma {:induction false} FailClosed(o: Options, n: nat, f: nat) returns (es: seq<Event>)
    requires o.Positive() && f <= n && f <= o.failureThreshold
    ensures
      ReachedBy(o, es, if f < o.failureThreshold then System(Core(Closed, f, 0, 0, 0), 0, Tags(n - f, 0))
                       else System(Core(Open, 0, 0, 0, 0), 1, Tags(n - f, 0)), 0)
  {
    if f == 0 {
      es := FillClosed(o, n);
    } else {
      es := FailClosed(o, n, f - 1);
      Extend(o, es, System(Core(Closed, f - 1, 0, 0, 0), 0, Tags(n - f + 1, 0)), 0, End(0, 0, true));
      assert Remove(Tags(n - f + 1, 0), 0) == Tags(n - f, 0);
      es := es + [End(0, 0, true)];
    }
  }

  lemma {:induction false} FillHalfOpen(o: Options, early: nat, m: nat) returns (es: seq<Event>)
    requires o.Positive() && 0 < m <= o.maxHalfOpen
    ensures ReachedBy(o, es, System(Core(HalfOpen, 0, 0, m, 0), 2, Tags(early, 0) + Tags(m, 2)), o.resetTimeout)
  {
    if m == 1 {
      es := FailClosed(o, o.failureThreshold + early, o.failureThreshold);
      Extend(o, es, System(Core(Open, 0, 0, 0, 0), 1, Tags(early, 0)), 0, Begin(o.resetTimeout));
      assert [2] == Tags(1, 2);
    } else {
      es := FillHalfOpen(o, early, m - 1);
      Extend(o, es, System(Core(HalfOpen, 0, 0, m - 1, 0), 2, Tags(early, 0) + Tags(m - 1, 2)), o.resetTimeout,
             Begin(o.resetTimeout));
      assert Tags(early, 0) + Tags(m - 1, 2) + [2] == Tags(early, 0) + Tags(m, 2);
    }
    es := es + [Begin(o.resetTimeout)];
  }

  lemma {:induction false} StaleSuccesses(o: Options, k: nat) returns (es: seq<Event>)
    requires o.Positive() && k < o.successThreshold
    ensures
      var left := Tags(o.successThreshold - 1 - k, 0) + Tags(o.maxHalfOpen, 2);
      ReachedBy(o, es, System(Core(HalfOpen, 0, k, o.maxHalfOpen - k, 0), 2, left), o.resetTimeout)
  {
    if k == 0 {
      es := FillHalfOpen(o, o.successThreshold - 1, o.maxHalfOpen);
    } else {
      es := StaleSuccesses(o, k - 1);
      var before := Tags(o.successThreshold - k, 0) + Tags(o.maxHalfOpen, 2);
      Extend(o, es, System(Core(HalfOpen, 0, k - 1, o.maxHalfOpen - k + 1, 0), 2, before), o.resetTimeout,
             End(0, o.resetTimeout, false));
      assert Remove(before, 0) == Tags(o.successThreshold - 1 - k, 0) + Tags(o.maxHalfOpen, 2);
      es := es + [End(0, o.resetTimeout, false)];
    }
  }

  lemma {:induction false} RefillHalfOpen(o: Options, k: nat) returns (es: seq<Event>)
    requires o.Positive() && k < o.successThreshold
    ensures
      var c := Core(HalfOpen, 0, o.successThreshold - 1, o.maxHalfOpen - (o.successThreshold - 1) + k, 0);
      ReachedBy(o, es, System(c, 2, Tags(o.maxHalfOpen + k, 2)), o.resetTimeout)
  {
    var st := o.successThreshold - 1;
    if k == 0 {
      es := StaleSuccesses(o, st);
      assert Tags(0, 0) + Tags(o.maxHalfOpen, 2) == Tags(o.maxHalfOpen, 2);
    } else {
      es := RefillHalfOpen(o, k - 1);
      Extend(o, es, System(Core(HalfOpen, 0, st, o.maxHalfOpen - st + k - 1, 0), 2, Tags(o.maxHalfOpen + k - 1, 2)),
             o.resetTimeout, Begin(o.resetTimeout));
      assert Tags(o.maxHalfOpen + k - 1, 2) + [2] == Tags(o.maxHalfOpen + k, 2);
      es := es + [Begin(o.resetTimeout)];
    }
  }

  lemma {:induction false} CountTags(n: nat, t: nat)
    ensures CountTag(Tags(n, t), t) == n
  {
    if n > 0 {
      assert Tags(n, t)[1..] == Tags(n - 1, t);
      CountTags(n - 1, t);
    }
  }

  /** For every setting some run has exactly `maxHalfOpen + successThreshold - 1` probes in flight. */
  lemma ProbeBoundAttained(o: Options) returns (es: seq<Event>)
    requires o.Positive()
    ensures Monotone(es) && Run(o, es).core.state == HalfOpen
    ensures Probes(Run(o, es)) == o.maxHalfOpen + o.successThreshold - 1
  {
    es := RefillHalfOpen(o, o.successThreshold - 1);
    CountTags(o.maxHalfOpen + o.successThreshold - 1, 2);
  }

  /** In every run no more than `maxHalfOpen` probes are in flight. */
  ghost predicate PlainLimitHolds(o: Options) {
    forall es :: Monotone(es) && Run(o, es).core.state == HalfOpen ==> Probes(Run(o, es)) <= o.maxHalfOpen
  }

  /** The documented limit on concurrent probes holds exactly for a success threshold of one. */
  lemma PlainLimitExactly(o: Options)
    requires o.Positive()
    ensures PlainLimitHolds(o) <==> o.successThreshold == 1
  {
    var es := ProbeBoundAttained(o);
    if o.successThreshold == 1 {
      forall es | Monotone(es) && Run(o, es).core.state == HalfOpen ensures Probes(Run(o, es)) <= o.maxHalfOpen {
        ProbesBounded(o, es);
      }
    }
  }

  // ---------- Time in the open state ----------

  /** When the last failed completion happened. */
  function LatestFailure(o: Options, es: seq<Event>): Option<int> {
    if es == [] then None
    else
      var front, e := es[..|es| - 1], es[|es| - 1];
      if Completes(Run(o, front), e) && e.failed then Some(e.now) else LatestFailure(o, front)
  }

  lemma {:induction false} FailureTimeRecorded(o: Options, es: seq<Event>)
    ensures LatestFailure(o, es).Some? ==> Run(o, es).core.lastFailureTime == LatestFailure(o, es).value
    ensures LatestFailure(o, es).None? ==> Run(o, es).core.state == Closed
  {
    if es != [] {
      FailureTimeRecorded(o, es[..|es| - 1]);
    }
  }

  /** The step of `e` finds that the reset timeout has passed since the latest failure. */
  ghost predicate TimeoutSeen(o: Options, es: seq<Event>, e: Event) {
    && (e.Begin? || e.Observe?)
    && LatestFailure(o, es).Some?
    && e.now - LatestFailure(o, es).value >= o.resetTimeout
  }

  predicate AdmitsAt(o: Options, es: seq<Event>, k: nat)
    requires k < |es|
  {
    es[k].Begin? && |Run(o, es[..k + 1]).inflight| > |Run(o, es[..k]).inflight|
  }

  /** An open breaker leaves the open state exactly on a reset or once the timeout has passed
      since the latest failure, late ones included; until then every call is refused. */
  lemma OpenLeftExactly(o: Options, es: seq<Event>, e: Event)
    requires Run(o, es).core.state == Open
    ensures Run(o, es + [e]).core.state != Open <==> e.Reset? || TimeoutSeen(o, es, e)
    ensures Run(o, es + [e]).core.state == Open ==> |Run(o, es + [e]).inflight| <= |Run(o, es).inflight|
  {
    RunAppend(o, es, e);
    FailureTimeRecorded(o, es);
  }

  /** What a caller is told after any run: that the circuit is open exactly while the timeout since the
      latest failure has not passed, that there are too many requests exactly when half-open with as
      many counted probes as allowed. */
  lemma RefusedExactly(o: Options, es: seq<Event>, now: int)
    requires o.Positive()
    ensures
      var s := Run(o, es);
      var a := Admit(o, AutoTransition(o, s.core, now));
      && (a == CircuitOpen <==>
            s.core.state == Open && LatestFailure(o, es).Some? && now - LatestFailure(o, es).value < o.resetTimeout)
      && (a == TooManyRequests <==> s.core.state == HalfOpen && Probes(s) - StaleEnds(o, es) >= o.maxHalfOpen)
  {
    FailureTimeRecorded(o, es);
    ProbeInvariantHolds(o, es);
  }

  ghost predicate OpenThrough(o: Options, es: seq<Event>, i: nat, k: nat)
    requires k <= |es|
  {
    forall l :: i <= l <= k ==> Run(o, es[..l]).core.state == Open
  }

  /** Once open and unless reset, a call is admitted only after some step at which the timeout
      had passed since the latest failure recorded by then; the breaker is open until that step. */
  lemma {:induction false} NoAdmissionBeforeTimeout(o: Options, es: seq<Event>, i: nat, j: nat) returns (k: nat)
    requires i <= j < |es|
    requires Run(o, es[..i]).core.state == Open && AdmitsAt(o, es, j)
    requires forall k :: i <= k <= j ==> !es[k].Reset?
    ensures i <= k <= j && TimeoutSeen(o, es[..k], es[k]) && OpenThrough(o, es, i, k)
    decreases j - i
  {
    assert es[..i + 1] == es[..i] + [es[i]];
    OpenLeftExactly(o, es[..i], es[i]);
    if TimeoutSeen(o, es[..i], es[i]) {
      k := i;
    } else {
      k := NoAdmissionBeforeTimeout(o, es, i + 1, j);
    }
  }

  /** With a monotone clock, while half-open the timeout has passed since the latest failure. */
  lemma {:induction false} HalfOpenIsLate(o: Options, es: seq<Event>)
    requires Monotone(es) && Run(o, es).core.state == HalfOpen
    ensures es != [] && LatestFailure(o, es).Some?
    ensures es[|es| - 1].now - LatestFailure(o, es).value >= o.resetTimeout
  {
    FailureTimeRecorded(o, es);
    var front, e := es[..|es| - 1], es[|es| - 1];
    FailureTimeRecorded(o, front);
    if Run(o, front).core.state == HalfOpen {
      HalfOpenIsLate(o, front);
    }
  }

  // ---------- Failures counted while closed ----------

  /** Failed completions since the last successful one or the last state change. */
  function TrailingFailures(o: Options, es: seq<Event>): nat {
    if es == [] then 0
    else
      var front, e := es[..|es| - 1], es[|es| - 1];
      var s := Run(o, front);
      if Step(o, s, e).epoch != s.epoch then 0
      else if Completes(s, e) then if e.failed then TrailingFailures(o, front) + 1 else 0
      else TrailingFailures(o, front)
  }

  /** While closed, the failure count is the trailing run of failures and below the threshold. */
  lemma {:induction false} ClosedCountsTrailing(o: Options, es: seq<Event>)
    requires o.Positive() && Run(o, es).core.state == Closed
    ensures Run(o, es).core.failures == TrailingFailures(o, es) < o.failureThreshold
  {
    if es != [] {
      if Run(o, es[..|es| - 1]).core.state == Closed {
        ClosedCountsTrailing(o, es[..|es| - 1]);
      }
    }
  }

  /** A closed breaker opens exactly when a failure completes a trailing run of threshold length. */
  lemma OpensExactly(o: Options, es: seq<Event>, e: Event)
    requires o.Positive() && Run(o, es).core.state == Closed
    ensures Run(o, es + [e]).core.state == Open <==>
            Completes(Run(o, es), e) && e.failed && TrailingFailures(o, es) + 1 == o.failureThreshold
    ensures Run(o, es + [e]).core.state != HalfOpen
  {
    RunAppend(o, es, e);
    ClosedCountsTrailing(o, es);
  }
}
