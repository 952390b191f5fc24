/**
  The circuit breaker that guards remote calls. The guarded function runs outside the
  lock, so a call is two locked steps, `BeforeRequest` and `AfterRequest`, between which
  other calls may take theirs. Times are integers on one clock.
 */
module CircuitBreaker {

  datatype State = Closed | Open | HalfOpen

  datatype Options = Options(failureThreshold: int, successThreshold: int, resetTimeout: int, maxHalfOpen: int) {
    /** All four settings are positive, as they are once the defaults are filled in. */
    ghost predicate Positive() {
      failureThreshold > 0 && successThreshold > 0 && resetTimeout > 0 && maxHalfOpen > 0
    }
  }

  const SECOND := 1_000_000_000

  /** A setting that is not positive is replaced by its default. */
  function Default(value: int, default: int): int {
    if value > 0 then value else default
  }

  function WithDefaults(o: Options): (r: Options)
    ensures r.Positive()
    ensures o.Positive() ==> r == o
    ensures r == Options(Default(o.failureThreshold, 5), Default(o.successThreshold, 2),
                         Default(o.resetTimeout, 30_000_000_000), Default(o.maxHalfOpen, 1))
  {
    Options(if o.failureThreshold <= 0 then 5 else o.failureThreshold,
            if o.successThreshold <= 0 then 2 else o.successThreshold,
            if o.resetTimeout <= 0 then 30 * SECOND else o.resetTimeout,
            if o.maxHalfOpen <= 0 then 1 else o.maxHalfOpen)
  }

  /** The fields the breaker's decisions depend on. */
  datatype Core = Core(state: State, failures: int, successes: int, halfOpenRequests: int, lastFailureTime: int)

  datatype Admission = Admitted | CircuitOpen | TooManyRequests

  // ---------- Specification of the locked steps ----------

  function Transition(c: Core, to: State): Core {
    if c.state == to then c else Core(to, 0, 0, 0, c.lastFailureTime)
  }

  function AutoTransition(o: Options, c: Core, now: int): Core {
    if c.state == Open && now - c.lastFailureTime >= o.resetTimeout then Transition(c, HalfOpen) else c
  }

  function Admit(o: Options, c: Core): Admission {
    match c.state
    case Closed => Admitted
    case Open => CircuitOpen
    case HalfOpen => if c.halfOpenRequests >= o.maxHalfOpen then TooManyRequests else Admitted
  }

  function Before(o: Options, c: Core, now: int): Core {
    var d := AutoTransition(o, c, now);
    if d.state == HalfOpen && Admit(o, d) == Admitted then d.(halfOpenRequests := d.halfOpenRequests + 1) else d
  }

  function After(o: Options, c: Core, now: int, failed: bool): Core {
    var d := if c.state == HalfOpen then c.(halfOpenRequests := c.halfOpenRequests - 1) else c;
    if failed then
      var e := d.(failures := d.failures + 1, successes := 0, lastFailureTime := now);
      if e.state == HalfOpen || (e.state == Closed && e.failures >= o.failureThreshold) then Transition(e, Open) else e
    else if d.state == Closed then d.(failures := 0, successes := 0)
    else if d.state == HalfOpen then
      var e := d.(successes := d.successes + 1);
      if e.successes >= o.successThreshold then Transition(e, Closed) else e
    else d
  }

  class Breaker {
    const opts: Options
    var state: State
    var failures: int
    var successes: int
    var halfOpenRequests: int
    var lastFailureTime: int

    function View(): Core
      reads this
    {
      Core(state, failures, successes, halfOpenRequests, lastFailureTime)
    }

    constructor (o: Options)
      ensures opts == WithDefaults(o)
      ensures View() == Core(Closed, 0, 0, 0, 0)
    {
      opts := WithDefaults(o);
      state, failures, successes, halfOpenRequests, lastFailureTime := Closed, 0, 0, 0, 0;
    }

    method SetState(to: State)
      modifies this
      ensures View() == Transition(old(View()), to)
    {
      if state == to {
        return;
      }
      state := to;
      failures := 0;
      successes := 0;
      halfOpenRequests := 0;
    }

    method CheckAutoTransition(now: int)
      modifies this
      ensures View() == AutoTransition(opts, old(View()), now)
    {
      if state == Open && now - lastFailureTime >= opts.resetTimeout {
        SetState(HalfOpen);
      }
    }

    method CurrentState(now: int) returns (s: State)
      modifies this
      ensures View() == AutoTransition(opts, old(View()), now)
      ensures s == View().state
    {
      CheckAutoTransition(now);
      s := state;
    }

    method BeforeRequest(now: int) returns (a: Admission)
      modifies this
      ensures View() == Before(opts, old(View()), now)
      ensures a == Admit(opts, AutoTransition(opts, old(View()), now))
      ensures a == CircuitOpen <==> old(state) == Open && now - old(lastFailureTime) < opts.resetTimeout
      ensures a == TooManyRequests <==>
        || (old(state) == HalfOpen && old(halfOpenRequests) >= opts.maxHalfOpen)
        || (old(state) == Open && now - old(lastFailureTime) >= opts.resetTimeout && opts.maxHalfOpen <= 0)
    {
      CheckAutoTransition(now);
      match state
      case Closed => a := Admitted;
      case Open => a := CircuitOpen;
      case HalfOpen =>
        if halfOpenRequests >= opts.maxHalfOpen {
          return TooManyRequests;
        }
        halfOpenRequests := halfOpenRequests + 1;
        a := Admitted;
    }

    method AfterRequest(now: int, failed: bool)
      modifies this
      ensures View() == After(opts, old(View()), now, failed)
    {
      if state == HalfOpen {
        halfOpenRequests := halfOpenRequests - 1;
      }
      if failed {
        OnFailure(now);
      } else {
        OnSuccess();
      }
    }

    method OnFailure(now: int)
      modifies this
      ensures
        var e := old(View()).(failures := old(failures) + 1, successes := 0, lastFailureTime := now);
        View() ==
          if e.state == HalfOpen || (e.state == Closed && e.failures >= opts.failureThreshold)
          then Transition(e, Open) else e
    {
      failures := failures + 1;
      successes := 0;
      lastFailureTime := now;
      match state
      case Closed =>
        if failures >= opts.failureThreshold {
          SetState(Open);
        }
      case HalfOpen =>
        SetState(Open);
      case Open =>
    }

    method OnSuccess()
      modifies this
      ensures
        var c, e := old(View()), old(View()).(successes := old(successes) + 1);
        View() ==
          if c.state == Closed then c.(failures := 0, successes := 0)
          else if c.state == HalfOpen then if e.successes >= opts.successThreshold then Transition(e, Closed) else e
          else c
    {
      match state
      case Closed =>
        failures := 0;
        successes := 0;
      case HalfOpen =>
        successes := successes + 1;
        if successes >= opts.successThreshold {
          SetState(Closed);
        }
      case Open =>
    }

    method Reset()
      modifies this
      ensures View() == Transition(old(View()), Closed)
    {
      SetState(Closed);
    }
  }
}
