/**
  Idempotent requests: the in-memory store, and every interleaving of requests that look
  up a cached response, acquire the processing mark, run their handler and finish.
  Handlers are assumed to return.
 */
module Idempotency {
  import opened Wrappers

  datatype Entry = Entry(statusCode: int, body: string, createdAt: int)

  const HOUR := 3_600_000_000_000
  const MAX_AGE := 24 * HOUR

  predicate IsSuccess(status: int) {
    200 <= status < 300
  }

  /** What is left of the cached responses after a cleanup. */
  function Fresh(entries: map<string, Entry>, now: int): map<string, Entry> {
    map k | k in entries && now - entries[k].createdAt <= MAX_AGE :: entries[k]
  }

  /** The store of cached responses and of keys being processed. */
  class MemoryStore {
    var entries: map<string, Entry>
    var processing: map<string, bool>

    /** The keys marked as being processed. */
    function Marked(): set<string>
      reads this
    {
      set k | k in processing && processing[k]
    }

    constructor ()
      ensures entries == map[] && Marked() == {}
    {
      entries, processing := map[], map[];
    }

    method Get(key: string) returns (e: Option<Entry>)
      ensures e == if key in entries then Some(entries[key]) else None
    {
      e := if key in entries then Some(entries[key]) else None;
    }

    method Set(key: string, e: Entry)
      modifies this
      ensures entries == old(entries)[key := e] && Marked() == old(Marked()) - {key}
    {
      entries := entries[key := e];
      processing := processing - {key};
    }

    method SetProcessing(key: string) returns (acquired: bool)
      modifies this
      ensures acquired <==> key !in old(Marked())
      ensures Marked() == old(Marked()) + {key} && entries == old(entries)
    {
      if key in processing && processing[key] {
        assert key in Marked();
        return false;
      }
      processing := processing[key := true];
      return true;
    }

    method ClearProcessing(key: string)
      modifies this
      ensures Marked() == old(Marked()) - {key} && entries == old(entries)
    {
      processing := processing - {key};
    }

    /** One round of the cleanup loop, visiting the entries in any order. */
    method Cleanup(now: int)
      modifies this
      ensures entries == Fresh(old(entries), now) && Marked() == old(Marked())
    {
      var rest := entries.Keys;
      while rest != {}
        invariant rest <= old(entries).Keys && entries.Keys <= old(entries).Keys
        invariant processing == old(processing)
        invariant forall k :: k in old(entries) ==>
          if k !in rest && now - old(entries)[k].createdAt > MAX_AGE then k !in entries
          else k in entries && entries[k] == old(entries)[k]
        decreases |rest|
      {
        var k :| k in rest;
        if now - entries[k].createdAt > MAX_AGE {
          entries := entries - {k};
        }
        rest := rest - {k};
      }
    }
  }

  // ---------- Interleaved requests ----------

  /** Where a request stands. */
  datatype Stage =
    | Arrived
    | Missed
    | Running
    | Replayed(entry: Entry)
    | Conflict
    | Finished(statusCode: int)

  datatype Request = Request(key: string, stage: Stage)

  /** The store and the requests made so far, numbered in order of arrival. */
  datatype System = System(entries: map<string, Entry>, processing: set<string>, requests: seq<Request>)

  datatype Event =
    | Arrive(key: string)
    | Lookup(r: nat)
    | Acquire(r: nat)
    | Finish(r: nat, response: Entry)
    | Evict(now: int)

  predicate At(s: System, r: nat, stage: Stage) {
    r < |s.requests| && s.requests[r].stage == stage
  }

  function Move(s: System, r: nat, stage: Stage): seq<Request>
    requires r < |s.requests|
  {
    s.requests[r := s.requests[r].(stage := stage)]
  }

  /** One step on the store. An event for which its request is not ready does nothing. */
  function Step(s: System, e: Event): System {
    match e
    case Arrive(key) => s.(requests := s.requests + [Request(key, Arrived)])
    case Lookup(r) =>
      if !At(s, r, Arrived) then s
      else
        var key := s.requests[r].key;
        s.(requests := Move(s, r, if key in s.entries then Replayed(s.entries[key]) else Missed))
    case Acquire(r) =>
      if !At(s, r, Missed) then s
      else
        var key := s.requests[r].key;
        if key in s.processing then s.(requests := Move(s, r, Conflict))
        else s.(requests := Move(s, r, Running), processing := s.processing + {key})
    case Finish(r, response) =>
      if !At(s, r, Running) then s
      else
        var key := s.requests[r].key;
        System(if IsSuccess(response.statusCode) then s.entries[key := response] else s.entries,
               s.processing - {key}, Move(s, r, Finished(response.statusCode)))
    case Evict(now) => s.(entries := Fresh(s.entries, now))
  }

  function Run(es: seq<Event>): System {
    if es == [] then System(map[], {}, []) else Step(Run(es[..|es| - 1]), es[|es| - 1])
  }

  lemma RunNext(es: seq<Event>, i: nat)
    requires i < |es|
    ensures Run(es[..i + 1]) == Step(Run(es[..i]), es[i])
  {
    assert es[..i + 1][..i] == es[..i];
  }

  /** The middleware on its store: each method is what one request does between two points at
      which other requests may take their steps. */
  class Middleware {
    const store: MemoryStore
    var requests: seq<Request>

    function View(): System
      reads this, store
    {
      System(store.entries, store.Marked(), requests)
    }

    constructor ()
      ensures fresh(store) && View() == Run([])
    {
      store := new MemoryStore();
      requests := [];
    }

    method Receive(key: string)
      modifies this
      ensures View() == Step(old(View()), Arrive(key))
    {
      requests := requests + [Request(key, Arrived)];
    }

    method CheckCache(r: nat)
      modifies this
      ensures View() == Step(old(View()), Lookup(r))
    {
      if r >= |requests| || requests[r].stage != Arrived {
        return;
      }
      var cached := store.Get(requests[r].key);
      var stage := if cached.Some? then Replayed(cached.value) else Missed;
      requests := requests[r := requests[r].(stage := stage)];
    }

    method AcquireMark(r: nat)
      modifies this, store
      ensures View() == Step(old(View()), Acquire(r))
    {
      if r >= |requests| || requests[r].stage != Missed {
        return;
      }
      var acquired := store.SetProcessing(requests[r].key);
      var stage := if acquired then Running else Conflict;
      requests := requests[r := requests[r].(stage := stage)];
    }

    /** What follows the handler: a success is cached, a failure only clears the mark. */
    method Complete(r: nat, response: Entry)
      modifies this, store
      ensures View() == Step(old(View()), Finish(r, response))
    {
      if r >= |requests| || requests[r].stage != Running {
        return;
      }
      if response.statusCode >= 200 && response.statusCode < 300 {
        store.Set(requests[r].key, response);
      } else {
        store.ClearProcessing(requests[r].key);
      }
      requests := requests[r := requests[r].(stage := Finished(response.statusCode))];
    }

    method EvictExpired(now: int)
      modifies store
      ensures View() == Step(old(View()), Evict(now))
    {
      store.Cleanup(now);
    }
  }

  // ---------- At most one handler per key at a time ----------

  ghost predicate RunningFor(s: System, r: nat, key: string) {
    At(s, r, Running) && s.requests[r].key == key
  }

  /** The processing mark of a key is set exactly while one request runs its handler. */
  ghost predicate Exclusive(s: System) {
    && (forall key :: key in s.processing ==> exists r :: RunningFor(s, r, key))
    && (forall r, key :: RunningFor(s, r, key) ==> key in s.processing)
    && (forall r, q, key :: RunningFor(s, r, key) && RunningFor(s, q, key) ==> r == q)
  }

  ghost predicate OnlySuccesses(s: System) {
    forall k :: k in s.entries ==> IsSuccess(s.entries[k].statusCode)
  }

  /** A step that moves one request, not into the running stage, leaves the runners alone. */
  lemma RunnersAfterMove(s: System, s': System, r: nat, stage: Stage)
    requires r < |s.requests| && s'.requests == Move(s, r, stage)
    ensures forall q, key :: q != r ==> (RunningFor(s', q, key) <==> RunningFor(s, q, key))
    ensures forall key :: RunningFor(s', r, key) <==> stage == Running && key == s.requests[r].key
  {
  }

  lemma ExclusiveStep(s: System, e: Event)
    requires Exclusive(s)
    ensures Exclusive(Step(s, e))
  {
    var s' := Step(s, e);
    match e
    case Arrive(key) =>
      assert forall r, k :: RunningFor(s', r, k) <==> RunningFor(s, r, k);
    case Lookup(r) =>
      if At(s, r, Arrived) {
        RunnersAfterMove(s, s', r, s'.requests[r].stage);
        assert forall q, k :: RunningFor(s', q, k) <==> RunningFor(s, q, k);
      }
    case Acquire(r) =>
      if At(s, r, Missed) {
        AcquireExclusive(s, r);
      }
    case Finish(r, response) =>
      if At(s, r, Running) {
        FinishExclusive(s, r, response);
      }
    case Evict(_) =>
      assert forall r, k :: RunningFor(s', r, k) <==> RunningFor(s, r, k);
  }

  lemma AcquireExclusive(s: System, r: nat)
    requires Exclusive(s) && At(s, r, Missed)
    ensures Exclusive(Step(s, Acquire(r)))
  {
    var s', key := Step(s, Acquire(r)), s.requests[r].key;
    RunnersAfterMove(s, s', r, s'.requests[r].stage);
    if key in s.processing {
      assert forall q, k :: RunningFor(s', q, k) <==> RunningFor(s, q, k);
    } else {
      forall k | k in s'.processing ensures exists q :: RunningFor(s', q, k) {
        if k == key {
          assert RunningFor(s', r, key);
        } else {
          var q :| RunningFor(s, q, k);
          assert RunningFor(s', q, k);
        }
      }
    }
  }

  lemma FinishExclusive(s: System, r: nat, response: Entry)
    requires Exclusive(s) && At(s, r, Running)
    ensures Exclusive(Step(s, Finish(r, response)))
  {
    var s', key := Step(s, Finish(r, response)), s.requests[r].key;
    RunnersAfterMove(s, s', r, s'.requests[r].stage);
    assert RunningFor(s, r, key);
    forall k | k in s'.processing ensures exists q :: RunningFor(s', q, k) {
      var q :| RunningFor(s, q, k);
      assert RunningFor(s', q, k);
    }
  }

  /** In every interleaving, a key is marked exactly while one of its handlers runs, so two
      never run at once; and only successful responses are cached. */
  lemma {:induction false} HandlersExclusive(es: seq<Event>)
    ensures Exclusive(Run(es)) && OnlySuccesses(Run(es))
  {
    if es != [] {
      HandlersExclusive(es[..|es| - 1]);
      ExclusiveStep(Run(es[..|es| - 1]), es[|es| - 1]);
    }
  }

  // ---------- Replay after success ----------

  /** Step `i` completes the handler of a request for `key` successfully. */
  ghost predicate SucceedsAt(es: seq<Event>, i: nat, key: string)
    requires i < |es|
  {
    es[i].Finish? && RunningFor(Run(es[..i]), es[i].r, key) && IsSuccess(es[i].response.statusCode)
  }

  /** Step `i` evicts the response cached for `key`. */
  ghost predicate EvictsAt(es: seq<Event>, i: nat, key: string)
    requires i < |es|
  {
    es[i].Evict? && key in Run(es[..i]).entries && key !in Run(es[..i + 1]).entries
  }

  /** A cleanup evicts a response exactly when it is more than 24 hours old, in nanoseconds. */
  lemma EvictsExactly(es: seq<Event>, i: nat, key: string)
    requires i < |es|
    ensures EvictsAt(es, i, key) <==>
      && es[i].Evict? && key in Run(es[..i]).entries
      && es[i].now - Run(es[..i]).entries[key].createdAt > 86_400_000_000_000
  {
    RunNext(es, i);
  }

  /** The successful responses are those with a status of the 200s. */
  lemma SuccessIsTwoHundreds(status: int)
    ensures IsSuccess(status) <==> status / 100 == 2
  {
  }

  /** What a step does to the response cached for `key`. */
  lemma StepEntry(s: System, e: Event, key: string)
    ensures e.Finish? && RunningFor(s, e.r, key) && IsSuccess(e.response.statusCode) ==>
      key in Step(s, e).entries && Step(s, e).entries[key] == e.response
    ensures key in Step(s, e).entries && !(e.Finish? && RunningFor(s, e.r, key) && IsSuccess(e.response.statusCode)) ==>
      key in s.entries && Step(s, e).entries[key] == s.entries[key]
  {
  }

  /** Step `i` is the latest success for `key` before step `n`, and its response is not evicted since. */
  ghost predicate LastSuccess(es: seq<Event>, i: nat, n: nat, key: string)
    requires n <= |es|
  {
    i < n && SucceedsAt(es, i, key) && forall j :: i < j < n ==> !SucceedsAt(es, j, key) && !EvictsAt(es, j, key)
  }

  lemma SucceedingStep(es: seq<Event>, i: nat, key: string)
    requires i < |es| && SucceedsAt(es, i, key)
    ensures key in Run(es[..i + 1]).entries && Run(es[..i + 1]).entries[key] == es[i].response
  {
    RunNext(es, i);
    StepEntry(Run(es[..i]), es[i], key);
  }

  lemma OtherStep(es: seq<Event>, i: nat, key: string)
    requires i < |es| && !SucceedsAt(es, i, key) && key in Run(es[..i + 1]).entries
    ensures !EvictsAt(es, i, key)
    ensures key in Run(es[..i]).entries && Run(es[..i + 1]).entries[key] == Run(es[..i]).entries[key]
  {
    RunNext(es, i);
    StepEntry(Run(es[..i]), es[i], key);
  }

  lemma {:induction false} CachedFrom(es: seq<Event>, n: nat, key: string) returns (i: nat)
    requires n <= |es| && key in Run(es[..n]).entries
    ensures LastSuccess(es, i, n, key) && Run(es[..n]).entries[key] == es[i].response
  {
    assert es[..0] == [];
    if SucceedsAt(es, n - 1, key) {
      SucceedingStep(es, n - 1, key);
      i := n - 1;
    } else {
      OtherStep(es, n - 1, key);
      i := CachedFrom(es, n - 1, key);
      assert LastSuccess(es, i, n, key);
    }
  }

  /** A response is cached for a key exactly when a handler of the key has succeeded and the response of
      the latest success has not been evicted since, and it is that response. */
  lemma CachedExactly(es: seq<Event>, n: nat, key: string)
    requires n <= |es|
    ensures key in Run(es[..n]).entries <==> exists i: nat :: LastSuccess(es, i, n, key)
    ensures forall i: nat :: LastSuccess(es, i, n, key) ==>
      key in Run(es[..n]).entries && Run(es[..n]).entries[key] == es[i].response
  {
    if key in Run(es[..n]).entries {
      var i := CachedFrom(es, n, key);
    }
    forall i: nat | LastSuccess(es, i, n, key)
      ensures key in Run(es[..n]).entries && Run(es[..n]).entries[key] == es[i].response
    {
      RunNext(es, i);
      EntryStays(es, i + 1, n, key);
      var last := CachedFrom(es, n, key);
      assert i == last;
    }
  }

  lemma {:induction false} EntryStays(es: seq<Event>, i: nat, j: nat, key: string)
    requires i <= j <= |es| && key in Run(es[..i]).entries
    requires forall k :: i <= k < j ==> !EvictsAt(es, k, key)
    ensures key in Run(es[..j]).entries
    decreases j
  {
    if i < j {
      EntryStays(es, i, j - 1, key);
      RunNext(es, j - 1);
      assert !EvictsAt(es, j - 1, key);
    }
  }

  lemma ReplayedFinal(s: System, e: Event, r: nat, entry: Entry)
    requires At(s, r, Replayed(entry))
    ensures At(Step(s, e), r, Replayed(entry))
  {
  }

  lemma {:induction false} ReplayedStays(es: seq<Event>, i: nat, j: nat, r: nat, entry: Entry)
    requires i <= j <= |es| && At(Run(es[..i]), r, Replayed(entry))
    ensures At(Run(es[..j]), r, Replayed(entry))
    decreases j - i
  {
    if i < j {
      RunNext(es, i);
      ReplayedFinal(Run(es[..i]), es[i], r, entry);
      ReplayedStays(es, i + 1, j, r, entry);
    }
  }

  /** A successful response is there until it is evicted. */
  lemma SuccessStays(es: seq<Event>, i: nat, j: nat, key: string)
    requires i < j <= |es| && SucceedsAt(es, i, key)
    requires forall k :: i < k < j ==> !EvictsAt(es, k, key)
    ensures key in Run(es[..j]).entries && IsSuccess(Run(es[..j]).entries[key].statusCode)
  {
    RunNext(es, i);
    EntryStays(es, i + 1, j, key);
    HandlersExclusive(es[..j]);
  }

  /** A request that looks up its key after a success, before the response is evicted, replays
      a stored success and never runs its handler. */
  lemma ReplayAfterSuccess(es: seq<Event>, i: nat, j: nat, r: nat, key: string)
    requires i < j < |es| && SucceedsAt(es, i, key)
    requires es[j] == Lookup(r) && At(Run(es[..j]), r, Arrived) && Run(es[..j]).requests[r].key == key
    requires forall k :: i < k < j ==> !EvictsAt(es, k, key)
    ensures key in Run(es[..j]).entries && IsSuccess(Run(es[..j]).entries[key].statusCode)
    ensures forall n :: j < n <= |es| ==> At(Run(es[..n]), r, Replayed(Run(es[..j]).entries[key]))
    ensures exists k: nat :: i <= k && LastSuccess(es, k, j, key) && Run(es[..j]).entries[key] == es[k].response
  {
    SuccessStays(es, i, j, key);
    var k := CachedFrom(es, j, key);
    assert i <= k;
    RunNext(es, j);
    assert At(Run(es[..j + 1]), r, Replayed(Run(es[..j]).entries[key]));
    forall n | j < n <= |es| ensures At(Run(es[..n]), r, Replayed(Run(es[..j]).entries[key])) {
      ReplayedStays(es, j + 1, n, r, Run(es[..j]).entries[key]);
    }
  }

  // ---------- Executions ----------

  /** The request's handler has been started. */
  predicate Executed(s: System, r: nat) {
    r < |s.requests| && (s.requests[r].stage == Running || s.requests[r].stage.Finished?)
  }

  /** Step `j` is the lookup of request `r`, and finds nothing cached. */
  ghost predicate MissesAt(es: seq<Event>, j: nat, r: nat)
    requires j < |es|
  {
    es[j] == Lookup(r) && At(Run(es[..j]), r, Arrived) && Run(es[..j]).requests[r].key !in Run(es[..j]).entries
  }

  /** A request gets past its lookup without a replay only by a lookup that misses. */
  lemma StepPastLookup(s: System, e: Event, r: nat)
    requires At(Step(s, e), r, Missed) || Executed(Step(s, e), r)
    ensures r < |s.requests| && s.requests[r].key == Step(s, e).requests[r].key
    ensures || At(s, r, Missed) || Executed(s, r)
            || (e == Lookup(r) && At(s, r, Arrived) && s.requests[r].key !in s.entries)
  {
  }

  lemma {:induction false} PastLookupMissed(es: seq<Event>, n: nat, r: nat) returns (j: nat)
    requires n <= |es| && (At(Run(es[..n]), r, Missed) || Executed(Run(es[..n]), r))
    ensures j < n && MissesAt(es, j, r)
    ensures Run(es[..j]).requests[r].key == Run(es[..n]).requests[r].key
  {
    assert n > 0;
    RunNext(es, n - 1);
    var before := Run(es[..n - 1]);
    StepPastLookup(before, es[n - 1], r);
    if At(before, r, Missed) || Executed(before, r) {
      j := PastLookupMissed(es, n - 1, r);
    } else {
      j := n - 1;
    }
  }

  ghost predicate EvictedBetween(es: seq<Event>, i: nat, j: nat, key: string)
    requires j <= |es|
  {
    exists k :: i < k < j && EvictsAt(es, k, key)
  }

  /** A success is followed by an eviction before the key is looked up in vain. */
  lemma SuccessThenMiss(es: seq<Event>, i: nat, j: nat, key: string)
    requires i < j <= |es| && SucceedsAt(es, i, key) && key !in Run(es[..j]).entries
    ensures EvictedBetween(es, i, j, key)
  {
    RunNext(es, i);
    if forall k :: i + 1 <= k < j ==> !EvictsAt(es, k, key) {
      EntryStays(es, i + 1, j, key);
    }
  }

  /** Every execution comes from a lookup made before any success for its key, or with every
      earlier success evicted in between. */
  lemma ExecutionsMissed(es: seq<Event>, r: nat) returns (j: nat)
    requires Executed(Run(es), r)
    ensures j < |es| && MissesAt(es, j, r)
    ensures forall i :: 0 <= i < j && SucceedsAt(es, i, Run(es).requests[r].key) ==>
              EvictedBetween(es, i, j, Run(es).requests[r].key)
  {
    assert es[..|es|] == es;
    var key := Run(es).requests[r].key;
    j := PastLookupMissed(es, |es|, r);
    forall i | 0 <= i < j && SucceedsAt(es, i, key) ensures EvictedBetween(es, i, j, key) {
      SuccessThenMiss(es, i, j, key);
    }
  }

  lemma RunAppend(es: seq<Event>, e: Event)
    ensures Run(es + [e]) == Step(Run(es), e)
  {
  }

  /** Strict at-most-once execution does not hold: a lookup that misses while another request
      for the key is running may acquire the mark after that request has succeeded. */
  lemma TwoExecutionsPossible(key: string, ok: Entry) returns (es: seq<Event>)
    requires IsSuccess(ok.statusCode)
    ensures forall i :: 0 <= i < |es| ==> !es[i].Evict?
    ensures Run(es).requests == [Request(key, Finished(ok.statusCode)), Request(key, Finished(ok.statusCode))]
  {
    var done := Finished(ok.statusCode);
    es := BothMiss(key);
    RunAppend(es, Acquire(0));
    es := es + [Acquire(0)];
    RunAppend(es, Finish(0, ok));
    es := es + [Finish(0, ok)];
    assert Run(es) == System(map[key := ok], {}, [Request(key, done), Request(key, Missed)]);
    RunAppend(es, Acquire(1));
    es := es + [Acquire(1)];
    RunAppend(es, Finish(1, ok));
    es := es + [Finish(1, ok)];
  }

  lemma BothMiss(key: string) returns (es: seq<Event>)
    ensures es == [Arrive(key), Arrive(key), Lookup(0), Lookup(1)]
    ensures Run(es) == System(map[], {}, [Request(key, Missed), Request(key, Missed)])
  {
    es := [Arrive(key)];
    RunAppend([], Arrive(key));
    RunAppend(es, Arrive(key));
    es := es + [Arrive(key)];
    assert Run(es) == System(map[], {}, [Request(key, Arrived), Request(key, Arrived)]);
    RunAppend(es, Lookup(0));
    es := es + [Lookup(0)];
    RunAppend(es, Lookup(1));
    es := es + [Lookup(1)];
  }

  // ---------- When no handler starts any more ----------

  /** After the event a request for `key` runs its handler that did not run it before. */
  ghost predicate StartsHandler(s: System, e: Event, key: string) {
    exists r: nat :: RunningFor(Step(s, e), r, key) && !RunningFor(s, r, key)
  }

  ghost predicate WaitsFor(s: System, r: nat, key: string) {
    At(s, r, Missed) && s.requests[r].key == key
  }

  /** A handler starts exactly when a request that missed acquires the mark of its key. */
  lemma StartsExactly(s: System, e: Event, key: string)
    ensures StartsHandler(s, e, key) <==> e.Acquire? && WaitsFor(s, e.r, key) && key !in s.processing
  {
    if e.Acquire? && WaitsFor(s, e.r, key) && key !in s.processing {
      assert RunningFor(Step(s, e), e.r, key);
    }
  }

  /** A request that missed and asks for the mark runs its handler when no handler of its key runs, and is
      refused as a conflict when one does. */
  lemma AcquireExactly(es: seq<Event>, r: nat, key: string)
    requires WaitsFor(Run(es), r, key)
    ensures At(Run(es + [Acquire(r)]), r, Running) <==> forall q :: !RunningFor(Run(es), q, key)
    ensures At(Run(es + [Acquire(r)]), r, Conflict) <==> exists q :: RunningFor(Run(es), q, key)
  {
    HandlersExclusive(es);
    RunAppend(es, Acquire(r));
  }

  /** When its handler returns a request is answered with the handler's status and its key is free again;
      a success is cached as it is, and a failure leaves the cache alone. */
  lemma FinishExactly(es: seq<Event>, r: nat, key: string, response: Entry)
    requires RunningFor(Run(es), r, key)
    ensures
      var s, s' := Run(es), Run(es + [Finish(r, response)]);
      && At(s', r, Finished(response.statusCode)) && s'.processing == s.processing - {key}
      && s'.entries == (if 200 <= response.statusCode <= 299 then s.entries[key := response] else s.entries)
      && forall q :: 0 <= q < |s.requests| && q != r ==> s'.requests[q] == s.requests[q]
  {
    RunAppend(es, Finish(r, response));
  }

  /** A response is cached for `key`, and no request for it is between its lookup and its acquire. */
  ghost predicate Sealed(s: System, key: string) {
    key in s.entries && forall r :: !WaitsFor(s, r, key)
  }

  ghost predicate NoEviction(es: seq<Event>) {
    forall i :: 0 <= i < |es| ==> !es[i].Evict?
  }

  /** No event of `more`, coming after `h`, evicts the response cached for `key`. */
  ghost predicate KeepsResponse(h: seq<Event>, more: seq<Event>, key: string) {
    forall i :: |h| <= i < |h + more| ==> !EvictsAt(h + more, i, key)
  }

  /** However the history goes on without evicting the key's response, none of its handlers starts. */
  ghost predicate NeverStartsAgain(h: seq<Event>, key: string) {
    forall more, e :: KeepsResponse(h, more, key) ==> !StartsHandler(Run(h + more), e, key)
  }

  lemma NoEvictionKeeps(h: seq<Event>, more: seq<Event>, key: string)
    requires NoEviction(more)
    ensures KeepsResponse(h, more, key)
  {
    assert forall i :: |h| <= i < |h + more| ==> (h + more)[i] == more[i - |h|];
  }

  lemma SealedStep(s: System, e: Event, key: string)
    requires Sealed(s, key) && key in Step(s, e).entries
    ensures Sealed(Step(s, e), key)
  {
    forall r ensures !WaitsFor(Step(s, e), r, key) {
      assert !WaitsFor(s, r, key);
    }
  }

  lemma {:induction false} SealedStays(es: seq<Event>, i: nat, j: nat, key: string)
    requires i <= j <= |es| && Sealed(Run(es[..i]), key)
    requires forall k :: i <= k < j ==> !EvictsAt(es, k, key)
    ensures Sealed(Run(es[..j]), key)
    decreases j
  {
    if i < j {
      SealedStays(es, i, j - 1, key);
      RunNext(es, j - 1);
      EntryStays(es, j - 1, j, key);
      SealedStep(Run(es[..j - 1]), es[j - 1], key);
    }
  }

  /** A request waiting to acquire can be made to start: at once, or after the running one fails. */
  lemma WaitingMayStart(h: seq<Event>, r: nat, key: string) returns (more: seq<Event>)
    requires WaitsFor(Run(h), r, key)
    ensures NoEviction(more) && StartsHandler(Run(h + more), Acquire(r), key)
  {
    HandlersExclusive(h);
    if key in Run(h).processing {
      var q: nat :| RunningFor(Run(h), q, key);
      var failure := Finish(q, Entry(500, "", 0));
      RunAppend(h, failure);
      more := [failure];
    } else {
      more := [];
      assert h + more == h;
    }
    StartsExactly(Run(h + more), Acquire(r), key);
  }

  /** While nothing is cached for the key, a new request can be brought to wait. */
  lemma NewcomerMisses(h: seq<Event>, key: string) returns (more: seq<Event>)
    requires key !in Run(h).entries
    ensures NoEviction(more) && WaitsFor(Run(h + more), |Run(h).requests|, key)
  {
    var n := |Run(h).requests|;
    more := [Arrive(key), Lookup(n)];
    RunAppend(h, Arrive(key));
    RunAppend(h + [Arrive(key)], Lookup(n));
    assert h + more == h + [Arrive(key)] + [Lookup(n)];
  }

  lemma SealedNeverStarts(h: seq<Event>, more: seq<Event>, e: Event, key: string)
    requires Sealed(Run(h), key) && KeepsResponse(h, more, key)
    ensures !StartsHandler(Run(h + more), e, key)
  {
    assert (h + more)[..|h|] == h && (h + more)[..|h + more|] == h + more;
    SealedStays(h + more, |h|, |h + more|, key);
    StartsExactly(Run(h + more), e, key);
  }

  lemma UnsealedMayStart(h: seq<Event>, key: string) returns (more: seq<Event>, e: Event)
    requires !Sealed(Run(h), key)
    ensures NoEviction(more) && StartsHandler(Run(h + more), e, key)
  {
    if r: nat :| WaitsFor(Run(h), r, key) {
      more := WaitingMayStart(h, r, key);
      e := Acquire(r);
    } else {
      var r := |Run(h).requests|;
      var miss := NewcomerMisses(h, key);
      var start := WaitingMayStart(h + miss, r, key);
      assert h + miss + start == h + (miss + start);
      more, e := miss + start, Acquire(r);
    }
  }

  /** After any history no further handler of a key starts before the key's response is evicted exactly
      when there is one and no request that missed is still waiting to acquire. */
  lemma NeverStartsAgainExactly(h: seq<Event>, key: string)
    ensures NeverStartsAgain(h, key) <==> Sealed(Run(h), key)
  {
    if Sealed(Run(h), key) {
      forall more, e | KeepsResponse(h, more, key) ensures !StartsHandler(Run(h + more), e, key) {
        SealedNeverStarts(h, more, e, key);
      }
    } else {
      var more, e := UnsealedMayStart(h, key);
      NoEvictionKeeps(h, more, key);
    }
  }
}
