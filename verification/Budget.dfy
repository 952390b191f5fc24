/**
  Budget thresholds: which alerts a series of spend reports emits. Amounts are reals;
  database writes are assumed to succeed.
 */
module Budget {
  import opened Wrappers

  datatype Threshold = Threshold(percent: real, channel: string, triggered: bool)

  datatype Alert = Alert(percent: real, spend: real, limit: real, channel: string)

  datatype Budget = Budget(limit: real, currentSpend: real, thresholds: seq<Threshold>, alerts: seq<Alert>)

  /** A spend percentage. With a zero limit the floating-point quotient is above every
      threshold for positive spend, and at or above none otherwise. */
  datatype Percentage = Finite(value: real) | Above | Incomparable

  function PercentOf(spend: real, limit: real): Percentage {
    if limit != 0.0 then Finite((spend / limit) * 100.0)
    else if spend > 0.0 then Above
    else Incomparable
  }

  predicate AtLeast(pct: Percentage, percent: real) {
    match pct
    case Finite(v) => v >= percent
    case Above => true
    case Incomparable => false
  }

  predicate Fires(t: Threshold, pct: Percentage) {
    AtLeast(pct, t.percent) && !t.triggered
  }

  /** The report reaches the threshold at `percent`. */
  predicate Reaches(spend: real, limit: real, percent: real) {
    AtLeast(PercentOf(spend, limit), percent)
  }

  // ---------- One report ----------

  function Emitted(ts: seq<Threshold>, pct: Percentage, spend: real, limit: real): seq<Alert> {
    if ts == [] then []
    else
      var front, t := Emitted(ts[..|ts| - 1], pct, spend, limit), ts[|ts| - 1];
      if Fires(t, pct) then front + [Alert(t.percent, spend, limit, t.channel)] else front
  }

  function Marked(ts: seq<Threshold>, pct: Percentage): (r: seq<Threshold>)
    ensures |r| == |ts|
    ensures forall i :: 0 <= i < |ts| ==> r[i] == ts[i].(triggered := ts[i].triggered || AtLeast(pct, ts[i].percent))
  {
    seq(|ts|, i requires 0 <= i < |ts| => ts[i].(triggered := ts[i].triggered || AtLeast(pct, ts[i].percent)))
  }

  function Report(b: Budget, spend: real): Budget {
    var pct := PercentOf(spend, b.limit);
    Budget(b.limit, spend, Marked(b.thresholds, pct), b.alerts + Emitted(b.thresholds, pct, spend, b.limit))
  }

  /** The stored thresholds once the first `i` have been evaluated. */
  ghost function Rows(ts: seq<Threshold>, i: nat, pct: Percentage): seq<Threshold>
    requires i <= |ts|
  {
    Marked(ts[..i], pct) + ts[i..]
  }

  lemma RowsEnds(ts: seq<Threshold>, pct: Percentage)
    ensures Rows(ts, 0, pct) == ts && Rows(ts, |ts|, pct) == Marked(ts, pct)
  {
  }

  lemma RowsNext(ts: seq<Threshold>, i: nat, pct: Percentage, spend: real, limit: real)
    requires i < |ts|
    ensures Rows(ts, i + 1, pct)
         == if Fires(ts[i], pct) then Rows(ts, i, pct)[i := ts[i].(triggered := true)] else Rows(ts, i, pct)
    ensures Emitted(ts[..i + 1], pct, spend, limit)
         == if Fires(ts[i], pct)
            then Emitted(ts[..i], pct, spend, limit) + [Alert(ts[i].percent, spend, limit, ts[i].channel)]
            else Emitted(ts[..i], pct, spend, limit)
  {
    assert ts[..i + 1][..i] == ts[..i];
  }

  /** The loop over the thresholds as they were read: each one that fires emits an alert and is
      marked in the stored rows. */
  method EvaluateThresholds(ths: seq<Threshold>, pct: Percentage, spend: real, limit: real)
    returns (rows: seq<Threshold>, alerts: seq<Alert>)
    ensures alerts == Emitted(ths, pct, spend, limit)
    ensures rows == Marked(ths, pct)
  {
    rows, alerts := ths, [];
    RowsEnds(ths, pct);
    for i := 0 to |ths|
      invariant alerts == Emitted(ths[..i], pct, spend, limit)
      invariant rows == Rows(ths, i, pct)
    {
      var th := ths[i];
      RowsNext(ths, i, pct, spend, limit);
      if AtLeast(pct, th.percent) && !th.triggered {
        alerts := alerts + [Alert(th.percent, spend, limit, th.channel)];
        rows := rows[i := th.(triggered := true)];
      }
    }
    assert ths[..|ths|] == ths;
  }

  class BudgetService {
    var budgets: map<nat, Budget>

    constructor ()
      ensures budgets == map[]
    {
      budgets := map[];
    }

    /** Records the current spend and evaluates the thresholds as they were read. */
    method UpdateSpend(id: nat, spend: real) returns (r: Option<seq<Alert>>)
      modifies this
      ensures id !in old(budgets) ==> r == None && budgets == old(budgets)
      ensures id in old(budgets) ==>
        var b := old(budgets)[id];
        && r == Some(Emitted(b.thresholds, PercentOf(spend, b.limit), spend, b.limit))
        && budgets == old(budgets)[id := Report(b, spend)]
    {
      if id !in budgets {
        return None;
      }
      var b := budgets[id];
      var rows, alerts := EvaluateThresholds(b.thresholds, PercentOf(spend, b.limit), spend, b.limit);
      budgets := budgets[id := Budget(b.limit, spend, rows, b.alerts + alerts)];
      return Some(alerts);
    }
  }

  // ---------- Series of reports ----------

  function Run(b: Budget, spends: seq<real>): Budget {
    if spends == [] then b else Report(Run(b, spends[..|spends| - 1]), spends[|spends| - 1])
  }

  /** A new budget: nothing spent, no threshold triggered, no alert. */
  ghost predicate IsNew(b: Budget) {
    b.currentSpend == 0.0 && b.alerts == [] && forall i :: 0 <= i < |b.thresholds| ==> !b.thresholds[i].triggered
  }

  /** Some report reached `percent`. */
  ghost predicate EverReached(spends: seq<real>, limit: real, percent: real) {
    exists k :: 0 <= k < |spends| && Reaches(spends[k], limit, percent)
  }

  /** The greatest spend percentage reported. */
  function MaxPercent(spends: seq<real>, limit: real): real
    requires spends != [] && limit != 0.0
  {
    var last := (spends[|spends| - 1] / limit) * 100.0;
    if |spends| == 1 then last
    else
      var before := MaxPercent(spends[..|spends| - 1], limit);
      if before >= last then before else last
  }

  lemma {:induction false} EverReachedIsMax(spends: seq<real>, limit: real, percent: real)
    requires spends != [] && limit != 0.0
    ensures EverReached(spends, limit, percent) <==> MaxPercent(spends, limit) >= percent
  {
    EverReachedLast(spends, limit, percent);
    if |spends| > 1 {
      EverReachedIsMax(spends[..|spends| - 1], limit, percent);
    }
  }

  lemma EverReachedLast(spends: seq<real>, limit: real, percent: real)
    requires spends != []
    ensures EverReached(spends, limit, percent) <==>
            EverReached(spends[..|spends| - 1], limit, percent) || Reaches(spends[|spends| - 1], limit, percent)
  {
  }

  /** After any series of reports a threshold is triggered exactly when some report reached it. */
  lemma {:induction false} TriggeredExactly(b: Budget, spends: seq<real>, i: nat)
    requires IsNew(b) && i < |b.thresholds|
    ensures Run(b, spends).limit == b.limit && |Run(b, spends).thresholds| == |b.thresholds|
    ensures Run(b, spends).thresholds[i]
         == b.thresholds[i].(triggered := EverReached(spends, b.limit, b.thresholds[i].percent))
  {
    if spends != [] {
      TriggeredExactly(b, spends[..|spends| - 1], i);
      EverReachedLast(spends, b.limit, b.thresholds[i].percent);
    }
  }

  /** The first report that reached `percent`. */
  ghost function FirstReach(spends: seq<real>, limit: real, percent: real): real
    requires EverReached(spends, limit, percent)
  {
    var front, last := spends[..|spends| - 1], spends[|spends| - 1];
    if EverReached(front, limit, percent) then FirstReach(front, limit, percent) else last
  }

  /** One alert for each threshold that some report reached, on its own channel and with the spend
      of the first such report. */
  ghost function Due(ts: seq<Threshold>, spends: seq<real>, limit: real): multiset<Alert> {
    if ts == [] then multiset{}
    else
      var t := ts[|ts| - 1];
      Due(ts[..|ts| - 1], spends, limit) +
      if EverReached(spends, limit, t.percent)
      then multiset{Alert(t.percent, FirstReach(spends, limit, t.percent), limit, t.channel)}
      else multiset{}
  }

  /** The thresholds `ts`, new at first, after the reports. */
  ghost function StateAfter(ts: seq<Threshold>, spends: seq<real>, limit: real): (r: seq<Threshold>)
    ensures |r| == |ts|
    ensures forall i :: 0 <= i < |ts| ==> r[i] == ts[i].(triggered := EverReached(spends, limit, ts[i].percent))
  {
    seq(|ts|, i requires 0 <= i < |ts| => ts[i].(triggered := EverReached(spends, limit, ts[i].percent)))
  }

  lemma StateFront(ts: seq<Threshold>, spends: seq<real>, limit: real)
    requires ts != []
    ensures StateAfter(ts, spends, limit)[..|ts| - 1] == StateAfter(ts[..|ts| - 1], spends, limit)
  {
  }

  /** A report makes due exactly the alerts it emits. */
  lemma {:induction false} DueNext(ts: seq<Threshold>, spends: seq<real>, limit: real)
    requires spends != []
    ensures
      var front, spend := spends[..|spends| - 1], spends[|spends| - 1];
      Due(ts, spends, limit) == Due(ts, front, limit)
        + multiset(Emitted(StateAfter(ts, front, limit), PercentOf(spend, limit), spend, limit))
  {
    if ts != [] {
      DueNext(ts[..|ts| - 1], spends, limit);
      StateFront(ts, spends[..|spends| - 1], limit);
      EverReachedLast(spends, limit, ts[|ts| - 1].percent);
    }
  }

  lemma {:induction false} NothingDue(ts: seq<Threshold>, limit: real)
    ensures Due(ts, [], limit) == multiset{}
  {
    if ts != [] {
      NothingDue(ts[..|ts| - 1], limit);
    }
  }

  /** After any series of reports the alerts sent are one for each triggered threshold, with its
      percentage and channel and the spend of the report that reached it first, and no others. */
  lemma {:induction false} OneAlertPerThreshold(b: Budget, spends: seq<real>)
    requires IsNew(b)
    ensures multiset(Run(b, spends).alerts) == Due(b.thresholds, spends, b.limit)
  {
    if spends == [] {
      NothingDue(b.thresholds, b.limit);
    } else {
      var front := spends[..|spends| - 1];
      OneAlertPerThreshold(b, front);
      ThresholdsAfter(b, front);
      DueNext(b.thresholds, spends, b.limit);
    }
  }

  lemma ThresholdsAfter(b: Budget, spends: seq<real>)
    requires IsNew(b)
    ensures Run(b, spends).limit == b.limit
    ensures Run(b, spends).thresholds == StateAfter(b.thresholds, spends, b.limit)
  {
    RunKeepsShape(b, spends);
    forall i | 0 <= i < |b.thresholds|
      ensures Run(b, spends).thresholds[i] == StateAfter(b.thresholds, spends, b.limit)[i]
    {
      TriggeredExactly(b, spends, i);
    }
  }

  /** The spend on record is the one reported last. */
  lemma SpendIsLast(b: Budget, spends: seq<real>)
    ensures Run(b, spends).currentSpend == if spends == [] then b.currentSpend else spends[|spends| - 1]
  {
  }

  /** With a limit of zero every threshold is reached by positive spend, and none by any other. */
  lemma ZeroLimit(spend: real, percent: real)
    ensures Reaches(spend, 0.0, percent) <==> spend > 0.0
  {
  }

  lemma {:induction false} RunKeepsShape(b: Budget, spends: seq<real>)
    ensures Run(b, spends).limit == b.limit && |Run(b, spends).thresholds| == |b.thresholds|
  {
    if spends != [] {
      RunKeepsShape(b, spends[..|spends| - 1]);
    }
  }
}
