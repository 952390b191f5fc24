/**
  Attribute-based access control: which policies apply to a request, and the decision of
  the policy that is met first in order of priority.
 */
module Abac {
  import opened Text
  import opened Wrappers

  datatype Condition = Condition(key: string, operator: string, value: string)

  /** A stored policy; its conditions are kept as JSON text. */
  datatype Policy = Policy(id: nat, name: string, effect: string, resource: string, actions: string,
                           conditions: string, priority: int, enabled: bool)

  datatype EvalRequest = EvalRequest(action: string, resource: string, resourceTags: map<string, string>,
                                     userAttrs: map<string, string>, requestCtx: map<string, string>)

  datatype EvalResult = EvalResult(allowed: bool, matched: Option<Policy>)

  /** Decoding of JSON text, `None` where it is malformed. */
  datatype Json = Json(conditions: string -> Option<seq<Condition>>, strings: string -> Option<seq<string>>)

  // ---------- Matching a policy against a request ----------

  predicate MatchResource(pattern: string, resource: string) {
    if pattern == "*" then true
    else if |pattern| >= 2 && pattern[|pattern| - 2..] == ":*" then pattern[..|pattern| - 1] <= resource
    else pattern == resource
  }

  predicate IsSpace(c: char) {
    || '\t' <= c <= '\r' || c == ' ' || c == '\U{85}' || c == '\U{a0}' || c == '\U{1680}'
    || '\U{2000}' <= c <= '\U{200a}' || c == '\U{2028}' || c == '\U{2029}' || c == '\U{202f}'
    || c == '\U{205f}' || c == '\U{3000}'
  }

  function TrimSpace(s: string): string {
    if s != "" && IsSpace(s[0]) then TrimSpace(s[1..])
    else if s != "" && IsSpace(s[|s| - 1]) then TrimSpace(s[..|s| - 1])
    else s
  }

  function Split(s: string, c: char): seq<string> {
    SplitN(s, c, |s| + 1)
  }

  /** Some entry of the comma-separated list is a star or the action. */
  ghost predicate ListsAction(actions: string, action: string) {
    exists a :: a in Split(actions, ',') && (TrimSpace(a) == "*" || TrimSpace(a) == action)
  }

  method MatchAction(actions: string, action: string) returns (b: bool)
    ensures b <==> ListsAction(actions, action)
  {
    var parts := Split(actions, ',');
    for i := 0 to |parts|
      invariant forall j :: 0 <= j < i ==> TrimSpace(parts[j]) != "*" && TrimSpace(parts[j]) != action
    {
      var a := TrimSpace(parts[i]);
      if a == "*" || a == action {
        assert parts[i] in parts;
        return true;
      }
    }
    return false;
  }

  function Attribute(m: map<string, string>, k: string): string {
    if k in m then m[k] else ""
  }

  function ResolveKey(key: string, req: EvalRequest): string {
    var parts := SplitN(key, '.', 3);
    if |parts| < 2 then ""
    else if parts[0] == "resource" then
      if parts[1] == "tags" && |parts| == 3 then Attribute(req.resourceTags, parts[2]) else ""
    else if parts[0] == "user" then Attribute(req.userAttrs, parts[1])
    else if parts[0] == "request" then Attribute(req.requestCtx, parts[1])
    else ""
  }

  predicate EvalOp(json: Json, op: string, actual: string, expected: string) {
    if op == "equals" then actual == expected
    else if op == "not_equals" then actual != expected
    else if op == "starts_with" then expected <= actual
    else if op == "contains" then ContainsText(actual, expected)
    else if op == "in" then json.strings(expected).Some? && actual in json.strings(expected).value
    else if op == "not_in" then json.strings(expected).None? || actual !in json.strings(expected).value
    else false
  }

  predicate Holds(json: Json, c: Condition, req: EvalRequest) {
    EvalOp(json, c.operator, ResolveKey(c.key, req), c.value)
  }

  ghost predicate AllHold(json: Json, conditions: seq<Condition>, req: EvalRequest) {
    forall i :: 0 <= i < |conditions| ==> Holds(json, conditions[i], req)
  }

  method EvaluateConditions(json: Json, conditions: seq<Condition>, req: EvalRequest) returns (b: bool)
    ensures b <==> AllHold(json, conditions, req)
  {
    for i := 0 to |conditions|
      invariant forall j :: 0 <= j < i ==> Holds(json, conditions[j], req)
    {
      if !Holds(json, conditions[i], req) {
        return false;
      }
    }
    return true;
  }

  /** A tag is reached under its full name, dots included. */
  lemma KeyReachesTag(k: string, req: EvalRequest)
    ensures ResolveKey("resource" + "." + ("tags" + "." + k), req) ==
            if k in req.resourceTags then req.resourceTags[k] else ""
  {
    SplitInThree("resource", "tags", k);
  }

  /** A user attribute is reached by its name up to the first dot. */
  lemma KeyReachesUser(k: string, rest: string, req: EvalRequest)
    requires '.' !in k
    ensures ResolveKey("user" + "." + k, req) == if k in req.userAttrs then req.userAttrs[k] else ""
    ensures ResolveKey("user" + "." + (k + "." + rest), req) == if k in req.userAttrs then req.userAttrs[k] else ""
  {
    SplitOnce("user", k, rest);
  }

  /** So is a property of the request. */
  lemma KeyReachesRequest(k: string, rest: string, req: EvalRequest)
    requires '.' !in k
    ensures ResolveKey("request" + "." + k, req) == if k in req.requestCtx then req.requestCtx[k] else ""
    ensures ResolveKey("request" + "." + (k + "." + rest), req) == if k in req.requestCtx then req.requestCtx[k] else ""
  {
    SplitOnce("request", k, rest);
  }

  lemma SplitOnce(kind: string, k: string, rest: string)
    requires '.' !in kind && '.' !in k
    ensures SplitN(kind + "." + k, '.', 3) == [kind, k]
    ensures SplitN(kind + "." + (k + "." + rest), '.', 3) == [kind, k, rest]
  {
    SplitInTwo(kind, k);
    SplitInThree(kind, k, rest);
  }

  lemma SplitInTwo(kind: string, k: string)
    requires '.' !in kind && '.' !in k
    ensures SplitN(kind + "." + k, '.', 3) == [kind, k]
  {
    SplitStep(kind, '.', k, 3);
    assert SplitN(k, '.', 2) == [k];
  }

  lemma SplitInThree(kind: string, k: string, rest: string)
    requires '.' !in kind && '.' !in k
    ensures SplitN(kind + "." + (k + "." + rest), '.', 3) == [kind, k, rest]
  {
    SplitStep(kind, '.', k + "." + rest, 3);
    SplitStep(k, '.', rest, 2);
  }

  /** A key without a dot, of another kind, or of the resource but not its tags, reaches nothing. */
  lemma KeyReachesNothing(kind: string, k: string, rest: string, req: EvalRequest)
    requires '.' !in kind && '.' !in k
    ensures ResolveKey(kind, req) == ""
    ensures kind !in {"resource", "user", "request"} || (kind == "resource" && k != "tags") ==>
      ResolveKey(kind + "." + k, req) == "" && ResolveKey(kind + "." + (k + "." + rest), req) == ""
    ensures ResolveKey("resource" + "." + "tags", req) == ""
  {
    SplitNone(kind, '.', 3);
    SplitOnce(kind, k, rest);
    SplitInTwo("resource", "tags");
  }

  /** What each operator decides; a list that is malformed has no members, and an operator that is
      not known never holds. */
  lemma OperatorsDecide(json: Json, op: string, actual: string, expected: string)
    ensures EvalOp(json, "equals", actual, expected) <==> actual == expected
    ensures EvalOp(json, "not_equals", actual, expected) <==> actual != expected
    ensures EvalOp(json, "starts_with", actual, expected) <==> exists rest :: actual == expected + rest
    ensures EvalOp(json, "contains", actual, expected) <==> exists a, b :: actual == a + expected + b
    ensures EvalOp(json, "in", actual, expected) <==>
      exists members :: json.strings(expected) == Some(members) && actual in members
    ensures EvalOp(json, "not_in", actual, expected) <==> !EvalOp(json, "in", actual, expected)
    ensures op !in {"equals", "not_equals", "starts_with", "contains", "in", "not_in"} ==>
      !EvalOp(json, op, actual, expected)
  {
    ContainsExactly(actual, expected);
    if expected <= actual {
      assert actual == expected + actual[|expected|..];
    }
  }

  // ---------- Lists of actions ----------

  const SPACES := "\t\n\U{b}\U{c}\r \U{85}\U{a0}\U{1680}\U{2000}\U{2001}\U{2002}\U{2003}\U{2004}\U{2005}" +
                  "\U{2006}\U{2007}\U{2008}\U{2009}\U{200a}\U{2028}\U{2029}\U{202f}\U{205f}\U{3000}"

  /** The characters that Unicode calls white space. */
  lemma SpacesAre(c: char)
    ensures IsSpace(c) <==> c in SPACES
  {
  }

  ghost predicate IsBlank(s: string) {
    forall i :: 0 <= i < |s| ==> IsSpace(s[i])
  }

  /** No white space at either end. */
  predicate IsTrimmed(s: string) {
    s == "" || (!IsSpace(s[0]) && !IsSpace(s[|s| - 1]))
  }

  /** Trimming removes the white space around a text and nothing else. */
  lemma {:induction false} TrimExactly(before: string, s: string, after: string)
    requires IsBlank(before) && IsTrimmed(s) && IsBlank(after)
    ensures TrimSpace(before + s + after) == s
    decreases |before| + |after|
  {
    var all := before + s + after;
    if before != "" {
      assert all[1..] == before[1..] + s + after;
      TrimExactly(before[1..], s, after);
    } else if after != "" {
      if s == "" {
        assert all[1..] == before + s + after[1..];
        TrimExactly(before, s, after[1..]);
      } else {
        var front := after[..|after| - 1];
        assert all[0] == s[0] && all[..|all| - 1] == before + s + front;
        TrimExactly(before, s, front);
      }
    } else {
      assert all == s;
    }
  }

  /** A list of comma-free entries lists exactly those entries, each without the blanks around it. */
  lemma ListsExactly(entries: seq<string>, action: string)
    requires entries != [] && AllFree(entries, ',')
    ensures ListsAction(Join(entries, ','), action) <==>
      exists a :: a in entries && (TrimSpace(a) == "*" || TrimSpace(a) == action)
  {
    JoinLength(entries, ',');
    SplitJoinAll(entries, ',', |Join(entries, ',')| + 1);
  }

  // ---------- Resources ----------

  /** A star matches everything, a type wildcard exactly the resources of its type, and any other
      pattern only itself. */
  lemma ResourcePatterns(stem: string, resource: string)
    ensures MatchResource("*", resource)
    ensures MatchResource(stem + ":*", resource) <==> exists id :: resource == stem + ":" + id
    ensures stem != "*" && (|stem| < 2 || stem[|stem| - 2..] != ":*") ==>
            (MatchResource(stem, resource) <==> stem == resource)
  {
    var pattern := stem + ":*";
    assert pattern[|pattern| - 2..] == ":*" && pattern[..|pattern| - 1] == stem + ":";
    if stem + ":" <= resource {
      assert resource == stem + ":" + resource[|stem| + 1..];
    }
  }

  /** The policy's resource, actions and conditions all fit; malformed conditions never do. */
  ghost predicate Applies(json: Json, p: Policy, req: EvalRequest) {
    && MatchResource(p.resource, req.resource)
    && ListsAction(p.actions, req.action)
    && json.conditions(p.conditions).Some?
    && AllHold(json, json.conditions(p.conditions).value, req)
  }

  /** Adding conditions to a policy keeps exactly the requests that meet them too. */
  lemma MoreConditionsShrink(json: Json, p: Policy, q: Policy, extra: seq<Condition>, req: EvalRequest)
    requires q == p.(conditions := q.conditions)
    requires json.conditions(p.conditions).Some?
    requires json.conditions(q.conditions) == Some(json.conditions(p.conditions).value + extra)
    ensures Applies(json, q, req) <==> Applies(json, p, req) && AllHold(json, extra, req)
  {
    var base := json.conditions(p.conditions).value;
    assert forall i :: 0 <= i < |extra| ==> extra[i] == (base + extra)[|base| + i];
    assert forall i :: 0 <= i < |base| ==> base[i] == (base + extra)[i];
  }

  // ---------- Deciding ----------

  /** The enabled policies in order of priority; the database may order equal priorities at will. */
  ghost predicate IsListing(store: set<Policy>, rows: seq<Policy>) {
    && (forall i, j :: 0 <= i < j < |rows| ==> rows[i] != rows[j] && rows[i].priority <= rows[j].priority)
    && (forall p :: p in rows <==> p in store && p.enabled)
  }

  const DEFAULT_ALLOW := EvalResult(true, None)

  function Decision(p: Policy): EvalResult {
    EvalResult(p.effect == "allow", Some(p))
  }

  /** The first row that applies. */
  ghost predicate FirstApplies(json: Json, rows: seq<Policy>, req: EvalRequest, i: nat) {
    i < |rows| && Applies(json, rows[i], req) && forall j :: 0 <= j < i ==> !Applies(json, rows[j], req)
  }

  ghost predicate IsResult(json: Json, rows: seq<Policy>, req: EvalRequest, r: EvalResult) {
    if r.matched.None? then r == DEFAULT_ALLOW && forall i :: 0 <= i < |rows| ==> !Applies(json, rows[i], req)
    else exists i: nat :: FirstApplies(json, rows, req, i) && r == Decision(rows[i])
  }

  method Evaluate(json: Json, rows: seq<Policy>, req: EvalRequest) returns (r: EvalResult)
    ensures IsResult(json, rows, req, r)
  {
    for i := 0 to |rows|
      invariant forall j :: 0 <= j < i ==> !Applies(json, rows[j], req)
    {
      var p := rows[i];
      if !MatchResource(p.resource, req.resource) {
        continue;
      }
      var acts := MatchAction(p.actions, req.action);
      if !acts {
        continue;
      }
      var conditions := json.conditions(p.conditions);
      if conditions.None? {
        continue;
      }
      var met := EvaluateConditions(json, conditions.value, req);
      if met {
        assert FirstApplies(json, rows, req, i);
        return Decision(p);
      }
    }
    return DEFAULT_ALLOW;
  }

  /** An enabled policy that applies. */
  ghost predicate Candidate(json: Json, store: set<Policy>, req: EvalRequest, p: Policy) {
    p in store && p.enabled && Applies(json, p, req)
  }

  /** A candidate that no other one precedes in priority. */
  ghost predicate IsLeading(json: Json, store: set<Policy>, req: EvalRequest, p: Policy) {
    && Candidate(json, store, req, p)
    && forall q :: Candidate(json, store, req, q) ==> p.priority <= q.priority
  }

  lemma FirstIsLeading(json: Json, store: set<Policy>, rows: seq<Policy>, req: EvalRequest, i: nat)
    requires IsListing(store, rows) && FirstApplies(json, rows, req, i)
    ensures IsLeading(json, store, req, rows[i])
  {
    assert rows[i] in rows;
    forall q | Candidate(json, store, req, q) ensures rows[i].priority <= q.priority {
      assert q in rows;
      var j :| 0 <= j < |rows| && rows[j] == q;
    }
  }

  /** The decision is that of a leading policy, and the default only when no enabled policy applies. */
  lemma ResultIsLeading(json: Json, store: set<Policy>, rows: seq<Policy>, req: EvalRequest, r: EvalResult)
    requires IsListing(store, rows) && IsResult(json, rows, req, r)
    ensures r == DEFAULT_ALLOW <==> forall p :: !Candidate(json, store, req, p)
    ensures r != DEFAULT_ALLOW ==> exists p :: IsLeading(json, store, req, p) && r == Decision(p)
    ensures r.matched.Some? ==>
      IsLeading(json, store, req, r.matched.value) && (r.allowed <==> r.matched.value.effect == "allow")
    ensures r.matched.None? ==> r.allowed && forall p :: !Candidate(json, store, req, p)
  {
    if r.matched.Some? {
      var i: nat :| FirstApplies(json, rows, req, i) && r == Decision(rows[i]);
      FirstIsLeading(json, store, rows, req, i);
    } else {
      forall p ensures !Candidate(json, store, req, p) {
        assert p in store && p.enabled <==> p in rows;
      }
    }
  }

  // ---------- Independence of the database's order ----------

  lemma {:induction false} ListingExists(s: set<Policy>) returns (rows: seq<Policy>)
    requires forall p :: p in s ==> p.enabled
    ensures IsListing(s, rows)
    decreases |s|
  {
    if s == {} {
      rows := [];
    } else {
      var p := LastPolicy(s);
      rows := ListingExists(s - {p});
      forall i | 0 <= i < |rows| ensures rows[i] != p && rows[i].priority <= p.priority {
        assert rows[i] in rows;
      }
      rows := rows + [p];
    }
  }

  lemma {:induction false} LastPolicy(s: set<Policy>) returns (p: Policy)
    requires s != {}
    ensures p in s && forall q :: q in s ==> q.priority <= p.priority
    decreases |s|
  {
    p :| p in s;
    if s != {p} {
      var q := LastPolicy(s - {p});
      if p.priority < q.priority {
        p := q;
      }
    }
  }

  /** The database may list any enabled policy before all others of its priority. */
  lemma ListingAround(store: set<Policy>, p: Policy) returns (rows: seq<Policy>, n: nat)
    requires p in store && p.enabled
    ensures IsListing(store, rows) && n < |rows| && rows[n] == p
    ensures forall j :: 0 <= j < n ==> rows[j] in store && rows[j].enabled && rows[j].priority < p.priority
  {
    var lower := set q | q in store && q.enabled && q.priority < p.priority;
    var rest := set q | q in store && q.enabled && q.priority >= p.priority && q != p;
    var a := ListingExists(lower);
    var b := ListingExists(rest);
    rows, n := a + [p] + b, |a|;
    assert forall i :: 0 <= i < |a| ==> a[i] in a;
    assert forall i :: 0 <= i < |b| ==> b[i] in b;
    assert forall q :: q in rows <==> q in a || q == p || q in b;
  }

  /** Any leading policy may decide. */
  lemma LeadingMayDecide(json: Json, store: set<Policy>, req: EvalRequest, p: Policy) returns (rows: seq<Policy>)
    requires IsLeading(json, store, req, p)
    ensures IsListing(store, rows) && IsResult(json, rows, req, Decision(p))
  {
    var n: nat;
    rows, n := ListingAround(store, p);
    forall j | 0 <= j < n ensures !Applies(json, rows[j], req) {
      assert !Candidate(json, store, req, rows[j]);
    }
    assert FirstApplies(json, rows, req, n);
  }

  ghost predicate MayAnswer(json: Json, store: set<Policy>, req: EvalRequest, rows: seq<Policy>, r: EvalResult) {
    IsListing(store, rows) && IsResult(json, rows, req, r)
  }

  /** Whatever order the database picks, requests get the same answer. */
  ghost predicate OrderIrrelevant(json: Json, store: set<Policy>, req: EvalRequest) {
    forall rows, rows', r, r' :: MayAnswer(json, store, req, rows, r) && MayAnswer(json, store, req, rows', r') ==>
      r.allowed == r'.allowed
  }

  /** The answer is independent of the order of equal priorities exactly when the leading
      policies agree on allowing. */
  lemma OrderIrrelevantExactly(json: Json, store: set<Policy>, req: EvalRequest)
    ensures OrderIrrelevant(json, store, req) <==>
            forall p, q :: IsLeading(json, store, req, p) && IsLeading(json, store, req, q) ==>
              (p.effect == "allow" <==> q.effect == "allow")
  {
    if OrderIrrelevant(json, store, req) {
      forall p, q | IsLeading(json, store, req, p) && IsLeading(json, store, req, q)
        ensures p.effect == "allow" <==> q.effect == "allow"
      {
        var a := LeadingMayDecide(json, store, req, p);
        var b := LeadingMayDecide(json, store, req, q);
        assert MayAnswer(json, store, req, a, Decision(p)) && MayAnswer(json, store, req, b, Decision(q));
      }
    } else {
      var rows, rows', r, r' :| MayAnswer(json, store, req, rows, r) && MayAnswer(json, store, req, rows', r')
                                && r.allowed != r'.allowed;
      ResultIsLeading(json, store, rows, req, r);
      ResultIsLeading(json, store, rows', req, r');
    }
  }

  /** With distinct priorities among the applicable policies the whole result is determined. */
  lemma DistinctPrioritiesDecide(json: Json, store: set<Policy>, req: EvalRequest,
                                 rows: seq<Policy>, rows': seq<Policy>, r: EvalResult, r': EvalResult)
    requires MayAnswer(json, store, req, rows, r) && MayAnswer(json, store, req, rows', r')
    requires forall p, q :: Candidate(json, store, req, p) && Candidate(json, store, req, q) && p != q ==>
               p.priority != q.priority
    ensures r == r'
  {
  }
}
