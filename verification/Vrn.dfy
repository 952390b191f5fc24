/**
  Resource names (VRNs): printing, parsing and wildcard matching.
 */
module Vrn {
  import opened Text

  datatype Vrn = Vrn(partition: string, service: string, projectID: string, resourceType: string, resourceID: string)

  datatype ParseError = WrongPartCount | WrongPrefix | WrongPartition | NoSlash | EmptyType | EmptyID

  datatype Result<T> = Ok(value: T) | Err(error: ParseError)

  const PREFIX := "vrn"
  const PARTITION := "vcstack"

  const ALL := Vrn(PARTITION, "*", "*", "*", "*")

  // ---------- Printing and parsing ----------

  function ResourcePart(v: Vrn): string {
    v.resourceType + "/" + v.resourceID
  }

  function ToString(v: Vrn): string {
    PREFIX + ":" + v.partition + ":" + v.service + ":" + v.projectID + ":" + ResourcePart(v)
  }

  function SplitResource(s: string): Result<(string, string)> {
    if s == "*" || s == "*/*" then Ok(("*", "*"))
    else
      var i := Find(s, '/');
      if i == |s| then Err(NoSlash)
      else if s[..i] == "" then Err(EmptyType)
      else if s[i + 1..] == "" then Err(EmptyID)
      else Ok((s[..i], s[i + 1..]))
  }

  function Parse(s: string): Result<Vrn> {
    if s == "*" then Ok(ALL)
    else
      var parts := SplitN(s, ':', 5);
      if |parts| != 5 then Err(WrongPartCount)
      else if parts[0] != PREFIX then Err(WrongPrefix)
      else if parts[1] != PARTITION then Err(WrongPartition)
      else
        match SplitResource(parts[4])
        case Err(e) => Err(e)
        case Ok((t, id)) => Ok(Vrn(parts[1], parts[2], parts[3], t, id))
  }

  /** The five colon-separated parts of a printed name. */
  function Parts(v: Vrn): seq<string> {
    [PREFIX, v.partition, v.service, v.projectID, ResourcePart(v)]
  }

  lemma JoinFive(a: string, b: string, c: string, d: string, e: string)
    ensures Join([a, b, c, d, e], ':') == a + ":" + b + ":" + c + ":" + d + ":" + e
  {
    JoinAfter(a, b, [c, d, e], ':');
    JoinAfter(a + ":" + b, c, [d, e], ':');
    JoinAfter(a + ":" + b + ":" + c, d, [e], ':');
    assert Join([a, b, c, d, e], ':') == a + ":" + Join([b, c, d, e], ':');
  }

  lemma ToStringJoins(v: Vrn)
    ensures ToString(v) == Join(Parts(v), ':')
  {
    JoinFive(PREFIX, v.partition, v.service, v.projectID, ResourcePart(v));
  }

  /** The names that printing does not blur. */
  predicate Printable(v: Vrn) {
    && v.partition == PARTITION
    && ':' !in v.service && ':' !in v.projectID
    && v.resourceType != "" && '/' !in v.resourceType && v.resourceID != ""
  }

  lemma SplitResourceInverts(t: string, id: string)
    requires t != "" && '/' !in t && id != ""
    ensures SplitResource(t + "/" + id) == Ok((t, id))
  {
    FindAfter(t, '/', id);
    var s := t + "/" + id;
    assert s[..|t|] == t && s[|t| + 1..] == id;
    if s == "*/*" {
      assert s[1] == '/';
      FindAfter("*", '/', "*");
      assert t == "*" && id == "*";
    }
    assert s != "*" by {
      assert s[|t|] == '/';
    }
  }

  lemma SplitResourceShape(s: string)
    requires SplitResource(s).Ok?
    ensures
      var (t, id) := SplitResource(s).value;
      && t != "" && '/' !in t && id != ""
      && t + "/" + id == if s == "*" then "*/*" else s
  {
  }

  /** Parsing accepts only names that print unambiguously. */
  lemma ParsedIsPrintable(s: string)
    requires Parse(s).Ok?
    ensures Printable(Parse(s).value)
  {
    if s != "*" {
      SplitIsSeparatorFree(s, ':', 5);
      SplitResourceShape(SplitN(s, ':', 5)[4]);
    }
  }

  /** Parsing inverts printing exactly on the printable names. */
  lemma ParseInvertsToString(v: Vrn)
    ensures Parse(ToString(v)) == Ok(v) <==> Printable(v)
  {
    if Printable(v) {
      ToStringJoins(v);
      SplitJoin(Parts(v), ':');
      SplitResourceInverts(v.resourceType, v.resourceID);
      assert ToString(v)[0] == 'v';
    }
    if Parse(ToString(v)) == Ok(v) {
      ParsedIsPrintable(ToString(v));
    }
  }

  /** The accepted spellings that printing normalises: `*`, and a resource part of `*`. */
  predicate Shorthand(s: string) {
    s == "*" || (|SplitN(s, ':', 5)| == 5 && SplitN(s, ':', 5)[4] == "*")
  }

  /** The printed parts of a parsed name are the parts of the string, but for a starred resource. */
  lemma PartsOfParsed(s: string)
    requires Parse(s).Ok? && s != "*"
    ensures
      var parts := SplitN(s, ':', 5);
      Parts(Parse(s).value) == if parts[4] == "*" then parts[4 := "*/*"] else parts
  {
    SplitResourceShape(SplitN(s, ':', 5)[4]);
  }

  lemma PrintedParts(s: string)
    requires Parse(s).Ok? && s != "*"
    ensures ToString(Parse(s).value) == s <==> SplitN(s, ':', 5)[4] != "*"
  {
    var p := Parts(Parse(s).value);
    ToStringJoins(Parse(s).value);
    PartsOfParsed(s);
    JoinSplit(s, ':', 5);
    SplitIsSeparatorFree(s, ':', 5);
    SplitJoin(p, ':');
  }

  /** Printing what was parsed gives the string back exactly when it is no shorthand, and
      parsing that again always gives the same name. */
  lemma ToStringInvertsParse(s: string)
    requires Parse(s).Ok?
    ensures ToString(Parse(s).value) == s <==> !Shorthand(s)
    ensures Parse(ToString(Parse(s).value)) == Parse(s)
  {
    ParsedIsPrintable(s);
    ParseInvertsToString(Parse(s).value);
    if s == "*" {
      assert ToString(ALL)[0] == 'v';
    } else {
      PrintedParts(s);
    }
  }

  /** The universal wildcard, and a resource part of a single star, are accepted. */
  lemma ShorthandsAccepted(service: string, projectID: string)
    requires ':' !in service && ':' !in projectID
    ensures Parse("*") == Ok(Vrn("vcstack", "*", "*", "*", "*"))
    ensures Parse("vrn" + ":" + "vcstack" + ":" + service + ":" + projectID + ":" + "*")
         == Ok(Vrn("vcstack", service, projectID, "*", "*"))
  {
    var s := "vrn" + ":" + "vcstack" + ":" + service + ":" + projectID + ":" + "*";
    JoinFive("vrn", "vcstack", service, projectID, "*");
    SplitJoin(["vrn", "vcstack", service, projectID, "*"], ':');
    assert s[0] == 'v';
  }

  /** The string is the printed form of `v`, or a shorthand for it. */
  ghost predicate Spells(s: string, v: Vrn) {
    || s == ToString(v)
    || (v == ALL && s == "*")
    || (v.resourceType == "*" && v.resourceID == "*"
        && s == PREFIX + ":" + v.partition + ":" + v.service + ":" + v.projectID + ":" + "*")
  }

  lemma FiveParts(s: string)
    requires |SplitN(s, ':', 5)| == 5
    ensures
      var p := SplitN(s, ':', 5);
      s == p[0] + ":" + p[1] + ":" + p[2] + ":" + p[3] + ":" + p[4]
  {
    JoinSplit(s, ':', 5);
    JoinOfFive(SplitN(s, ':', 5));
  }

  lemma JoinOfFive(p: seq<string>)
    requires |p| == 5
    ensures Join(p, ':') == p[0] + ":" + p[1] + ":" + p[2] + ":" + p[3] + ":" + p[4]
  {
    assert p == [p[0], p[1], p[2], p[3], p[4]];
    JoinFive(p[0], p[1], p[2], p[3], p[4]);
  }

  lemma StarredResource(s: string)
    requires Parse(s).Ok? && s != "*" && Shorthand(s)
    ensures
      var v := Parse(s).value;
      && v.resourceType == "*" && v.resourceID == "*"
      && s == PREFIX + ":" + v.partition + ":" + v.service + ":" + v.projectID + ":" + "*"
  {
    FiveParts(s);
  }

  lemma SpelledIsParsed(s: string, v: Vrn)
    requires Printable(v) && Spells(s, v)
    ensures Parse(s) == Ok(v)
  {
    ParseInvertsToString(v);
    ShorthandsAccepted(v.service, v.projectID);
  }

  /** Parsing accepts exactly the spellings of printable names, and answers the name spelled. */
  lemma ParsesExactly(s: string, v: Vrn)
    ensures Parse(s) == Ok(v) <==> Printable(v) && Spells(s, v)
  {
    if Parse(s) == Ok(v) {
      ParsedIsPrintable(s);
      ToStringInvertsParse(s);
      if s != "*" && Shorthand(s) {
        StarredResource(s);
      }
    }
    if Printable(v) && Spells(s, v) {
      SpelledIsParsed(s, v);
    }
  }

  /** Why a resource part is rejected. */
  lemma ResourceRejectedExactly(e: string)
    ensures SplitResource(e) == Err(NoSlash) <==> '/' !in e && e != "*"
    ensures SplitResource(e) == Err(EmptyType) <==> e != "" && e[0] == '/'
    ensures SplitResource(e) == Err(EmptyID) <==> e != "" && e[0] != '/' && Find(e, '/') == |e| - 1
    ensures SplitResource(e).Err? ==> SplitResource(e).error in {NoSlash, EmptyType, EmptyID}
  {
    assert e != "" && e[0] == '/' ==> Find(e, '/') == 0;
    assert Find("*/*", '/') == 1 by {
      FindAfter("*", '/', "*");
    }
  }

  lemma SplitFive(a: string, b: string, c: string, d: string, e: string)
    requires ':' !in a && ':' !in b && ':' !in c && ':' !in d
    ensures
      var s := a + ":" + b + ":" + c + ":" + d + ":" + e;
      s != "*" && SplitN(s, ':', 5) == [a, b, c, d, e]
  {
    JoinFive(a, b, c, d, e);
    SplitJoin([a, b, c, d, e], ':');
  }

  /** Why a string of five parts is rejected: for its prefix, its partition or its resource part. */
  lemma RejectedExactly(a: string, b: string, c: string, d: string, e: string)
    requires ':' !in a && ':' !in b && ':' !in c && ':' !in d
    ensures
      var r := Parse(a + ":" + b + ":" + c + ":" + d + ":" + e);
      && (r == Err(WrongPrefix) <==> a != "vrn")
      && (r == Err(WrongPartition) <==> a == "vrn" && b != "vcstack")
      && (a == "vrn" && b == "vcstack" ==> r.Err? == SplitResource(e).Err?)
      && (a == "vrn" && b == "vcstack" && r.Err? ==> r.error == SplitResource(e).error)
  {
    SplitFive(a, b, c, d, e);
    ResourceRejectedExactly(e);
  }

  lemma ColonsAfter(head: string, rest: string)
    requires ':' !in head
    ensures multiset(head + ":" + rest)[':'] == multiset(rest)[':'] + 1
  {
    assert ':' !in multiset(head);
  }

  /** Splitting yields as many parts as are allowed, or one more than there are separators. */
  lemma {:induction false} PartCount(s: string, n: nat)
    requires n > 0
    ensures |SplitN(s, ':', n)| < n <==> multiset(s)[':'] + 1 < n
  {
    var i := Find(s, ':');
    if i == |s| {
      assert ':' !in multiset(s);
    } else if n > 1 {
      PartCount(s[i + 1..], n - 1);
      SplitAtFirst(s, ':');
      ColonsAfter(s[..i], s[i + 1..]);
    } else {
      assert ':' in multiset(s);
    }
  }

  /** A string is rejected for the number of its parts exactly when it has fewer than four colons. */
  lemma PartCountExactly(s: string)
    ensures Parse(s) == Err(WrongPartCount) <==> s != "*" && multiset(s)[':'] < 4
  {
    PartCount(s, 5);
    if s != "*" && |SplitN(s, ':', 5)| == 5 {
      ResourceRejectedExactly(SplitN(s, ':', 5)[4]);
    }
  }

  // ---------- Matching ----------

  predicate MatchComponent(pattern: string, value: string) {
    || pattern == "*"
    || pattern == value
    || (pattern != "" && pattern[|pattern| - 1] == '*' && pattern[..|pattern| - 1] <= value)
  }

  predicate Matches(pattern: Vrn, resource: Vrn) {
    && MatchComponent(pattern.service, resource.service)
    && MatchComponent(pattern.projectID, resource.projectID)
    && MatchComponent(pattern.resourceType, resource.resourceType)
    && MatchComponent(pattern.resourceID, resource.resourceID)
  }

  /** A pattern that ends in a star matches exactly the strings that begin with what is before the star;
      any other pattern matches itself only. */
  lemma ComponentExactly(stem: string, pattern: string, value: string)
    ensures MatchComponent(stem + "*", value) <==> exists rest :: value == stem + rest
    ensures pattern == "" || pattern[|pattern| - 1] != '*' ==> (MatchComponent(pattern, value) <==> pattern == value)
  {
    var p := stem + "*";
    assert p[..|p| - 1] == stem;
    if stem <= value {
      assert value == stem + value[|stem|..];
    }
    if stem == "" {
      assert p == "*" && value == stem + value;
    }
    if p == value {
      assert value == stem + "*";
    }
  }

  /** No star, except perhaps the last character. */
  predicate TrailingStarOnly(p: string) {
    p == "" || '*' !in p[..|p| - 1]
  }

  predicate IsPattern(p: Vrn) {
    && TrailingStarOnly(p.service) && TrailingStarOnly(p.projectID)
    && TrailingStarOnly(p.resourceType) && TrailingStarOnly(p.resourceID)
  }

  predicate IsConcrete(v: Vrn) {
    '*' !in v.service && '*' !in v.projectID && '*' !in v.resourceType && '*' !in v.resourceID
  }

  /** Every star-free value matched by `q` is matched by `p`. */
  ghost predicate ComponentCovers(p: string, q: string) {
    forall v :: '*' !in v && MatchComponent(q, v) ==> MatchComponent(p, v)
  }

  lemma MatchedIsCovered(p: string, q: string)
    requires TrailingStarOnly(p) && TrailingStarOnly(q) && MatchComponent(p, q)
    ensures ComponentCovers(p, q)
  {
    forall v | '*' !in v && MatchComponent(q, v) ensures MatchComponent(p, v) {
      if p != "*" && p != q {
        var stem := p[..|p| - 1];
        assert p == stem + "*";
        if q != v {
          assert q == q[..|q| - 1] + "*";
          assert stem <= q[..|q| - 1];
        }
      }
    }
  }

  /** A star-free value matched by `q` but not by `p`. */
  lemma Uncovered(p: string, q: string) returns (v: string)
    requires TrailingStarOnly(p) && TrailingStarOnly(q) && !MatchComponent(p, q)
    ensures '*' !in v && MatchComponent(q, v) && !MatchComponent(p, v)
  {
    if q == "" || q[|q| - 1] != '*' {
      v := q;
      assert q != "" ==> q == q[..|q| - 1] + [q[|q| - 1]];
    } else {
      var stem := q[..|q| - 1];
      v := if p == stem then stem + "x" else stem;
    }
  }

  /** Every concrete resource matched by `q` is matched by `p`. */
  ghost predicate Covers(p: Vrn, q: Vrn) {
    forall v :: IsConcrete(v) && Matches(q, v) ==> Matches(p, v)
  }

  lemma ConcreteInstance(q: string) returns (v: string)
    requires TrailingStarOnly(q)
    ensures '*' !in v && MatchComponent(q, v)
  {
    if q == "" || q[|q| - 1] != '*' {
      v := q;
      assert q != "" ==> q == q[..|q| - 1] + [q[|q| - 1]];
    } else {
      v := q[..|q| - 1];
    }
  }

  /** Matching between patterns decides inclusion of what they match. */
  lemma MatchesDecidesCovering(p: Vrn, q: Vrn)
    requires IsPattern(p) && IsPattern(q)
    ensures Matches(p, q) <==> Covers(p, q)
  {
    if Matches(p, q) {
      MatchedIsCovered(p.service, q.service);
      MatchedIsCovered(p.projectID, q.projectID);
      MatchedIsCovered(p.resourceType, q.resourceType);
      MatchedIsCovered(p.resourceID, q.resourceID);
    } else {
      var a := ConcreteInstance(q.service);
      var b := ConcreteInstance(q.projectID);
      var c := ConcreteInstance(q.resourceType);
      var d := ConcreteInstance(q.resourceID);
      if !MatchComponent(p.service, q.service) {
        a := Uncovered(p.service, q.service);
      } else if !MatchComponent(p.projectID, q.projectID) {
        b := Uncovered(p.projectID, q.projectID);
      } else if !MatchComponent(p.resourceType, q.resourceType) {
        c := Uncovered(p.resourceType, q.resourceType);
      } else {
        d := Uncovered(p.resourceID, q.resourceID);
      }
      var v := Vrn(PARTITION, a, b, c, d);
      assert IsConcrete(v) && Matches(q, v) && !Matches(p, v);
    }
  }

  /** Matching is a preorder on patterns, with the universal name on top. */
  lemma MatchesIsPreorder(p: Vrn, q: Vrn, r: Vrn)
    requires IsPattern(p) && IsPattern(q) && IsPattern(r)
    ensures Matches(p, p) && Matches(ALL, p)
    ensures Matches(p, q) && Matches(q, r) ==> Matches(p, r)
  {
    if Matches(p, q) && Matches(q, r) {
      MatchesDecidesCovering(p, q);
      MatchesDecidesCovering(q, r);
      MatchesDecidesCovering(p, r);
    }
  }

  predicate EndsInTwoStars(p: string) {
    |p| >= 2 && p[|p| - 1] == '*' && p[|p| - 2] == '*'
  }

  /** Whatever is matched by something `p` matches is matched by `p`. */
  ghost predicate TransitiveAt(p: string) {
    forall q, v :: MatchComponent(p, q) && MatchComponent(q, v) ==> MatchComponent(p, v)
  }

  /** On arbitrary strings, matching is transitive below a pattern exactly when the pattern
      does not end in two stars. */
  lemma TransitiveExactly(p: string)
    ensures TransitiveAt(p) <==> !EndsInTwoStars(p)
  {
    if EndsInTwoStars(p) {
      var q := p[..|p| - 1];
      var v := q[..|q| - 1] + "x";
      assert MatchComponent(p, q) && MatchComponent(q, v);
      assert |v| == |q| && v[|q| - 1] == 'x';
      assert !MatchComponent(p, v);
    } else {
      forall q, v | MatchComponent(p, q) && MatchComponent(q, v) ensures MatchComponent(p, v) {
        if p != "*" && p != q && q != v {
          var stem := p[..|p| - 1];
          assert q[|q| - 1] == '*';
          assert stem != "" && stem[|stem| - 1] != '*';
          assert stem <= q[..|q| - 1];
        }
      }
    }
  }

  /** Whatever is matched by a name that `p` matches is matched by `p`. */
  ghost predicate MatchesTransitiveAt(p: Vrn) {
    forall q, r :: Matches(p, q) && Matches(q, r) ==> Matches(p, r)
  }

  predicate HasDoubledStar(p: Vrn) {
    || EndsInTwoStars(p.service) || EndsInTwoStars(p.projectID)
    || EndsInTwoStars(p.resourceType) || EndsInTwoStars(p.resourceID)
  }

  /** A chain of two matches from `p` that `p` itself does not match. */
  lemma BrokenChain(p: string) returns (q: string, v: string)
    requires EndsInTwoStars(p)
    ensures MatchComponent(p, q) && MatchComponent(q, v) && !MatchComponent(p, v)
  {
    TransitiveExactly(p);
    q, v :| MatchComponent(p, q) && MatchComponent(q, v) && !MatchComponent(p, v);
  }

  /** On arbitrary names, matching is transitive below a name exactly when none of its four matched
      components ends in two stars. */
  lemma MatchesTransitiveExactly(p: Vrn)
    ensures MatchesTransitiveAt(p) <==> !HasDoubledStar(p)
  {
    TransitiveExactly(p.service);
    TransitiveExactly(p.projectID);
    TransitiveExactly(p.resourceType);
    TransitiveExactly(p.resourceID);
    if HasDoubledStar(p) {
      var q, r := p, p;
      if EndsInTwoStars(p.service) {
        var a, b := BrokenChain(p.service);
        q, r := p.(service := a), p.(service := b);
      } else if EndsInTwoStars(p.projectID) {
        var a, b := BrokenChain(p.projectID);
        q, r := p.(projectID := a), p.(projectID := b);
      } else if EndsInTwoStars(p.resourceType) {
        var a, b := BrokenChain(p.resourceType);
        q, r := p.(resourceType := a), p.(resourceType := b);
      } else {
        var a, b := BrokenChain(p.resourceID);
        q, r := p.(resourceID := a), p.(resourceID := b);
      }
      assert Matches(p, q) && Matches(q, r) && !Matches(p, r);
    }
  }
}
