/**
  Splitting strings at a separator, joining the parts again, and finding text.
 */
module Text {

  /** The index of the first `c` in `s`, or the length of `s`. */
  function Find(s: string, c: char): (i: nat)
    ensures i <= |s| && c !in s[..i]
    ensures i < |s| ==> s[i] == c
    ensures i < |s| <==> c in s
  {
    if s == [] then 0
    else if s[0] == c then 0
    else
      var i := Find(s[1..], c) + 1;
      assert s[..i] == [s[0]] + s[1..][..i - 1];
      assert s == [s[0]] + s[1..];
      i
  }

  /** `strings.SplitN(s, c, n)`: at most `n` parts, the last one unsplit. */
  function SplitN(s: string, c: char, n: nat): (parts: seq<string>)
    requires n > 0
    ensures 1 <= |parts| <= n
  {
    var i := Find(s, c);
    if n == 1 || i == |s| then [s] else [s[..i]] + SplitN(s[i + 1..], c, n - 1)
  }

  function Join(parts: seq<string>, c: char): string
    requires parts != []
  {
    if |parts| == 1 then parts[0] else parts[0] + [c] + Join(parts[1..], c)
  }

  /** Only the last part may hold the separator. */
  ghost predicate SeparatorFree(parts: seq<string>, c: char) {
    forall k :: 0 <= k < |parts| - 1 ==> c !in parts[k]
  }

  lemma SeparatorFreeCons(part: string, rest: seq<string>, c: char)
    requires rest != []
    ensures SeparatorFree([part] + rest, c) <==> c !in part && SeparatorFree(rest, c)
  {
    var parts := [part] + rest;
    assert parts[0] == part;
    assert forall k :: 0 <= k < |rest| ==> parts[k + 1] == rest[k];
  }

  lemma {:induction false} SplitIsSeparatorFree(s: string, c: char, n: nat)
    requires n > 0
    ensures SeparatorFree(SplitN(s, c, n), c)
  {
    var i := Find(s, c);
    if n > 1 && i < |s| {
      SplitIsSeparatorFree(s[i + 1..], c, n - 1);
      SeparatorFreeCons(s[..i], SplitN(s[i + 1..], c, n - 1), c);
    }
  }

  lemma JoinCons(part: string, rest: seq<string>, c: char)
    requires rest != []
    ensures Join([part] + rest, c) == part + [c] + Join(rest, c)
  {
  }

  /** One more separator joined on the left. */
  lemma JoinAfter(front: string, x: string, rest: seq<string>, c: char)
    requires rest != []
    ensures front + [c] + Join([x] + rest, c) == front + [c] + x + [c] + Join(rest, c)
  {
    JoinCons(x, rest, c);
  }

  lemma SplitAtFirst(s: string, c: char)
    requires c in s
    ensures s == s[..Find(s, c)] + [c] + s[Find(s, c) + 1..]
  {
  }

  lemma {:induction false} JoinSplit(s: string, c: char, n: nat)
    requires n > 0
    ensures Join(SplitN(s, c, n), c) == s
  {
    var i := Find(s, c);
    if n > 1 && i < |s| {
      JoinSplit(s[i + 1..], c, n - 1);
      JoinCons(s[..i], SplitN(s[i + 1..], c, n - 1), c);
      SplitAtFirst(s, c);
    }
  }

  lemma FindAfter(a: string, c: char, rest: string)
    requires c !in a
    ensures Find(a + [c] + rest, c) == |a|
  {
    var s := a + [c] + rest;
    assert s[|a|] == c && s[..|a|] == a;
    assert forall k :: 0 <= k < |a| ==> s[k] != c;
    assert forall k :: 0 <= k < Find(s, c) ==> s[..Find(s, c)][k] != c;
  }

  lemma SplitStep(a: string, c: char, rest: string, n: nat)
    requires c !in a && n > 1
    ensures SplitN(a + [c] + rest, c, n) == [a] + SplitN(rest, c, n - 1)
  {
    FindAfter(a, c, rest);
    var s := a + [c] + rest;
    assert s[..|a|] == a && s[|a| + 1..] == rest;
  }

  /** Splitting a join of separator-free parts gives back the parts. */
  lemma {:induction false} SplitJoin(parts: seq<string>, c: char)
    requires parts != [] && SeparatorFree(parts, c)
    ensures SplitN(Join(parts, c), c, |parts|) == parts
  {
    if |parts| > 1 {
      var rest := parts[1..];
      assert parts == [parts[0]] + rest;
      SeparatorFreeCons(parts[0], rest, c);
      SplitJoin(rest, c);
      SplitStep(parts[0], c, Join(rest, c), |parts|);
    }
  }

  lemma SplitNone(s: string, c: char, n: nat)
    requires c !in s && n > 0
    ensures SplitN(s, c, n) == [s]
  {
  }

  ghost predicate AllFree(parts: seq<string>, c: char) {
    forall part :: part in parts ==> c !in part
  }

  lemma AllFreeCons(part: string, rest: seq<string>, c: char)
    requires AllFree([part] + rest, c)
    ensures c !in part && AllFree(rest, c)
  {
    assert part in [part] + rest;
    assert forall x :: x in rest ==> x in [part] + rest;
  }

  /** So it does with more parts allowed than there are, if the last part is separator-free too. */
  lemma {:induction false} SplitJoinAll(parts: seq<string>, c: char, n: nat)
    requires parts != [] && n >= |parts| && AllFree(parts, c)
    ensures SplitN(Join(parts, c), c, n) == parts
  {
    var first, rest := parts[0], parts[1..];
    assert parts == [first] + rest;
    AllFreeCons(first, rest, c);
    if rest == [] {
      SplitNone(first, c, n);
    } else {
      SplitJoinAll(rest, c, n - 1);
      SplitStep(first, c, Join(rest, c), n);
    }
  }

  lemma {:induction false} JoinLength(parts: seq<string>, c: char)
    requires parts != []
    ensures |Join(parts, c)| + 1 >= |parts|
  {
    if |parts| > 1 {
      JoinLength(parts[1..], c);
    }
  }

  predicate TextAt(s: string, text: string, i: nat) {
    i + |text| <= |s| && s[i..i + |text|] == text
  }

  /** `strings.Contains(s, text)`. */
  predicate ContainsText(s: string, text: string) {
    exists i :: 0 <= i <= |s| && TextAt(s, text, i)
  }

  lemma ContainsExactly(s: string, text: string)
    ensures ContainsText(s, text) <==> exists a, b :: s == a + text + b
  {
    if i :| 0 <= i <= |s| && TextAt(s, text, i) {
      assert s == s[..i] + text + s[i + |text|..];
    }
    if a, b :| s == a + text + b {
      assert TextAt(s, text, |a|);
    }
  }
}
