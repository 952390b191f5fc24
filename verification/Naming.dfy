/**
  Slugs and DNS-safe names. Lower-casing is that of the Unicode tables: an arbitrary map
  on characters, of which it is assumed only that it leaves `a-z`, `0-9` and `-` alone.
 */
module Naming {
  import opened Text

  const MAX_DNS_NAME := 63

  predicate IsAlnum(c: char) {
    'a' <= c <= 'z' || '0' <= c <= '9'
  }

  predicate IsSlugChar(c: char) {
    IsAlnum(c) || c == '-'
  }

  predicate IsSeparator(c: char) {
    c == ' ' || c == '_' || c == '.' || c == '/' || c == '\\'
  }

  ghost predicate FixesSlugChars(lower: char -> char) {
    forall c :: IsSlugChar(c) ==> lower(c) == c
  }

  // ---------- The steps of slug generation ----------

  function ToLower(lower: char -> char, s: string): (r: string)
    ensures |r| == |s| && forall i :: 0 <= i < |s| ==> r[i] == lower(s[i])
  {
    seq(|s|, i requires 0 <= i < |s| => lower(s[i]))
  }

  function ReplaceSeparators(s: string): (r: string)
    ensures |r| == |s| && forall i :: 0 <= i < |s| ==> r[i] == if IsSeparator(s[i]) then '-' else s[i]
  {
    seq(|s|, i requires 0 <= i < |s| => if IsSeparator(s[i]) then '-' else s[i])
  }

  function Keep(s: string): (r: string)
    ensures forall i :: 0 <= i < |r| ==> IsSlugChar(r[i])
  {
    if s == "" then ""
    else
      var front, c := Keep(s[..|s| - 1]), s[|s| - 1];
      if IsSlugChar(c) then front + [c] else front
  }

  /** `strings.Contains(s, "--")`. */
  predicate HasDouble(s: string) {
    exists i, j :: 0 <= i < |s| && j == i + 1 < |s| && s[i] == '-' && s[j] == '-'
  }

  /** `strings.ReplaceAll(s, "--", "-")`: leftmost pairs, not overlapping. */
  function ReplacePairs(s: string): string {
    if |s| < 2 then s
    else if s[0] == '-' && s[1] == '-' then "-" + ReplacePairs(s[2..])
    else [s[0]] + ReplacePairs(s[1..])
  }

  /** Each maximal run of hyphens becomes one hyphen. */
  function Squeeze(s: string): string {
    if |s| < 2 then s
    else if s[0] == '-' && s[1] == '-' then Squeeze(s[1..])
    else [s[0]] + Squeeze(s[1..])
  }

  function TrimLeft(s: string): string {
    if s != "" && s[0] == '-' then TrimLeft(s[1..]) else s
  }

  function TrimRight(s: string): string {
    if s != "" && s[|s| - 1] == '-' then TrimRight(s[..|s| - 1]) else s
  }

  function Trim(s: string): string {
    TrimLeft(TrimRight(s))
  }

  // ---------- The replacement loop squeezes ----------

  lemma {:induction false} ReplacePairsHead(s: string)
    ensures s != "" ==> ReplacePairs(s) != "" && ReplacePairs(s)[0] == s[0]
    ensures |ReplacePairs(s)| <= |s|
  {
    if |s| >= 2 {
      if s[0] == '-' && s[1] == '-' {
        ReplacePairsHead(s[2..]);
      } else {
        ReplacePairsHead(s[1..]);
      }
    }
  }

  lemma {:induction false} ReplacePairsShrinks(s: string)
    requires HasDouble(s)
    ensures |ReplacePairs(s)| < |s|
  {
    if s[0] == '-' && s[1] == '-' {
      ReplacePairsHead(s[2..]);
    } else {
      var i, j :| 0 <= i < |s| && j == i + 1 < |s| && s[i] == '-' && s[j] == '-';
      assert s[1..][i - 1] == '-' && s[1..][i] == '-';
      ReplacePairsShrinks(s[1..]);
    }
  }

  /** A hyphen in front of `s` is swallowed when `s` starts with one. */
  lemma SqueezeHyphen(s: string)
    ensures Squeeze("-" + s) == if s != "" && s[0] == '-' then Squeeze(s) else "-" + Squeeze(s)
  {
  }

  /** Replacing pairs does not change what squeezing yields. */
  lemma {:induction false} SqueezeAfterReplace(s: string)
    ensures Squeeze(ReplacePairs(s)) == Squeeze(s)
  {
    if |s| >= 2 {
      if s[0] == '-' && s[1] == '-' {
        var t := s[2..];
        SqueezeAfterReplace(t);
        ReplacePairsHead(t);
        SqueezeHyphen(ReplacePairs(t));
        SqueezeHyphen(t);
        assert s[1..] == "-" + t;
      } else {
        SqueezeAfterReplace(s[1..]);
        ReplacePairsHead(s[1..]);
        assert ([s[0]] + ReplacePairs(s[1..]))[1..] == ReplacePairs(s[1..]);
      }
    }
  }

  lemma {:induction false} SqueezeFixes(s: string)
    requires !HasDouble(s)
    ensures Squeeze(s) == s
  {
    if |s| >= 2 {
      NoDoubleSlice(s, 1, |s|);
      assert s[1..|s|] == s[1..];
      SqueezeFixes(s[1..]);
    }
  }

  lemma NoDoubleSlice(s: string, lo: nat, hi: nat)
    requires lo <= hi <= |s| && !HasDouble(s)
    ensures !HasDouble(s[lo..hi])
  {
  }

  // ---------- One-pass reference definition ----------

  /** One pass over `s`: hyphens are dropped, and one is put back between two characters
      that were separated by some. */
  function OnePass(s: string): string {
    if s == "" then ""
    else
      var front, c := s[..|s| - 1], s[|s| - 1];
      var done := OnePass(front);
      if c == '-' then done
      else if done != "" && front[|front| - 1] == '-' then done + ['-', c]
      else done + [c]
  }

  lemma {:induction false} SqueezeAppend(s: string, c: char)
    ensures Squeeze(s + [c]) == if c == '-' && s != "" && s[|s| - 1] == '-' then Squeeze(s) else Squeeze(s) + [c]
    ensures s != "" ==> Squeeze(s) != "" && Squeeze(s)[|Squeeze(s)| - 1] == s[|s| - 1]
  {
    if |s| >= 2 {
      assert (s + [c])[1..] == s[1..] + [c];
      SqueezeAppend(s[1..], c);
    } else if |s| == 1 {
      assert (s + [c])[1..] == [c];
    } else {
      assert s + [c] == [c];
    }
  }

  lemma {:induction false} SqueezeHasNoDouble(s: string)
    ensures !HasDouble(Squeeze(s))
  {
    if s != "" {
      var front, c := s[..|s| - 1], s[|s| - 1];
      assert s == front + [c];
      SqueezeAppend(front, c);
      SqueezeHasNoDouble(front);
      var q := Squeeze(front);
      if c != '-' || front == "" || front[|front| - 1] != '-' {
        NoDoubleAppend(q, c);
      }
    }
  }

  lemma NoDoubleAppend(q: string, c: char)
    requires !HasDouble(q) && (c != '-' || q == "" || q[|q| - 1] != '-')
    ensures !HasDouble(q + [c])
  {
  }

  lemma {:induction false} TrimLeftAppend(s: string, c: char)
    requires c != '-'
    ensures TrimLeft(s + [c]) == TrimLeft(s) + [c]
  {
    if s != "" && s[0] == '-' {
      assert (s + [c])[1..] == s[1..] + [c];
      TrimLeftAppend(s[1..], c);
    }
  }

  /** Without doubled hyphens, trimming on the right removes at most one. */
  lemma TrimRightOne(q: string)
    requires !HasDouble(q)
    ensures TrimRight(q) == if q != "" && q[|q| - 1] == '-' then q[..|q| - 1] else q
  {
  }

  lemma TrimLeftHyphen(p: string)
    ensures TrimLeft(p + "-") == if TrimLeft(p) == "" then "" else TrimLeft(p) + "-"
  {
    if p != "" && p[0] == '-' {
      assert (p + "-")[1..] == p[1..] + "-";
      TrimLeftHyphen(p[1..]);
    } else if p == "" {
      assert p + "-" == "-";
    }
  }

  /** What trimming yields when a character other than a hyphen is appended. */
  lemma TrimAppend(q: string, c: char)
    requires !HasDouble(q) && c != '-'
    ensures Trim(q + [c]) == if Trim(q) != "" && q[|q| - 1] == '-' then Trim(q) + ['-', c] else Trim(q) + [c]
  {
    TrimLeftAppend(q, c);
    TrimRightOne(q);
    assert TrimRight(q + [c]) == q + [c];
    if q != "" && q[|q| - 1] == '-' {
      var p := q[..|q| - 1];
      assert q == p + "-";
      TrimLeftHyphen(p);
      assert TrimLeft(p) + "-" + [c] == TrimLeft(p) + ['-', c];
    }
  }

  lemma TrimHyphen(q: string)
    ensures Trim(q + "-") == Trim(q)
  {
  }

  /** Squeezing and trimming is the one-pass normalisation. */
  lemma {:induction false} TrimSqueezeIsOnePass(s: string)
    ensures Trim(Squeeze(s)) == OnePass(s)
  {
    if s != "" {
      var front, c := s[..|s| - 1], s[|s| - 1];
      assert s == front + [c];
      TrimSqueezeIsOnePass(front);
      SqueezeAppend(front, c);
      if c == '-' {
        TrimHyphen(Squeeze(front));
      } else {
        SqueezeHasNoDouble(front);
        TrimAppend(Squeeze(front), c);
      }
    }
  }

  // ---------- The slug ----------

  function Normalized(lower: char -> char, name: string): string {
    OnePass(Keep(ReplaceSeparators(ToLower(lower, name))))
  }

  function Shorten(s: string): string {
    if |s| > MAX_DNS_NAME then TrimRight(s[..MAX_DNS_NAME]) else s
  }

  /** The slug of `name`; `random` is the hexadecimal text drawn when nothing is left. */
  function Slug(lower: char -> char, name: string, random: string): string {
    var s := Shorten(Normalized(lower, name));
    if s == "" then "res-" + random else s
  }

  method KeepSlugChars(s: string) returns (r: string)
    ensures r == Keep(s)
  {
    r := "";
    for i := 0 to |s|
      invariant r == Keep(s[..i])
    {
      assert s[..i + 1][..i] == s[..i];
      if IsSlugChar(s[i]) {
        r := r + [s[i]];
      }
    }
    assert s[..|s|] == s;
  }

  /** The loop that replaces pairs of hyphens until there are none. */
  method Collapse(s: string) returns (r: string)
    ensures r == Squeeze(s)
    ensures !HasDouble(r)
  {
    r := s;
    while HasDouble(r)
      invariant Squeeze(r) == Squeeze(s)
      decreases |r|
    {
      ReplacePairsShrinks(r);
      SqueezeAfterReplace(r);
      r := ReplacePairs(r);
    }
    SqueezeFixes(r);
  }

  method GenerateSlug(lower: char -> char, name: string, random: string) returns (slug: string)
    ensures slug == Slug(lower, name, random)
  {
    slug := ReplaceSeparators(ToLower(lower, name));
    slug := KeepSlugChars(slug);
    TrimSqueezeIsOnePass(slug);
    slug := Collapse(slug);
    slug := Trim(slug);
    if |slug| > MAX_DNS_NAME {
      slug := slug[..MAX_DNS_NAME];
      slug := TrimRight(slug);
    }
    if slug == "" {
      slug := "res-" + random;
    }
  }

  // ---------- DNS-safe names ----------

  /** A DNS label: 1 to 63 of `a-z`, `0-9` and `-`, with no hyphen at either end. */
  ghost predicate IsLabel(s: string) {
    && 1 <= |s| <= MAX_DNS_NAME
    && (forall i :: 0 <= i < |s| ==> IsSlugChar(s[i]))
    && s[0] != '-' && s[|s| - 1] != '-'
  }

  datatype NameError = TooShort | ControlCharacter | Unsafe | TooLong | NotAlphanumeric | NotDnsSafe

  datatype Verdict = Accepted | Rejected(error: NameError)

  predicate IsControl(c: char) {
    c < ' ' || '\U{7f}' <= c <= '\U{9f}'
  }

  function Utf8Length(s: string): nat {
    if s == "" then 0
    else
      var c := s[0];
      (if c < '\U{80}' then 1 else if c < '\U{800}' then 2 else if c < '\U{10000}' then 3 else 4) + Utf8Length(s[1..])
  }

  /** The pattern `^[a-z0-9][a-z0-9\-]{0,61}[a-z0-9]$`. */
  predicate MatchesDnsPattern(s: string) {
    && 2 <= |s| <= 63
    && IsAlnum(s[0]) && IsAlnum(s[|s| - 1])
    && forall i :: 1 <= i < |s| - 1 ==> IsSlugChar(s[i])
  }

  /** The control characters, and how many bytes UTF-8 takes for a character. */
  lemma CodePointsAre(c: char)
    ensures IsControl(c) <==> c as int <= 0x1f || 0x7f <= c as int <= 0x9f
    ensures Utf8Length([c]) == 1 <==> c as int <= 0x7f
    ensures Utf8Length([c]) == 2 <==> 0x80 <= c as int <= 0x7ff
    ensures Utf8Length([c]) == 3 <==> 0x800 <= c as int <= 0xffff
    ensures Utf8Length([c]) <= 4
  {
  }

  lemma {:induction false} Utf8Concat(s: string, t: string)
    ensures Utf8Length(s + t) == Utf8Length(s) + Utf8Length(t)
  {
    if s == "" {
      assert s + t == t;
    } else {
      assert (s + t)[1..] == s[1..] + t;
      Utf8Concat(s[1..], t);
    }
  }

  lemma {:induction false} AsciiLength(s: string)
    ensures Utf8Length(s) >= |s|
    ensures (forall i :: 0 <= i < |s| ==> IsSlugChar(s[i])) ==> Utf8Length(s) == |s|
  {
    if s != "" {
      AsciiLength(s[1..]);
    }
  }

  lemma LowerKeepsLabels(lower: char -> char, s: string)
    requires FixesSlugChars(lower) && IsLabel(s)
    ensures ToLower(lower, s) == s
    ensures !ContainsText(s, "<script") && !ContainsText(s, "javascript:")
  {
    forall i: nat ensures !TextAt(s, "<script", i) && !TextAt(s, "javascript:", i) {
      assert "<script"[0] == '<' && "javascript:"[10] == ':';
    }
  }

  predicate HasControl(s: string) {
    exists i :: 0 <= i < |s| && IsControl(s[i])
  }

  predicate IsUnsafe(s: string) {
    ContainsText(s, "<script") || ContainsText(s, "javascript:")
  }

  /** DNS-safe validation accepts exactly the DNS labels, and rejects the others for the first reason
      that applies. */
  method ValidateDnsName(lower: char -> char, name: string) returns (v: Verdict)
    requires FixesSlugChars(lower)
    ensures v == Accepted <==> IsLabel(name)
    ensures v == Rejected(TooShort) <==> name == ""
    ensures v == Rejected(ControlCharacter) <==> HasControl(name)
    ensures v == Rejected(Unsafe) <==> !HasControl(name) && IsUnsafe(ToLower(lower, name))
    ensures v == Rejected(TooLong) <==> !HasControl(name) && !IsUnsafe(ToLower(lower, name)) && Utf8Length(name) > 63
    ensures v == Rejected(NotAlphanumeric) <==> Utf8Length(name) == 1 && !HasControl(name) && !IsAlnum(name[0])
  {
    if |name| < 1 {
      return Rejected(TooShort);
    }
    for i := 0 to |name|
      invariant forall j :: 0 <= j < i ==> !IsControl(name[j])
    {
      if IsControl(name[i]) {
        assert !IsSlugChar(name[i]);
        return Rejected(ControlCharacter);
      }
    }
    if IsLabel(name) {
      LowerKeepsLabels(lower, name);
    }
    var lowered := ToLower(lower, name);
    if ContainsText(lowered, "<script") || ContainsText(lowered, "javascript:") {
      return Rejected(Unsafe);
    }
    AsciiLength(name);
    if Utf8Length(name) > MAX_DNS_NAME {
      return Rejected(TooLong);
    }
    if Utf8Length(name) == 1 {
      if IsAlnum(name[0]) {
        return Accepted;
      }
      return Rejected(NotAlphanumeric);
    }
    return if MatchesDnsPattern(name) then Accepted else Rejected(NotDnsSafe);
  }

  // ---------- Slugs are labels, and fixed points ----------

  /** What slug generation produces: labels without doubled hyphens. */
  ghost predicate IsSlug(s: string) {
    IsLabel(s) && !HasDouble(s)
  }

  /** Slug characters only, no doubled hyphen and none at the ends. */
  ghost predicate IsTidy(s: string) {
    && (forall i :: 0 <= i < |s| ==> IsSlugChar(s[i]))
    && !HasDouble(s)
    && (s != "" ==> s[0] != '-' && s[|s| - 1] != '-')
  }

  lemma {:induction false} OnePassIsTidy(s: string)
    requires forall i :: 0 <= i < |s| ==> IsSlugChar(s[i])
    ensures IsTidy(OnePass(s))
  {
    if s != "" {
      var front, c := s[..|s| - 1], s[|s| - 1];
      OnePassIsTidy(front);
      var done := OnePass(front);
      if c != '-' {
        NoDoubleAppend(done, c);
        if done != "" {
          NoDoubleAppend(done, '-');
          NoDoubleAppend(done + "-", c);
          assert done + "-" + [c] == done + ['-', c];
        }
      }
    }
  }

  lemma {:induction false} TidyFixesOnePass(s: string)
    requires !HasDouble(s) && (s != "" ==> s[0] != '-')
    ensures OnePass(s) == if s != "" && s[|s| - 1] == '-' then s[..|s| - 1] else s
  {
    if s != "" {
      var front := s[..|s| - 1];
      NoDoubleSlice(s, 0, |s| - 1);
      assert s[0..|s| - 1] == front;
      TidyFixesOnePass(front);
      if front != "" && front[|front| - 1] == '-' {
        assert s[|s| - 1] != '-';
        assert front[..|front| - 1] + ['-', s[|s| - 1]] == s;
      }
    }
  }

  lemma ShortenIsTidy(s: string)
    requires IsTidy(s)
    ensures IsTidy(Shorten(s)) && |Shorten(s)| <= MAX_DNS_NAME
    ensures s != "" ==> Shorten(s) != ""
  {
    if |s| > MAX_DNS_NAME {
      var cut := s[..MAX_DNS_NAME];
      NoDoubleSlice(s, 0, MAX_DNS_NAME);
      assert s[0..MAX_DNS_NAME] == cut;
      TrimRightOne(cut);
      NoDoubleSlice(s, 0, MAX_DNS_NAME - 1);
      assert s[0..MAX_DNS_NAME - 1] == cut[..MAX_DNS_NAME - 1];
      if cut[MAX_DNS_NAME - 1] == '-' {
        assert s[MAX_DNS_NAME - 2] != '-';
      }
    }
  }

  predicate IsRandomText(random: string) {
    |random| == 12 && forall i :: 0 <= i < 12 ==> '0' <= random[i] <= '9' || 'a' <= random[i] <= 'f'
  }

  /** Every generated slug is a DNS label without doubled hyphens. */
  lemma SlugIsSlug(lower: char -> char, name: string, random: string)
    requires IsRandomText(random)
    ensures IsSlug(Slug(lower, name, random))
  {
    var kept := Keep(ReplaceSeparators(ToLower(lower, name)));
    OnePassIsTidy(kept);
    ShortenIsTidy(OnePass(kept));
    if Shorten(OnePass(kept)) == "" {
      var s := "res-" + random;
      assert forall i :: 4 <= i < |s| ==> s[i] == random[i - 4];
    }
  }

  lemma {:induction false} KeepFixes(s: string)
    requires forall i :: 0 <= i < |s| ==> IsSlugChar(s[i])
    ensures Keep(s) == s
  {
    if s != "" {
      KeepFixes(s[..|s| - 1]);
    }
  }

  /** The names that slug generation leaves alone are exactly the slugs. */
  lemma SlugFixesExactly(lower: char -> char, name: string, random: string)
    requires FixesSlugChars(lower) && IsRandomText(random)
    ensures Slug(lower, name, random) == name <==> IsSlug(name)
  {
    SlugIsSlug(lower, name, random);
    if IsSlug(name) {
      assert ReplaceSeparators(ToLower(lower, name)) == name;
      KeepFixes(name);
      TidyFixesOnePass(name);
    }
  }

  lemma SlugOfKept(lower: char -> char, name: string, s: string, random: string)
    requires Keep(ReplaceSeparators(ToLower(lower, name))) == s && IsSlug(s)
    ensures Slug(lower, name, random) == s
  {
    TidyFixesOnePass(s);
  }

  lemma JoinIsSlug(a: string, mid: string, b: string)
    requires IsSlug(a) && IsSlug(b) && (mid == "" || mid == "-") && |a| + |mid| + |b| <= MAX_DNS_NAME
    ensures IsSlug(a + mid + b) && Keep(a + mid + b) == a + mid + b
  {
    NoDoubleJoin(a, mid, b);
    KeepFixes(a + mid + b);
  }

  /** Two slugs with any separator between them become one slug with a hyphen between them. */
  lemma SlugOfTwoWords(lower: char -> char, a: string, c: char, b: string, random: string)
    requires FixesSlugChars(lower) && lower(c) == c && IsSeparator(c)
    requires IsSlug(a) && IsSlug(b) && |a| + 1 + |b| <= MAX_DNS_NAME
    ensures Slug(lower, a + [c] + b, random) == a + "-" + b
  {
    assert ReplaceSeparators(ToLower(lower, a + [c] + b)) == a + "-" + b;
    JoinIsSlug(a, "-", b);
    SlugOfKept(lower, a + [c] + b, a + "-" + b, random);
  }

  /** A character that is neither a separator nor fit for a slug is left out. */
  lemma SlugDropsOthers(lower: char -> char, a: string, c: char, b: string, random: string)
    requires FixesSlugChars(lower) && lower(c) == c && !IsSeparator(c) && !IsSlugChar(c)
    requires IsSlug(a) && IsSlug(b) && |a| + |b| <= MAX_DNS_NAME
    ensures Slug(lower, a + [c] + b, random) == a + b
  {
    assert ReplaceSeparators(ToLower(lower, a + [c] + b)) == a + [c] + b;
    KeepDrops(a, c, b);
    assert a + "" + b == a + b;
    JoinIsSlug(a, "", b);
    SlugOfKept(lower, a + [c] + b, a + b, random);
  }

  lemma NoDoubleJoin(a: string, mid: string, b: string)
    requires IsSlug(a) && IsSlug(b) && (mid == "" || mid == "-")
    ensures !HasDouble(a + mid + b)
  {
  }

  lemma {:induction false} KeepDrops(a: string, c: char, b: string)
    requires !IsSlugChar(c)
    ensures Keep(a + [c] + b) == Keep(a + b)
  {
    if b == "" {
      assert (a + [c] + b)[..|a|] == a && a + b == a;
    } else {
      var front := b[..|b| - 1];
      assert (a + [c] + b)[..|a| + |b|] == a + [c] + front && (a + b)[..|a| + |b| - 1] == a + front;
      KeepDrops(a, c, front);
    }
  }

  /** The characters of a label, and the five separators. */
  lemma CharactersAre(c: char)
    ensures IsSlugChar(c) <==> c in "abcdefghijklmnopqrstuvwxyz0123456789-"
    ensures IsSeparator(c) <==> c in " _./\\"
  {
  }

  /** A longer label is cut at 63 characters, and a hyphen then left at its end is dropped. */
  lemma LongSlugIsCut(lower: char -> char, name: string, random: string)
    requires FixesSlugChars(lower) && IsTidy(name) && |name| > 63
    ensures Slug(lower, name, random) == if name[62] == '-' then name[..62] else name[..63]
  {
    assert ReplaceSeparators(ToLower(lower, name)) == name;
    KeepFixes(name);
    TidyFixesOnePass(name);
    NoDoubleSlice(name, 0, 63);
    assert name[0..63] == name[..63];
    TrimRightOne(name[..63]);
    assert name[..63][..62] == name[..62];
  }

  /** The one-pass text holds the characters of `s` that are not hyphens. */
  lemma {:induction false} OnePassEmpty(s: string)
    ensures OnePass(s) == "" <==> forall i :: 0 <= i < |s| ==> s[i] == '-'
  {
    if s != "" {
      OnePassEmpty(s[..|s| - 1]);
    }
  }

  lemma {:induction false} KeepHolds(s: string)
    ensures (forall i :: 0 <= i < |Keep(s)| ==> Keep(s)[i] == '-') <==> forall i :: 0 <= i < |s| ==> !IsAlnum(s[i])
  {
    if s != "" {
      var front, c := s[..|s| - 1], s[|s| - 1];
      KeepHolds(front);
      assert forall i :: 0 <= i < |front| ==> s[i] == front[i];
      assert forall i :: 0 <= i < |Keep(front)| ==> Keep(s)[i] == Keep(front)[i];
      if IsAlnum(c) {
        assert Keep(s)[|Keep(front)|] == c && s[|front|] == c;
      }
    }
  }

  /** A name gets the random slug exactly when none of its characters is a letter or digit once in
      lower case. */
  lemma FallbackExactly(lower: char -> char, name: string, random: string)
    ensures Normalized(lower, name) == "" <==> forall i :: 0 <= i < |name| ==> !IsAlnum(lower(name[i]))
    ensures Normalized(lower, name) == "" ==> Slug(lower, name, random) == "res-" + random
    ensures Normalized(lower, name) != "" ==> Slug(lower, name, random) == Shorten(Normalized(lower, name))
  {
    var s := ReplaceSeparators(ToLower(lower, name));
    KeepHolds(s);
    OnePassEmpty(Keep(s));
    OnePassIsTidy(Keep(s));
    ShortenIsTidy(OnePass(Keep(s)));
    assert forall i :: 0 <= i < |s| ==> (IsAlnum(s[i]) <==> IsAlnum(lower(name[i])));
  }

  /** Slug generation is idempotent, whatever random text either call draws. */
  lemma SlugIdempotent(lower: char -> char, name: string, random: string, random': string)
    requires FixesSlugChars(lower) && IsRandomText(random) && IsRandomText(random')
    ensures Slug(lower, Slug(lower, name, random), random') == Slug(lower, name, random)
  {
    SlugIsSlug(lower, name, random);
    SlugFixesExactly(lower, Slug(lower, name, random), random');
  }
}
