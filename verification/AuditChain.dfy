/**
  The audit log's hash chain: recording one entry after another, and verifying a stored
  log. The digest and the keyed signature are arbitrary functions on strings; what is
  assumed of the digest is stated where it is needed.
 */
module AuditChain {
  import opened Text

  /** What is recorded about an event. The fields before `detail` enter the digest. */
  datatype Event = Event(timestamp: string, eventType: string, actorID: string, actorName: string,
                         resourceType: string, resourceID: string, action: string, result: string, detail: string)

  datatype Entry = Entry(event: Event, sequence: int, previousHash: string, hash: string, signature: string)

  datatype Crypto = Crypto(digest: string -> string, sign: string -> string)

  const GENESIS := "genesis"

  function DigestPrefix(e: Event): string {
    e.timestamp + "|" + e.eventType + "|" + e.actorID + "|" + e.actorName + "|" +
    e.resourceType + "|" + e.resourceID + "|" + e.action + "|" + e.result
  }

  function DigestInput(e: Event, previousHash: string): string {
    DigestPrefix(e) + "|" + previousHash
  }

  /** The fields of an event that enter the digest, with the hash before it. */
  function DigestedFields(e: Event, previousHash: string): seq<string> {
    [e.timestamp, e.eventType, e.actorID, e.actorName, e.resourceType, e.resourceID, e.action, e.result, previousHash]
  }

  lemma DigestInputJoins(e: Event, previousHash: string)
    ensures DigestInput(e, previousHash) == Join(DigestedFields(e, previousHash), '|')
  {
    var f := DigestedFields(e, previousHash);
    var a := f[0];
    JoinAfter(a, f[1], f[2..], '|');
    a := a + "|" + f[1];
    JoinAfter(a, f[2], f[3..], '|');
    a := a + "|" + f[2];
    JoinAfter(a, f[3], f[4..], '|');
    a := a + "|" + f[3];
    JoinAfter(a, f[4], f[5..], '|');
    a := a + "|" + f[4];
    JoinAfter(a, f[5], f[6..], '|');
    a := a + "|" + f[5];
    JoinAfter(a, f[6], f[7..], '|');
    a := a + "|" + f[6];
    JoinAfter(a, f[7], f[8..], '|');
    assert Join(f, '|') == f[0] + "|" + Join(f[1..], '|');
    assert forall k :: 1 <= k < 8 ==> [f[k]] + f[k + 1..] == f[k..];
  }

  /** Among events without bars, the digest is taken of the same text exactly when the eight fields
      and the previous hash are the same; the detail does not enter it. */
  lemma DigestCoversFields(e: Event, p: string, f: Event, q: string)
    requires AllFree(DigestedFields(e, p), '|') && AllFree(DigestedFields(f, q), '|')
    ensures DigestInput(e, p) == DigestInput(f, q) <==> f == e.(detail := f.detail) && p == q
  {
    var a, b := DigestedFields(e, p), DigestedFields(f, q);
    DigestInputJoins(e, p);
    DigestInputJoins(f, q);
    SplitJoinAll(a, '|', 9);
    SplitJoinAll(b, '|', 9);
    if DigestInput(e, p) == DigestInput(f, q) {
      assert a == b;
      assert a[0] == b[0] && a[1] == b[1] && a[2] == b[2] && a[3] == b[3] && a[4] == b[4];
      assert a[5] == b[5] && a[6] == b[6] && a[7] == b[7] && a[8] == b[8];
    }
  }

  // ---------- Recording ----------

  /** One call to record an event: the previous entry may not be readable, and the new row
      may not be stored. */
  datatype Attempt = Attempt(event: Event, lookupFails: bool, createFails: bool)

  function MakeEntry(c: Crypto, e: Event, previousHash: string, sequence: int): Entry {
    var hash := c.digest(DigestInput(e, previousHash));
    Entry(e, sequence, previousHash, hash, c.sign(hash))
  }

  function Append(c: Crypto, log: seq<Entry>, a: Attempt, sequence: int): seq<Entry> {
    var previousHash := if log == [] || a.lookupFails then GENESIS else log[|log| - 1].hash;
    if a.createFails then log else log + [MakeEntry(c, a.event, previousHash, sequence)]
  }

  /** The stored log after a series of attempts; row numbers grow with each attempt. */
  function Log(c: Crypto, attempts: seq<Attempt>): seq<Entry> {
    if attempts == [] then []
    else
      var n := |attempts| - 1;
      Append(c, Log(c, attempts[..n]), attempts[n], n)
  }

  class AuditService {
    const crypto: Crypto
    var logs: seq<Entry>
    var nextSequence: int
    ghost var history: seq<Attempt>

    /** The table is what the attempts so far leave, in the order of the sequence numbers. */
    ghost predicate Valid()
      reads this
    {
      && logs == Log(crypto, history) && nextSequence == |history|
      && (forall i, j :: 0 <= i < j < |logs| ==> logs[i].sequence < logs[j].sequence)
      && (forall i :: 0 <= i < |logs| ==> logs[i].sequence < nextSequence)
    }

    constructor (c: Crypto)
      ensures Valid() && crypto == c && history == []
    {
      crypto, logs, nextSequence, history := c, [], 0, [];
    }

    method RecordEvent(a: Attempt)
      requires Valid()
      modifies this
      ensures Valid() && history == old(history) + [a]
      ensures logs == Append(crypto, old(logs), a, old(nextSequence))
    {
      var previousHash := GENESIS;
      if !a.lookupFails && logs != [] {
        previousHash := logs[|logs| - 1].hash;
      }
      var hash := crypto.digest(DigestInput(a.event, previousHash));
      var entry := Entry(a.event, nextSequence, previousHash, hash, crypto.sign(hash));
      nextSequence := nextSequence + 1;
      if !a.createFails {
        logs := logs + [entry];
      }
      history := history + [a];
      assert history[..|history| - 1] == old(history);
    }

    /** Checks the first `limit` rows, or all of them when `limit` is negative. */
    method VerifyChain(limit: int) returns (intact: bool, verified: nat, reason: Reason)
      ensures intact <==> ChainOk(crypto, Window(logs, limit))
      ensures verified <= |Window(logs, limit)| && ChainOk(crypto, Window(logs, limit)[..verified])
      ensures intact ==> verified == |Window(logs, limit)|
      ensures reason == NoLogs <==> Window(logs, limit) == []
      ensures reason == ChainIntact <==> intact && Window(logs, limit) != []
      ensures !intact ==> verified < |Window(logs, limit)| && FaultAt(crypto, Window(logs, limit), verified, reason)
    {
      var rows := Window(logs, limit);
      if rows == [] {
        return true, 0, NoLogs;
      }
      for i := 0 to |rows|
        invariant ChainOk(crypto, rows[..i])
      {
        if rows[i].signature != crypto.sign(rows[i].hash) {
          assert !EntryOk(crypto, rows, i);
          return false, i, SignatureMismatch(rows[i].sequence);
        }
        if i > 0 && rows[i].previousHash != rows[i - 1].hash {
          assert !EntryOk(crypto, rows, i);
          return false, i, ChainBroken(rows[i].sequence);
        }
        ChainOkNext(crypto, rows, i);
      }
      assert rows[..|rows|] == rows;
      return true, |rows|, ChainIntact;
    }
  }

  // ---------- Verifying ----------

  datatype Reason = NoLogs | SignatureMismatch(sequence: int) | ChainBroken(sequence: int) | ChainIntact

  function Window(log: seq<Entry>, limit: int): seq<Entry> {
    if 0 <= limit < |log| then log[..limit] else log
  }

  /** The window is the first `limit` rows, or all rows when there are fewer or the limit is negative. */
  lemma WindowIsFirst(log: seq<Entry>, limit: int)
    ensures Window(log, limit) <= log
    ensures |Window(log, limit)| == if limit < 0 || limit > |log| then |log| else limit
  {
  }

  /** Entry `i` carries the signature of its hash and links to the entry before it. */
  predicate EntryOk(c: Crypto, rows: seq<Entry>, i: nat)
    requires i < |rows|
  {
    rows[i].signature == c.sign(rows[i].hash) && (i > 0 ==> rows[i].previousHash == rows[i - 1].hash)
  }

  ghost predicate ChainOk(c: Crypto, rows: seq<Entry>) {
    forall i :: 0 <= i < |rows| ==> EntryOk(c, rows, i)
  }

  /** The reason describes the fault of entry `i`; a bad signature is reported first. */
  ghost predicate FaultAt(c: Crypto, rows: seq<Entry>, i: nat, reason: Reason)
    requires i < |rows|
  {
    if rows[i].signature != c.sign(rows[i].hash) then reason == SignatureMismatch(rows[i].sequence)
    else reason == ChainBroken(rows[i].sequence) && i > 0 && rows[i].previousHash != rows[i - 1].hash
  }

  lemma ChainOkNext(c: Crypto, rows: seq<Entry>, i: nat)
    requires i < |rows| && ChainOk(c, rows[..i])
    ensures ChainOk(c, rows[..i + 1]) <==> EntryOk(c, rows, i)
  {
    var next := rows[..i + 1];
    forall k | 0 <= k < i ensures EntryOk(c, next, k) {
      assert EntryOk(c, rows[..i], k);
    }
    assert EntryOk(c, next, i) <==> EntryOk(c, rows, i);
  }

  lemma ChainOkPrefix(c: Crypto, rows: seq<Entry>, n: nat)
    requires n <= |rows| && ChainOk(c, rows)
    ensures ChainOk(c, rows[..n])
  {
    forall k | 0 <= k < n ensures EntryOk(c, rows[..n], k) {
      assert EntryOk(c, rows, k);
    }
  }

  // ---------- Recorded logs verify ----------

  /** Every hash in the log is a string of hexadecimal digits, as a digest is. */
  ghost predicate HexHashes(log: seq<Entry>) {
    forall i :: 0 <= i < |log| ==> IsHex(log[i].hash)
  }

  predicate IsHex(s: string) {
    forall i :: 0 <= i < |s| ==> '0' <= s[i] <= '9' || 'a' <= s[i] <= 'f'
  }

  lemma HexIsNotGenesis(s: string)
    requires IsHex(s)
    ensures s != GENESIS && '|' !in s
  {
    assert GENESIS[0] == 'g';
  }

  /** Some event was stored with the previous entry unread although there was one. */
  ghost predicate LosesLink(c: Crypto, attempts: seq<Attempt>) {
    exists k :: 0 <= k < |attempts| && LostAt(c, attempts, k)
  }

  ghost predicate LostAt(c: Crypto, attempts: seq<Attempt>, k: nat)
    requires k < |attempts|
  {
    attempts[k].lookupFails && !attempts[k].createFails && Log(c, attempts[..k]) != []
  }

  /** Every entry is signed, and holds the digest of its own fields. */
  ghost predicate WellMade(c: Crypto, x: Entry) {
    x == MakeEntry(c, x.event, x.previousHash, x.sequence)
  }

  lemma LostAtFront(c: Crypto, attempts: seq<Attempt>, k: nat, n: nat)
    requires k < n <= |attempts|
    ensures LostAt(c, attempts[..n], k) <==> LostAt(c, attempts, k)
  {
    assert attempts[..n][..k] == attempts[..k];
  }

  lemma LosesLinkLast(c: Crypto, attempts: seq<Attempt>)
    requires attempts != []
    ensures LosesLink(c, attempts) <==>
            LosesLink(c, attempts[..|attempts| - 1]) || LostAt(c, attempts, |attempts| - 1)
  {
    var n := |attempts| - 1;
    forall k | 0 <= k < n ensures LostAt(c, attempts[..n], k) <==> LostAt(c, attempts, k) {
      LostAtFront(c, attempts, k, n);
    }
    if LosesLink(c, attempts[..n]) {
      var k :| 0 <= k < n && LostAt(c, attempts[..n], k);
      assert LostAt(c, attempts, k);
    }
  }

  /** Storing an event keeps the chain whole exactly when it links to the last entry. */
  lemma AppendVerifies(c: Crypto, log: seq<Entry>, a: Attempt, sequence: int)
    requires HexHashes(log) && !a.createFails
    ensures ChainOk(c, Append(c, log, a, sequence)) <==> ChainOk(c, log) && !(a.lookupFails && log != [])
  {
    var next := Append(c, log, a, sequence);
    assert next[..|log|] == log && next[..|log| + 1] == next;
    if ChainOk(c, next) {
      ChainOkPrefix(c, next, |log|);
    }
    if ChainOk(c, log) {
      ChainOkNext(c, next, |log|);
      if log != [] {
        HexIsNotGenesis(log[|log| - 1].hash);
      }
    }
  }

  /** The chain of a recorded log is whole exactly when no stored event lost its link. */
  lemma {:induction false} LogVerifiesExactly(c: Crypto, attempts: seq<Attempt>)
    requires HexHashes(Log(c, attempts))
    ensures ChainOk(c, Log(c, attempts)) <==> !LosesLink(c, attempts)
  {
    if attempts != [] {
      var n := |attempts| - 1;
      var before, log, a := Log(c, attempts[..n]), Log(c, attempts), attempts[n];
      LosesLinkLast(c, attempts);
      assert before <= log;
      assert forall i :: 0 <= i < |before| ==> before[i] == log[i];
      LogVerifiesExactly(c, attempts[..n]);
      if !a.createFails {
        AppendVerifies(c, before, a, n);
      }
    }
  }

  /** An event recorded while the previous entry cannot be read breaks the chain of two. */
  lemma LostLinkDetected(c: Crypto, e: Event, f: Event) returns (attempts: seq<Attempt>)
    requires IsHex(c.digest(DigestInput(e, GENESIS))) && IsHex(c.digest(DigestInput(f, GENESIS)))
    ensures attempts == [Attempt(e, false, false), Attempt(f, true, false)]
    ensures LosesLink(c, attempts) && |Log(c, attempts)| == 2 && !ChainOk(c, Log(c, attempts))
  {
    attempts := [Attempt(e, false, false), Attempt(f, true, false)];
    assert attempts[..1] == [attempts[0]] && attempts[..1][..0] == [];
    assert Log(c, attempts[..1]) == [MakeEntry(c, e, GENESIS, 0)];
    assert Log(c, attempts) == [MakeEntry(c, e, GENESIS, 0), MakeEntry(c, f, GENESIS, 1)];
    assert LostAt(c, attempts, 1);
    LogVerifiesExactly(c, attempts);
  }

  /** A log recorded without losing a link verifies under every limit, failed inserts included. */
  lemma RecordedLogVerifies(c: Crypto, attempts: seq<Attempt>, limit: int)
    requires !LosesLink(c, attempts)
    ensures ChainOk(c, Window(Log(c, attempts), limit))
  {
    LogRecorded(c, attempts);
    assert ChainOk(c, Log(c, attempts));
    if 0 <= limit < |Log(c, attempts)| {
      ChainOkPrefix(c, Log(c, attempts), limit);
    }
  }

  // ---------- What verifies is a stretch of the recorded log ----------

  /** No two different inputs digested for this log have the same digest. */
  ghost predicate CollisionFree(c: Crypto, log: seq<Entry>) {
    forall i, j :: 0 <= i < |log| && 0 <= j < |log| && log[i].hash == log[j].hash ==>
      DigestInput(log[i].event, log[i].previousHash) == DigestInput(log[j].event, log[j].previousHash)
  }

  /** The part of a string behind its last bar is determined by the string. */
  lemma LastFieldUnique(a: string, p: string, b: string, q: string)
    requires a + "|" + p == b + "|" + q
    requires '|' !in p && '|' !in q
    ensures p == q
  {
    var s := a + "|" + p;
    assert s[|a|] == '|' && s[|b|] == '|';
    assert p == s[|a| + 1..] && q == s[|b| + 1..];
  }

  /** A log as recording leaves it: made entries, linked from the first one on. */
  ghost predicate Recorded(c: Crypto, log: seq<Entry>) {
    && (forall i :: 0 <= i < |log| ==> WellMade(c, log[i]))
    && (forall i, j :: 0 <= i && j == i + 1 < |log| ==> log[j].previousHash == log[i].hash)
    && (log != [] ==> log[0].previousHash == GENESIS)
  }

  lemma {:induction false} LogRecorded(c: Crypto, attempts: seq<Attempt>)
    requires !LosesLink(c, attempts)
    ensures Recorded(c, Log(c, attempts))
  {
    if attempts != [] {
      LosesLinkLast(c, attempts);
      LogRecorded(c, attempts[..|attempts| - 1]);
    }
  }

  /** Equal hashes come from entries with equal predecessors. */
  lemma SameHashSamePrevious(c: Crypto, log: seq<Entry>, i: nat, j: nat)
    requires Recorded(c, log) && HexHashes(log) && CollisionFree(c, log)
    requires i < |log| && j < |log| && log[i].hash == log[j].hash
    ensures log[i].previousHash == log[j].previousHash
  {
    PreviousHasNoBar(c, log, i);
    PreviousHasNoBar(c, log, j);
    LastFieldUnique(DigestPrefix(log[i].event), log[i].previousHash, DigestPrefix(log[j].event), log[j].previousHash);
  }

  lemma PreviousHasNoBar(c: Crypto, log: seq<Entry>, i: nat)
    requires Recorded(c, log) && HexHashes(log) && i < |log|
    ensures '|' !in log[i].previousHash
    ensures log[i].previousHash == GENESIS <==> i == 0
  {
    if i > 0 {
      assert log[i].previousHash == log[i - 1].hash;
      HexIsNotGenesis(log[i - 1].hash);
    }
  }

  lemma {:induction false} HashesDistinct(c: Crypto, log: seq<Entry>, i: nat, j: nat)
    requires Recorded(c, log) && HexHashes(log) && CollisionFree(c, log)
    requires i < j < |log|
    ensures log[i].hash != log[j].hash
  {
    if log[i].hash == log[j].hash {
      SameHashSamePrevious(c, log, i, j);
      PreviousHasNoBar(c, log, i);
      PreviousHasNoBar(c, log, j);
      assert i > 0;
      assert log[i].previousHash == log[i - 1].hash && log[j].previousHash == log[j - 1].hash;
      HashesDistinct(c, log, i - 1, j - 1);
    }
  }

  /** The only entry that links to entry `i` is the next one. */
  lemma LinkedIsNext(c: Crypto, log: seq<Entry>, i: nat, j: nat)
    requires Recorded(c, log) && HexHashes(log) && CollisionFree(c, log)
    requires i < |log| && j < |log| && log[j].previousHash == log[i].hash
    ensures j == i + 1
  {
    HexIsNotGenesis(log[i].hash);
    PreviousHasNoBar(c, log, j);
    assert log[j].previousHash == log[j - 1].hash;
    if i < j - 1 {
      HashesDistinct(c, log, i, j - 1);
    } else if j - 1 < i {
      HashesDistinct(c, log, j - 1, i);
    }
  }

  ghost predicate LinksOnlyToNext(log: seq<Entry>) {
    forall i, j :: 0 <= i < |log| && 0 <= j < |log| && log[j].previousHash == log[i].hash ==> j == i + 1
  }

  /** `rows` is the stretch of `log` that begins at `at`. */
  ghost predicate StretchAt(log: seq<Entry>, rows: seq<Entry>, at: nat) {
    at + |rows| <= |log| && rows == log[at..at + |rows|]
  }

  lemma LastOfStretch(log: seq<Entry>, rows: seq<Entry>, at: nat)
    requires StretchAt(log, rows, at) && rows != []
    ensures rows[|rows| - 1] == log[at + |rows| - 1]
  {
  }

  lemma StretchExtends(log: seq<Entry>, rows: seq<Entry>, at: nat)
    requires rows != [] && StretchAt(log, rows[..|rows| - 1], at)
    requires at + |rows| <= |log| && log[at + |rows| - 1] == rows[|rows| - 1]
    ensures StretchAt(log, rows, at)
  {
  }

  /** In a verified sequence of recorded entries, each is the successor of the one before. */
  lemma {:induction false} VerifiedFrom(c: Crypto, log: seq<Entry>, rows: seq<Entry>) returns (at: nat)
    requires LinksOnlyToNext(log)
    requires rows != [] && ChainOk(c, rows)
    requires forall x :: x in rows ==> x in log
    ensures StretchAt(log, rows, at)
    decreases |rows|
  {
    var k := |rows| - 1;
    assert rows[k] in log;
    var j :| 0 <= j < |log| && log[j] == rows[k];
    if k == 0 {
      at := j;
    } else {
      ChainOkPrefix(c, rows, k);
      at := VerifiedFrom(c, log, rows[..k]);
      assert EntryOk(c, rows, k);
      LastOfStretch(log, rows[..k], at);
      assert j == at + k;
      StretchExtends(log, rows, at);
    }
  }

  lemma StretchVerifies(c: Crypto, log: seq<Entry>, rows: seq<Entry>, at: nat)
    requires ChainOk(c, log) && StretchAt(log, rows, at)
    ensures ChainOk(c, rows)
  {
    forall k | 0 <= k < |rows| ensures EntryOk(c, rows, k) {
      assert EntryOk(c, log, at + k);
    }
  }

  /** A sequence of recorded entries verifies exactly when it is a stretch of the recorded log,
      in order, without gaps and without repeats. */
  lemma VerifiedIsStretch(c: Crypto, attempts: seq<Attempt>, rows: seq<Entry>)
    requires !LosesLink(c, attempts)
    requires HexHashes(Log(c, attempts)) && CollisionFree(c, Log(c, attempts))
    requires forall x :: x in rows ==> x in Log(c, attempts)
    ensures ChainOk(c, rows) <==> exists at :: StretchAt(Log(c, attempts), rows, at)
  {
    var log := Log(c, attempts);
    LogRecorded(c, attempts);
    LogVerifiesExactly(c, attempts);
    if rows == [] {
      assert StretchAt(log, rows, 0);
    } else if ChainOk(c, rows) {
      forall i, j | 0 <= i < |log| && 0 <= j < |log| && log[j].previousHash == log[i].hash ensures j == i + 1 {
        LinkedIsNext(c, log, i, j);
      }
      var at := VerifiedFrom(c, log, rows);
    } else if at :| StretchAt(log, rows, at) {
      StretchVerifies(c, log, rows, at);
    }
  }

  /** Rearranging the log is detected. */
  lemma RearrangementDetected(c: Crypto, attempts: seq<Attempt>, rows: seq<Entry>)
    requires !LosesLink(c, attempts)
    requires HexHashes(Log(c, attempts)) && CollisionFree(c, Log(c, attempts))
    requires multiset(rows) == multiset(Log(c, attempts))
    ensures ChainOk(c, rows) <==> rows == Log(c, attempts)
  {
    var log := Log(c, attempts);
    assert forall x :: x in rows <==> x in multiset(rows);
    assert forall x :: x in log <==> x in multiset(log);
    assert |rows| == |multiset(rows)| == |multiset(log)| == |log|;
    VerifiedIsStretch(c, attempts, rows);
    LogVerifiesExactly(c, attempts);
  }

  /** Cutting a stretch out of the middle of the log is detected. */
  lemma GapDetected(c: Crypto, attempts: seq<Attempt>, i: nat, j: nat)
    requires !LosesLink(c, attempts)
    requires HexHashes(Log(c, attempts)) && CollisionFree(c, Log(c, attempts))
    requires 0 < i < j < |Log(c, attempts)|
    ensures !ChainOk(c, Log(c, attempts)[..i] + Log(c, attempts)[j..])
  {
    var log := Log(c, attempts);
    var rows := log[..i] + log[j..];
    LogRecorded(c, attempts);
    HashesDistinct(c, log, i - 1, j - 1);
    assert rows[i] == log[j] && rows[i - 1] == log[i - 1];
    assert log[j].previousHash == log[j - 1].hash;
    assert !EntryOk(c, rows, i);
  }
}
