/**
  What a client receives by following the markers from page to page: when the pages make up
  the sorted table, how many there are, and when they come to an end.
 */
module PageWalks {
  import opened StringOrder
  import opened Pagination
  import opened Sequences
  import opened Wrappers

  /** The pages a client receives, the last one outermost. */
  datatype Walk = Start(page: seq<Row>) | Then(before: Walk, page: seq<Row>)

  /** The request for the page behind `page`. */
  function NextRequest(p: Params, c: string, page: seq<Row>): Params
    requires p.limit >= 1
  {
    p.(marker := BuildResult(page, p, c).nextMarker)
  }

  /** `page` answers the request with the empty marker. */
  ghost predicate Opens(table: set<Row>, p: Params, c: string, page: seq<Row>) {
    Answers(table, PageQuery(p.(marker := ""), c), page)
  }

  /** `page` announces more, and `next` answers the request with the marker it hands out. */
  ghost predicate Follows(table: set<Row>, p: Params, c: string, page: seq<Row>, next: seq<Row>)
    requires p.limit >= 1
  {
    BuildResult(page, p, c).hasMore && Answers(table, PageQuery(NextRequest(p, c, page), c), next)
  }

  ghost predicate IsWalk(table: set<Row>, p: Params, c: string, w: Walk)
    requires p.limit >= 1
  {
    match w
    case Start(page) => Opens(table, p, c, page)
    case Then(before, page) => IsWalk(table, p, c, before) && Follows(table, p, c, before.page, page)
  }

  ghost predicate IsCompleteWalk(table: set<Row>, p: Params, c: string, w: Walk)
    requires p.limit >= 1
  {
    IsWalk(table, p, c, w) && !BuildResult(w.page, p, c).hasMore
  }

  /** The first `limit` rows of each page, in order. */
  function Collected(w: Walk, limit: int): seq<Row> {
    match w
    case Start(page) => First(page, limit)
    case Then(before, page) => Collected(before, limit) + First(page, limit)
  }

  function Pages(w: Walk): nat {
    match w
    case Start(_) => 1
    case Then(before, _) => Pages(before) + 1
  }

  /** `all` begins with the pages of `w`. */
  ghost predicate Extends(all: Walk, w: Walk) {
    all == w || (all.Then? && Extends(all.before, w))
  }

  // ---------- When walks come to an end ----------

  /** No walk has more than `n` pages. */
  ghost predicate Bounded(table: set<Row>, p: Params, c: string, n: nat)
    requires p.limit >= 1
  {
    forall w :: IsWalk(table, p, c, w) ==> Pages(w) <= n
  }

  /** The page announces more, but the request that follows it asks for the first page again. */
  predicate AsksAgain(p: Params, c: string, page: seq<Row>)
    requires p.limit >= 1
  {
    BuildResult(page, p, c).hasMore && (c == "" || BuildResult(page, p, c).nextMarker == "")
  }

  ghost predicate Restarts(table: set<Row>, p: Params, c: string, w: Walk)
    requires p.limit >= 1
  {
    IsWalk(table, p, c, w) && AsksAgain(p, c, w.page)
  }

  /** The pages of `a`, then those of `b`. */
  function Glue(a: Walk, b: Walk): Walk {
    match b
    case Start(page) => Then(a, page)
    case Then(before, page) => Then(Glue(a, before), page)
  }

  lemma {:induction false} GlueIsWalk(table: set<Row>, p: Params, c: string, a: Walk, b: Walk)
    requires p.limit >= 1 && Restarts(table, p, c, a) && IsWalk(table, p, c, b)
    ensures IsWalk(table, p, c, Glue(a, b)) && Glue(a, b).page == b.page
    ensures Pages(Glue(a, b)) == Pages(a) + Pages(b)
  {
    match b
    case Start(page) =>
      assert PageQuery(NextRequest(p, c, a.page), c) == PageQuery(p.(marker := ""), c);
    case Then(before, _) =>
      GlueIsWalk(table, p, c, a, before);
  }

  /** A walk that asks for the first page again can be made as long as one likes. */
  lemma {:induction false} RestartedWalk(table: set<Row>, p: Params, c: string, w: Walk, n: nat) returns (long: Walk)
    requires p.limit >= 1 && Restarts(table, p, c, w)
    ensures IsWalk(table, p, c, long) && Pages(long) >= n
  {
    if n == 0 {
      long := w;
    } else {
      var shorter := RestartedWalk(table, p, c, w, n - 1);
      GlueIsWalk(table, p, c, w, shorter);
      long := Glue(w, shorter);
    }
  }

  /** The rows from which the last page of the walk was taken. */
  ghost function Offered(table: set<Row>, p: Params, c: string, w: Walk): set<Row>
    requires p.limit >= 1
  {
    match w
    case Start(_) => table
    case Then(before, _) => Selected(table, PageQuery(NextRequest(p, c, before.page), c).cursor)
  }

  lemma PageIsOffered(table: set<Row>, p: Params, c: string, w: Walk)
    requires p.limit >= 1 && IsWalk(table, p, c, w)
    ensures forall r :: r in w.page ==> r in Offered(table, p, c, w)
  {
    var rows := Offered(table, p, c, w);
    var q := PageQuery(if w.Start? then p.(marker := "") else NextRequest(p, c, w.before.page), c);
    assert rows == Selected(table, q.cursor);
    var s :| IsListing(rows, q.order, s) && w.page == First(s, q.limit);
    assert forall r :: r in w.page ==> r in s;
  }

  /** The request behind a page leaves out the last row of that page and all rows left out before. */
  lemma OfferedShrinks(table: set<Row>, p: Params, c: string, w: Walk, next: seq<Row>)
    requires p.limit >= 1 && IsWalk(table, p, c, Then(w, next)) && !AsksAgain(p, c, w.page)
    requires w.Start? || !AsksAgain(p, c, w.before.page)
    ensures Offered(table, p, c, Then(w, next)) < Offered(table, p, c, w)
  {
    var up, last := p.sortDir == "asc", w.page[p.limit - 1];
    PageIsOffered(table, p, c, w);
    assert last in w.page;
    forall r | r in Offered(table, p, c, Then(w, next)) ensures r in Offered(table, p, c, w) && r != last {
      PrecedesTotal(up, Column(last, c), Column(r, c));
      if w.Then? {
        PrecedesTransitive(up, BuildResult(w.before.page, p, c).nextMarker, Column(last, c), Column(r, c));
      }
    }
  }

  lemma StrictSubsetSmaller(a: set<Row>, b: set<Row>)
    requires a < b
    ensures |a| < |b|
  {
    var x :| x in b && x !in a;
    SubsetCount(a, b - {x});
  }

  lemma {:induction false} OfferedCount(table: set<Row>, p: Params, c: string, w: Walk)
    requires p.limit >= 1 && IsWalk(table, p, c, w)
    requires forall v :: !Restarts(table, p, c, v)
    ensures Pages(w) + |Offered(table, p, c, w)| <= |table| + 1
  {
    match w
    case Start(_) =>
    case Then(before, page) =>
      assert !Restarts(table, p, c, before);
      assert before.Then? ==> !Restarts(table, p, c, before.before);
      OfferedCount(table, p, c, before);
      OfferedShrinks(table, p, c, before, page);
      StrictSubsetSmaller(Offered(table, p, c, w), Offered(table, p, c, before));
  }

  /** The length of walks is bounded exactly when none of them asks for the first page again. */
  lemma BoundedExactly(table: set<Row>, p: Params, c: string)
    requires p.limit >= 1
    ensures (exists n: nat :: Bounded(table, p, c, n)) <==> forall w :: !Restarts(table, p, c, w)
    ensures (exists n: nat :: Bounded(table, p, c, n)) ==> Bounded(table, p, c, |table| + 1)
  {
    if w :| Restarts(table, p, c, w) {
      forall n: nat ensures !Bounded(table, p, c, n) {
        var long := RestartedWalk(table, p, c, w, n + 1);
      }
    } else {
      forall w | IsWalk(table, p, c, w) ensures Pages(w) <= |table| + 1 {
        OfferedCount(table, p, c, w);
      }
      assert Bounded(table, p, c, |table| + 1);
    }
  }

  /** Where every row has a marker no walk asks for the first page again. */
  lemma MarkedNeverRestarts(table: set<Row>, p: Params, c: string)
    requires p.limit >= 1 && c != "" && forall r :: r in table ==> Column(r, c) != ""
    ensures forall w :: !Restarts(table, p, c, w)
  {
    forall w | IsWalk(table, p, c, w) && BuildResult(w.page, p, c).hasMore ensures !AsksAgain(p, c, w.page) {
      PageIsOffered(table, p, c, w);
      assert w.page[p.limit - 1] in w.page;
    }
  }

  lemma {:induction false} ExtendsBefore(all: Walk, w: Walk)
    requires w.Then? && Extends(all, w)
    ensures Extends(all, w.before)
  {
    if all != w {
      ExtendsBefore(all.before, w);
    }
  }

  lemma AnswerExists(table: set<Row>, p: Params, c: string) returns (answer: seq<Row>)
    requires IsSortedRequest(p, c) && KeysDistinct(p.sortKey, table)
    ensures Answers(table, PageQuery(p, c), answer)
  {
    var q := PageQuery(p, c);
    var rows := Selected(table, q.cursor);
    var s := SortedRows(p.sortDir == "asc", p.sortKey, rows);
    SortedIsListing(rows, p.sortKey, p.sortDir, s);
    answer := First(s, q.limit);
  }

  /** Where lengths are bounded, every walk goes on until it is complete. */
  lemma {:induction false} WalkGoesOn(table: set<Row>, p: Params, c: string, w: Walk, n: nat) returns (all: Walk)
    requires IsSortedRequest(p, c) && KeysDistinct(p.sortKey, table)
    requires Bounded(table, p, c, n) && IsWalk(table, p, c, w)
    ensures IsCompleteWalk(table, p, c, all) && Extends(all, w)
    decreases n - Pages(w)
  {
    if BuildResult(w.page, p, c).hasMore {
      var next := AnswerExists(table, NextRequest(p, c, w.page), c);
      assert IsWalk(table, p, c, Then(w, next));
      all := WalkGoesOn(table, p, c, Then(w, next), n);
      ExtendsBefore(all, Then(w, next));
    } else {
      all := w;
    }
  }

  // ---------- Page boundaries ----------

  /** A page starts at row `k` when all pages before it are full. */
  ghost predicate IsBoundary(k: nat, limit: int)
    requires limit >= 1
  {
    k == 0 || (k >= limit && IsBoundary(k - limit, limit))
  }

  lemma {:induction false} BoundaryGap(j: nat, k: nat, limit: int)
    requires limit >= 1 && IsBoundary(j, limit) && IsBoundary(k, limit) && j < k
    ensures j + limit <= k
  {
    if j > 0 {
      BoundaryGap(j - limit, k - limit, limit);
    }
  }

  /** At each page boundary the marker handed out tells the rows before it from those behind it. */
  ghost predicate Splits(p: Params, c: string, whole: seq<Row>)
    requires p.limit >= 1
  {
    forall k {:trigger IsBoundary(k, p.limit)} :: 0 < k < |whole| && IsBoundary(k, p.limit) ==> SplitsAt(p, c, whole, k)
  }

  /** The row at which the last page of the walk starts when all pages before it are full. */
  function Position(w: Walk, limit: int): nat
    requires limit >= 1
  {
    match w
    case Start(_) => 0
    case Then(before, _) => Position(before, limit) + limit
  }

  lemma {:induction false} PositionIsPages(w: Walk, limit: int)
    requires limit >= 1
    ensures Pages(w) >= 1 && Position(w, limit) == (Pages(w) - 1) * limit == Pages(w) * limit - limit
    ensures Pages(w) <= Position(w, limit) + 1
    ensures IsBoundary(Position(w, limit), limit)
  {
    match w
    case Start(_) =>
    case Then(before, _) =>
      PositionIsPages(before, limit);
      assert (Pages(w) - 1) * limit == (Pages(before) - 1) * limit + limit;
  }

  // ---------- Walks over a table that splits ----------

  /** Which pages open a walk and follow each other, by the rows at which they start. */
  ghost predicate Paged(table: set<Row>, p: Params, c: string, whole: seq<Row>) {
    && p.limit >= 1
    && (forall page :: Opens(table, p, c, page) <==> page == PageAt(whole, p.limit, 0))
    && forall k: nat, next {:trigger Follows(table, p, c, PageAt(whole, p.limit, k), next)} ::
         k <= |whole| && IsBoundary(k, p.limit) ==>
           (Follows(table, p, c, PageAt(whole, p.limit, k), next) <==>
              k + p.limit < |whole| && next == PageAt(whole, p.limit, k + p.limit))
  }

  lemma NextPage(table: set<Row>, p: Params, c: string, whole: seq<Row>, k: nat, next: seq<Row>)
    requires Ranked(table, p, c, whole) && Splits(p, c, whole) && k <= |whole| && IsBoundary(k, p.limit)
    ensures Follows(table, p, c, PageAt(whole, p.limit, k), next) <==>
            k + p.limit < |whole| && next == PageAt(whole, p.limit, k + p.limit)
  {
    NextMarkerAt(p, c, whole, k);
    if k + p.limit < |whole| {
      assert IsBoundary(k + p.limit, p.limit);
      PageIsStretch(table, p.(marker := MarkerAt(whole, c, k + p.limit)), c, whole, k + p.limit, next);
    }
  }

  lemma SplitIsPaged(table: set<Row>, p: Params, c: string, whole: seq<Row>)
    requires Ranked(table, p, c, whole) && Splits(p, c, whole)
    ensures Paged(table, p, c, whole)
  {
    forall page ensures Opens(table, p, c, page) <==> page == PageAt(whole, p.limit, 0) {
      PageIsStretch(table, p.(marker := ""), c, whole, 0, page);
    }
    forall k: nat, next | k <= |whole| && IsBoundary(k, p.limit)
      ensures Follows(table, p, c, PageAt(whole, p.limit, k), next) <==>
              k + p.limit < |whole| && next == PageAt(whole, p.limit, k + p.limit)
    {
      NextPage(table, p, c, whole, k, next);
    }
  }

  /** The last page starts at the walk's position, and with it the walk has collected exactly the
      rows before that position and those of the page. */
  ghost predicate StandsAt(p: Params, whole: seq<Row>, w: Walk, k: nat) {
    && k <= |whole|
    && w.page == PageAt(whole, p.limit, k)
    && Collected(w, p.limit) == whole[..k] + First(w.page, p.limit)
  }

  lemma StandsNext(p: Params, whole: seq<Row>, w: Walk, k: nat, next: seq<Row>)
    requires p.limit >= 1 && StandsAt(p, whole, w, k) && k + p.limit < |whole|
    requires next == PageAt(whole, p.limit, k + p.limit)
    ensures StandsAt(p, whole, Then(w, next), k + p.limit)
  {
    assert First(w.page, p.limit) == whole[k..k + p.limit];
    assert whole[..k] + whole[k..k + p.limit] == whole[..k + p.limit];
  }

  /** Every walk stands at its position, which is a row unless the walk has only one page. */
  lemma {:induction false} WalkStands(table: set<Row>, p: Params, c: string, whole: seq<Row>, w: Walk)
    requires Paged(table, p, c, whole) && IsWalk(table, p, c, w)
    ensures StandsAt(p, whole, w, Position(w, p.limit))
    ensures w.Start? || Position(w, p.limit) < |whole|
  {
    match w
    case Start(page) =>
    case Then(before, page) =>
      WalkStands(table, p, c, whole, before);
      PositionIsPages(before, p.limit);
      StandsNext(p, whole, before, Position(before, p.limit), page);
  }

  /** A walk is complete when it has come to the end of the table, which it has then collected. */
  lemma WalkCollects(table: set<Row>, p: Params, c: string, whole: seq<Row>, w: Walk)
    requires Paged(table, p, c, whole) && IsWalk(table, p, c, w)
    ensures IsCompleteWalk(table, p, c, w) <==> |whole| <= Position(w, p.limit) + p.limit
    ensures IsCompleteWalk(table, p, c, w) ==> Collected(w, p.limit) == whole
  {
    var k := Position(w, p.limit);
    WalkStands(table, p, c, whole, w);
    NextMarkerAt(p, c, whole, k);
    assert whole == whole[..k] + whole[k..];
  }

  /** The pages of a walk are never more than the rows need, and complete when they are as many. */
  lemma WalkLength(table: set<Row>, p: Params, c: string, whole: seq<Row>, w: Walk)
    requires Ranked(table, p, c, whole) && Splits(p, c, whole) && IsWalk(table, p, c, w)
    ensures Pages(w) == 1 || (Pages(w) - 1) * p.limit < |whole|
    ensures IsCompleteWalk(table, p, c, w) <==> |whole| <= Pages(w) * p.limit
  {
    SplitIsPaged(table, p, c, whole);
    WalkStands(table, p, c, whole, w);
    WalkCollects(table, p, c, whole, w);
    PositionIsPages(w, p.limit);
  }

  lemma PagedIsBounded(table: set<Row>, p: Params, c: string, whole: seq<Row>)
    requires Paged(table, p, c, whole)
    ensures Bounded(table, p, c, |whole| + 1)
  {
    forall w | IsWalk(table, p, c, w) ensures Pages(w) <= |whole| + 1 {
      WalkStands(table, p, c, whole, w);
      PositionIsPages(w, p.limit);
    }
  }

  // ---------- Walks that collect the table split it ----------

  /** All pages of a walk but the last are full. */
  lemma {:induction false} CollectedLength(table: set<Row>, p: Params, c: string, w: Walk)
    requires p.limit >= 1 && IsWalk(table, p, c, w)
    ensures |Collected(w, p.limit)| == Position(w, p.limit) + |First(w.page, p.limit)|
    ensures BuildResult(w.page, p, c).hasMore ==>
      && |Collected(w, p.limit)| == Position(w, p.limit) + p.limit
      && w.page[p.limit - 1] == Collected(w, p.limit)[|Collected(w, p.limit)| - 1]
  {
    if w.Then? {
      CollectedLength(table, p, c, w.before);
    }
  }

  /** A listing that begins with row `k` of the sorted table has none of the rows before it. */
  lemma ListingStartsAt(table: set<Row>, p: Params, c: string, whole: seq<Row>, rows: set<Row>, s: seq<Row>, k: nat)
    requires Ranked(table, p, c, whole) && IsListing(rows, Some(Order(p.sortKey, p.sortDir)), s)
    requires k < |whole| && s != [] && s[0] == whole[k]
    ensures forall i :: 0 <= i < k ==> whole[i] !in rows
  {
    forall i | 0 <= i < k ensures whole[i] !in rows {
      if whole[i] in rows {
        assert whole[i] in s;
        var j :| 0 <= j < |s| && s[j] == whole[i];
        assert Precedes(p.sortDir == "asc", Column(whole[i], p.sortKey), Column(whole[k], p.sortKey));
        PrecedesTotal(p.sortDir == "asc", Column(s[j], p.sortKey), Column(s[0], p.sortKey));
      }
    }
  }

  /** The rows behind a marker continue those before it only if the marker splits them. */
  lemma LastPageSplits(table: set<Row>, p: Params, c: string, whole: seq<Row>, k: nat, n: nat, page: seq<Row>)
    requires Ranked(table, p, c, whole) && 0 < k < n <= |whole|
    requires p.marker == MarkerAt(whole, c, k) && Answers(table, PageQuery(p, c), page)
    requires First(page, p.limit) == whole[k..n]
    ensures SplitsAt(p, c, whole[..n], k)
  {
    var q := PageQuery(p, c);
    var rows := Selected(table, q.cursor);
    var s :| IsListing(rows, q.order, s) && page == First(s, q.limit);
    assert s[0] == whole[k..n][0];
    ListingStartsAt(table, p, c, whole, rows, s, k);
    assert whole[0] in whole;
    forall i | 0 <= i < n ensures k <= i <==> whole[i] in rows {
      if k <= i {
        assert s[i - k] == whole[k..n][i - k];
        assert s[i - k] in s;
      }
    }
    forall i | 0 <= i < n ensures whole[i] in rows <==> Precedes(p.sortDir == "asc", p.marker, Column(whole[i], c)) {
      assert whole[i] in whole;
    }
  }

  /** A marker that splits a stretch of rows splits a longer one if a later marker does. */
  lemma SplitsLonger(p: Params, c: string, whole: seq<Row>, j: nat, k: nat, n: nat)
    requires 0 < j < k < n <= |whole|
    requires SplitsAt(p, c, whole[..k], j) && SplitsAt(p, c, whole[..n], k)
    ensures SplitsAt(p, c, whole[..n], j)
  {
    var up, a, b := p.sortDir == "asc", MarkerAt(whole, c, j), MarkerAt(whole, c, k);
    assert whole[..k][k - 1] == whole[k - 1];
    forall i | 0 <= i < n ensures j <= i <==> Precedes(up, a, Column(whole[..n][i], c)) {
      if i < k {
        assert whole[..k][i] == whole[..n][i];
      } else {
        PrecedesTransitive(up, a, b, Column(whole[..n][i], c));
      }
    }
  }

  /** What a walk has collected before its last page, and the rows of that page. */
  lemma CollectedBefore(table: set<Row>, p: Params, c: string, whole: seq<Row>, w: Walk, n: nat)
    requires p.limit >= 1 && w.Then? && IsWalk(table, p, c, w)
    requires n <= |whole| && Collected(w, p.limit) == whole[..n]
    ensures
      var k := Position(w, p.limit);
      && 0 < k <= n && Collected(w.before, p.limit) == whole[..k] && First(w.page, p.limit) == whole[k..n]
      && NextRequest(p, c, w.before.page).marker == MarkerAt(whole, c, k)
  {
    var k := Position(w, p.limit);
    CollectedLength(table, p, c, w.before);
    assert Collected(w.before, p.limit) == Collected(w, p.limit)[..k];
    assert First(w.page, p.limit) == Collected(w, p.limit)[k..];
  }

  /** A walk that collects the first `n` rows splits them at each boundary it has passed. */
  lemma {:induction false} CollectingSplits(table: set<Row>, p: Params, c: string, whole: seq<Row>,
                                            w: Walk, n: nat, j: nat)
    requires Ranked(table, p, c, whole) && IsWalk(table, p, c, w)
    requires n <= |whole| && Collected(w, p.limit) == whole[..n]
    requires 0 < j < n && j <= Position(w, p.limit) && IsBoundary(j, p.limit)
    ensures SplitsAt(p, c, whole[..n], j)
  {
    var k := Position(w, p.limit);
    CollectedBefore(table, p, c, whole, w, n);
    if k < n {
      LastPageSplits(table, NextRequest(p, c, w.before.page), c, whole, k, n, w.page);
    }
    if j < k {
      PositionIsPages(w, p.limit);
      BoundaryGap(j, k, p.limit);
      CollectingSplits(table, p, c, whole, w.before, k, j);
      if k < n {
        SplitsLonger(p, c, whole, j, k, n);
      }
    }
  }

  /** A complete walk that collects the sorted table splits it at every page boundary. */
  lemma CollectedIsSplit(table: set<Row>, p: Params, c: string, whole: seq<Row>, w: Walk)
    requires Ranked(table, p, c, whole) && IsCompleteWalk(table, p, c, w)
    requires Collected(w, p.limit) == whole
    ensures Splits(p, c, whole)
  {
    CollectedLength(table, p, c, w);
    PositionIsPages(w, p.limit);
    assert whole[..|whole|] == whole;
    forall k | 0 < k < |whole| && IsBoundary(k, p.limit) ensures SplitsAt(p, c, whole, k) {
      if Position(w, p.limit) < k {
        BoundaryGap(Position(w, p.limit), k, p.limit);
      }
      CollectingSplits(table, p, c, whole, w, |whole|, k);
    }
  }

  ghost predicate Collects(table: set<Row>, p: Params, c: string, whole: seq<Row>, w: Walk)
    requires p.limit >= 1
  {
    IsCompleteWalk(table, p, c, w) && Collected(w, p.limit) == whole
  }

  /** Whatever the sort key, some complete walk collects the sorted table exactly when each marker
      handed out splits the rows, and then all complete walks do, no walk is longer than the table,
      and every walk goes on until it is complete. */
  lemma CollectsExactly(table: set<Row>, p: Params, c: string, whole: seq<Row>)
    requires Ranked(table, p, c, whole)
    ensures (exists w :: Collects(table, p, c, whole, w)) <==> Splits(p, c, whole)
    ensures Splits(p, c, whole) ==>
      && Bounded(table, p, c, |whole| + 1)
      && (forall w :: IsCompleteWalk(table, p, c, w) ==> Collects(table, p, c, whole, w))
      && (forall w :: IsWalk(table, p, c, w) ==> exists all :: IsCompleteWalk(table, p, c, all) && Extends(all, w))
  {
    if w :| Collects(table, p, c, whole, w) {
      CollectedIsSplit(table, p, c, whole, w);
    }
    if Splits(p, c, whole) {
      SplitIsPaged(table, p, c, whole);
      PagedIsBounded(table, p, c, whole);
      SortedKeysDistinct(p.sortDir == "asc", p.sortKey, whole, table);
      forall w | IsCompleteWalk(table, p, c, w) ensures Collects(table, p, c, whole, w) {
        WalkCollects(table, p, c, whole, w);
      }
      forall w | IsWalk(table, p, c, w) ensures exists all :: IsCompleteWalk(table, p, c, all) && Extends(all, w) {
        var all := WalkGoesOn(table, p, c, w, |whole| + 1);
      }
      var w := WalkGoesOn(table, p, c, Start(PageAt(whole, p.limit, 0)), |whole| + 1);
      assert Collects(table, p, c, whole, w);
    }
  }

  // ---------- Sort keys that follow the markers ----------

  /** The rows have distinct markers, and ordering by `key` orders them as their markers do. */
  ghost predicate KeyFollowsMarker(key: string, c: string, table: set<Row>) {
    forall a, b {:trigger Column(a, key), Column(b, key)} :: a in table && b in table && a != b ==>
      Column(a, c) != Column(b, c) && (Before(Column(a, key), Column(b, key)) <==> Before(Column(a, c), Column(b, c)))
  }

  /** The table is sorted by its markers too. */
  lemma SortedByMarker(table: set<Row>, p: Params, c: string, whole: seq<Row>)
    requires Ranked(table, p, c, whole) && KeyFollowsMarker(p.sortKey, c, table)
    ensures SortedBy(p.sortDir == "asc", c, whole)
  {
    forall i, j | 0 <= i < j < |whole| ensures Precedes(p.sortDir == "asc", Column(whole[i], c), Column(whole[j], c)) {
      assert whole[i] in whole && whole[j] in whole;
      PrecedesTotal(p.sortDir == "asc", Column(whole[i], p.sortKey), Column(whole[j], p.sortKey));
    }
  }

  /** The first marker handed out is the empty one, which asks for the first page again. */
  ghost predicate Loops(p: Params, c: string, whole: seq<Row>) {
    p.limit == 1 && |whole| > 1 && Column(whole[0], c) == ""
  }

  lemma EmptyIsLeast(a: string)
    ensures !Before(a, "")
  {
  }

  /** No other marker handed out is empty. */
  lemma MarkerNotEmpty(p: Params, c: string, whole: seq<Row>, k: nat)
    requires SortedBy(p.sortDir == "asc", c, whole) && !Loops(p, c, whole)
    requires 1 <= p.limit <= k < |whole|
    ensures Column(whole[k - 1], c) != ""
  {
    EmptyIsLeast(Column(whole[k], c));
    EmptyIsLeast(Column(whole[0], c));
    assert Precedes(p.sortDir == "asc", Column(whole[k - 1], c), Column(whole[k], c));
    assert k > 1 ==> Precedes(p.sortDir == "asc", Column(whole[0], c), Column(whole[k - 1], c));
  }

  /** Where the sort key follows the markers, they split the table exactly when the first one handed
      out is not empty. */
  lemma FollowingSplitsExactly(table: set<Row>, p: Params, c: string, whole: seq<Row>)
    requires Ranked(table, p, c, whole) && KeyFollowsMarker(p.sortKey, c, table)
    ensures Splits(p, c, whole) <==> !Loops(p, c, whole)
  {
    SortedByMarker(table, p, c, whole);
    if Loops(p, c, whole) {
      assert IsBoundary(0, 1) && IsBoundary(1, p.limit);
    } else {
      forall k | 0 < k < |whole| && IsBoundary(k, p.limit) ensures SplitsAt(p, c, whole, k) {
        MarkerNotEmpty(p, c, whole, k);
        forall i | 0 <= i < |whole|
          ensures k <= i <==> Precedes(p.sortDir == "asc", Column(whole[k - 1], c), Column(whole[i], c))
        {
          PrecedesTotal(p.sortDir == "asc", Column(whole[k - 1], c), Column(whole[i], c));
        }
      }
    }
  }

  /** When the first marker is empty every page is the first page again. */
  lemma {:induction false} LoopingPage(table: set<Row>, p: Params, c: string, whole: seq<Row>, w: Walk)
    requires Ranked(table, p, c, whole) && Loops(p, c, whole) && IsWalk(table, p, c, w)
    ensures w.page == whole[..2] && BuildResult(w.page, p, c).hasMore && BuildResult(w.page, p, c).nextMarker == ""
  {
    if w.Then? {
      LoopingPage(table, p, c, whole, w.before);
    }
    PageIsStretch(table, p.(marker := ""), c, whole, 0, w.page);
    assert whole[0..] == whole;
  }

  /** A complete walk collects the whole sorted table, each row once, in either direction. */
  lemma WalkCollectsTable(table: set<Row>, p: Params, c: string, whole: seq<Row>, w: Walk)
    requires Ranked(table, p, c, whole) && KeyFollowsMarker(p.sortKey, c, table) && IsCompleteWalk(table, p, c, w)
    ensures Collected(w, p.limit) == whole
  {
    FollowingSplitsExactly(table, p, c, whole);
    if Loops(p, c, whole) {
      LoopingPage(table, p, c, whole, w);
    } else {
      CollectsExactly(table, p, c, whole);
      assert Collects(table, p, c, whole, w);
    }
  }

  /** Following the markers comes to an end exactly when the first marker is not the empty one: some
      walk is complete, the length of all walks is bounded, and all walks go on until complete. */
  lemma WalkEndsExactly(table: set<Row>, p: Params, c: string, whole: seq<Row>)
    requires Ranked(table, p, c, whole) && KeyFollowsMarker(p.sortKey, c, table)
    ensures (exists w :: IsCompleteWalk(table, p, c, w)) <==> !Loops(p, c, whole)
    ensures (exists n: nat :: Bounded(table, p, c, n)) <==> !Loops(p, c, whole)
    ensures !Loops(p, c, whole) ==> Bounded(table, p, c, |whole| + 1)
    ensures !Loops(p, c, whole) ==>
      forall w :: IsWalk(table, p, c, w) ==> exists all :: IsCompleteWalk(table, p, c, all) && Extends(all, w)
  {
    FollowingSplitsExactly(table, p, c, whole);
    if Loops(p, c, whole) {
      forall w | IsWalk(table, p, c, w) ensures !IsCompleteWalk(table, p, c, w) {
        LoopingPage(table, p, c, whole, w);
      }
      var first := PageAt(whole, p.limit, 0);
      PageIsStretch(table, p.(marker := ""), c, whole, 0, first);
      LoopingPage(table, p, c, whole, Start(first));
      assert Restarts(table, p, c, Start(first));
      BoundedExactly(table, p, c);
    } else {
      CollectsExactly(table, p, c, whole);
      var w :| Collects(table, p, c, whole, w);
    }
  }

  /** A table on which following the markers never ends: two rows, one with an empty marker, read
      in ascending order one row at a time. */
  lemma EndlessTable() returns (table: set<Row>, p: Params, whole: seq<Row>)
    ensures p == Params("", 1, "id", "asc") && whole == [Row(map["id" := ""]), Row(map["id" := "x"])]
    ensures Ranked(table, p, "id", whole) && KeyFollowsMarker("id", "id", table) && Loops(p, "id", whole)
    ensures forall w :: !IsCompleteWalk(table, p, "id", w)
  {
    var a, b := Row(map["id" := ""]), Row(map["id" := "x"]);
    table, p, whole := {a, b}, Params("", 1, "id", "asc"), [a, b];
    assert Column(a, "id") == "" && Column(b, "id") == "x";
    assert Before("", "x") && !Before("x", "");
    WalkEndsExactly(table, p, "id", whole);
  }

  /** Two rows in the default order, the newest first, whose identifiers run the other way. */
  lemma ContraryTable() returns (table: set<Row>, p: Params, whole: seq<Row>)
    ensures p == Params("", 1, "created_at", "desc")
    ensures whole == [Row(map["id" := "a", "created_at" := "2"]), Row(map["id" := "b", "created_at" := "1"])]
    ensures Ranked(table, p, "id", whole) && !Splits(p, "id", whole)
    ensures Selected(table, Some(Cursor("id", false, "a"))) == {}
  {
    var a, b := Row(map["id" := "a", "created_at" := "2"]), Row(map["id" := "b", "created_at" := "1"]);
    table, p, whole := {a, b}, Params("", 1, "created_at", "desc"), [a, b];
    assert Column(a, "created_at") == "2" && Column(b, "created_at") == "1";
    assert Column(a, "id") == "a" && Column(b, "id") == "b";
    assert Before("1", "2") && !Before("b", "a");
    assert IsBoundary(0, 1) && IsBoundary(1, 1);
    assert MarkerAt(whole, "id", 1) == "a" && whole[1] == b;
    assert !SplitsAt(p, "id", whole, 1);
  }

  /** In the default order a client that follows the markers may come to an end without ever having
      seen the second of two rows. */
  lemma RowLost() returns (table: set<Row>, p: Params, whole: seq<Row>, w: Walk)
    ensures p.sortKey == "created_at" && p.sortDir == "desc" && Ranked(table, p, "id", whole) && |whole| == 2
    ensures IsCompleteWalk(table, p, "id", w) && Collected(w, p.limit) == [whole[0]]
    ensures forall v :: IsCompleteWalk(table, p, "id", v) ==> Collected(v, p.limit) != whole
  {
    table, p, whole := ContraryTable();
    w := Then(Start(whole), []);
    PageIsStretch(table, p, "id", whole, 0, whole);
    assert Column(whole[0], "id") == "a";
    OnlyListing({}, p.sortKey, p.sortDir, [], []);
    assert Answers(table, PageQuery(NextRequest(p, "id", whole), "id"), []);
    CollectsExactly(table, p, "id", whole);
    forall v | IsCompleteWalk(table, p, "id", v) ensures Collected(v, p.limit) != whole {
      assert !Collects(table, p, "id", whole, v);
    }
  }
}
