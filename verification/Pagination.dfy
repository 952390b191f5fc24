/**
  Cursor pagination: the query built for a page, the page's metadata, and the answers a query
  may have. The database table is a set of rows; a query may be answered by any listing that
  its clauses allow.
 */
module Pagination {
  import opened StringOrder
  import opened Wrappers

  const DEFAULT_LIMIT := 20
  const MAX_LIMIT := 1000

  datatype Params = Params(marker: string, limit: int, sortKey: string, sortDir: string)

  // ---------- Request parameters ----------

  /** The query string: an absent parameter is `None`, except that an absent marker is empty. */
  datatype Request = Request(marker: string, sortKey: Option<string>, sortDir: Option<string>, limit: Option<string>)

  function OrDefault(v: Option<string>, d: string): string {
    if v.Some? then v.value else d
  }

  /** Reads the paging parameters; `atoi` is the conversion of text to a number. */
  method ParseParams(r: Request, atoi: string -> Option<int>) returns (p: Params)
    ensures 1 <= p.limit <= 1000
    ensures r.limit.Some? && atoi(r.limit.value).Some? && 1 <= atoi(r.limit.value).value <= 1000
            ==> p.limit == atoi(r.limit.value).value
    ensures r.limit.Some? && atoi(r.limit.value).Some? && atoi(r.limit.value).value > 1000 ==> p.limit == 1000
    ensures r.limit.Some? && (atoi(r.limit.value).Some? ==> atoi(r.limit.value).value <= 0) ==> p.limit == 20
    ensures r.limit.None? && atoi("20") == Some(20) ==> p.limit == 20
    ensures p.sortDir == if r.sortDir == Some("asc") then "asc" else "desc"
    ensures p.marker == r.marker && p.sortKey == OrDefault(r.sortKey, "created_at")
  {
    p := Params(r.marker, 0, OrDefault(r.sortKey, "created_at"), OrDefault(r.sortDir, "desc"));
    var l := atoi(OrDefault(r.limit, "20"));
    if l.Some? {
      p := p.(limit := l.value);
    } else {
      p := p.(limit := DEFAULT_LIMIT);
    }
    if p.limit <= 0 {
      p := p.(limit := DEFAULT_LIMIT);
    }
    if p.limit > MAX_LIMIT {
      p := p.(limit := MAX_LIMIT);
    }
    if p.sortDir != "asc" && p.sortDir != "desc" {
      p := p.(sortDir := "desc");
    }
  }

  // ---------- Queries and their answers ----------

  datatype Row = Row(columns: map<string, string>)

  function Column(r: Row, c: string): string {
    if c in r.columns then r.columns[c] else ""
  }

  /** Before in an ascending, or after in a descending, direction. */
  predicate Precedes(ascending: bool, a: string, b: string) {
    if ascending then Before(a, b) else Before(b, a)
  }

  datatype Query = Query(order: Option<Order>, cursor: Option<Cursor>, limit: int)
  datatype Order = Order(column: string, direction: string)
  datatype Cursor = Cursor(column: string, ascending: bool, value: string)

  method ApplyToQuery(p: Params, markerColumn: string) returns (q: Query)
    ensures q == PageQuery(p, markerColumn)
    ensures q.order.None? <==> p.sortKey == ""
    ensures q.cursor.None? <==> p.marker == "" || markerColumn == ""
    ensures q.cursor.Some? ==> (q.cursor.value.ascending <==> p.sortDir == "asc")
  {
    q := Query(None, None, 0);
    if p.sortKey != "" {
      q := q.(order := Some(Order(p.sortKey, p.sortDir)));
    }
    if p.marker != "" && markerColumn != "" {
      if p.sortDir == "asc" {
        q := q.(cursor := Some(Cursor(markerColumn, true, p.marker)));
      } else {
        q := q.(cursor := Some(Cursor(markerColumn, false, p.marker)));
      }
    }
    q := q.(limit := p.limit + 1);
  }

  function PageQuery(p: Params, markerColumn: string): Query {
    Query(
      if p.sortKey != "" then Some(Order(p.sortKey, p.sortDir)) else None,
      if p.marker != "" && markerColumn != "" then Some(Cursor(markerColumn, p.sortDir == "asc", p.marker)) else None,
      p.limit + 1)
  }

  ghost function Selected(table: set<Row>, cursor: Option<Cursor>): set<Row> {
    if cursor.None? then table
    else set r | r in table && Precedes(cursor.value.ascending, cursor.value.value, Column(r, cursor.value.column))
  }

  ghost predicate OrderedBy(ascending: bool, c: string, s: seq<Row>) {
    forall i, j {:trigger Column(s[i], c), Column(s[j], c)} :: 0 <= i < j < |s| ==>
      !Precedes(ascending, Column(s[j], c), Column(s[i], c))
  }

  /** Each row of `rows` once, none before a row that the order puts after it. What a database makes
      of a direction other than `asc` and `desc` is left open. */
  ghost predicate IsListing(rows: set<Row>, order: Option<Order>, s: seq<Row>) {
    && (forall i, j :: 0 <= i < j < |s| ==> s[i] != s[j])
    && (forall r {:trigger r in s} :: r in s <==> r in rows)
    && (order.Some? && order.value.direction == "asc" ==> OrderedBy(true, order.value.column, s))
    && (order.Some? && order.value.direction == "desc" ==> OrderedBy(false, order.value.column, s))
  }

  function First(s: seq<Row>, n: int): seq<Row> {
    if 0 <= n < |s| then s[..n] else s
  }

  /** `answer` is the start of a listing of the selected rows. */
  ghost predicate Answers(table: set<Row>, q: Query, answer: seq<Row>) {
    exists s :: IsListing(Selected(table, q.cursor), q.order, s) && answer == First(s, q.limit)
  }

  // ---------- Page metadata ----------

  datatype PageResult = PageResult(items: seq<Row>, nextMarker: string, limit: int, hasMore: bool)

  function BuildResult(items: seq<Row>, p: Params, markerColumn: string): PageResult
    requires p.limit >= 1
  {
    var hasMore := |items| > p.limit;
    PageResult(items, if hasMore then Column(items[p.limit - 1], markerColumn) else "", p.limit, hasMore)
  }

  // ---------- The whole table, sorted ----------

  ghost predicate SortedBy(ascending: bool, c: string, s: seq<Row>) {
    forall i, j {:trigger Column(s[i], c), Column(s[j], c)} :: 0 <= i < j < |s| ==>
      Precedes(ascending, Column(s[i], c), Column(s[j], c))
  }

  ghost predicate KeysDistinct(key: string, rows: set<Row>) {
    forall a, b {:trigger Column(a, key), Column(b, key)} :: a in rows && b in rows && a != b ==>
      Column(a, key) != Column(b, key)
  }

  /** The parameters ask for pages of a sorted listing, with markers from column `c`. */
  predicate IsSortedRequest(p: Params, c: string) {
    c != "" && p.sortKey != "" && p.limit >= 1 && (p.sortDir == "asc" || p.sortDir == "desc")
  }

  /** `whole` is the table sorted by the key of the request, whose values differ from row to row. */
  ghost predicate Ranked(table: set<Row>, p: Params, c: string, whole: seq<Row>) {
    && IsSortedRequest(p, c)
    && (forall r {:trigger r in whole} :: r in whole <==> r in table)
    && SortedBy(p.sortDir == "asc", p.sortKey, whole)
  }

  lemma PrecedesTotal(ascending: bool, a: string, b: string)
    ensures a == b || Precedes(ascending, a, b) || Precedes(ascending, b, a)
    ensures !(Precedes(ascending, a, b) && Precedes(ascending, b, a))
  {
    AtMostTotal(a, b);
    if Before(a, b) && AtMost(b, a) {
      AtMostAntisymmetric(a, b);
    }
  }

  lemma PrecedesTransitive(ascending: bool, a: string, b: string, c: string)
    requires Precedes(ascending, a, b) && Precedes(ascending, b, c)
    ensures Precedes(ascending, a, c)
  {
    PrecedesTotal(ascending, a, b);
    if ascending {
      AtMostTransitive(a, b, c);
    } else {
      AtMostTransitive(c, b, a);
    }
  }

  lemma {:induction false} LastRow(up: bool, c: string, rows: set<Row>) returns (last: Row)
    requires rows != {} && KeysDistinct(c, rows)
    ensures last in rows && forall r :: r in rows && r != last ==> Precedes(up, Column(r, c), Column(last, c))
    decreases |rows|
  {
    var x :| x in rows;
    last := x;
    if rows != {x} {
      var other := LastRow(up, c, rows - {x});
      PrecedesTotal(up, Column(x, c), Column(other, c));
      if Precedes(up, Column(x, c), Column(other, c)) {
        last := other;
      } else {
        assert Column(x, c) != Column(other, c);
      }
      forall r | r in rows && r != last ensures Precedes(up, Column(r, c), Column(last, c)) {
        if r != x && last == x && r != other {
          PrecedesTransitive(up, Column(r, c), Column(other, c), Column(x, c));
        }
      }
    }
  }

  lemma {:induction false} SortedRows(up: bool, c: string, rows: set<Row>) returns (s: seq<Row>)
    requires KeysDistinct(c, rows)
    ensures SortedBy(up, c, s) && forall r :: r in s <==> r in rows
    decreases |rows|
  {
    if rows == {} {
      s := [];
    } else {
      var last := LastRow(up, c, rows);
      var front := SortedRows(up, c, rows - {last});
      s := front + [last];
      assert forall i :: 0 <= i < |front| ==> front[i] in front;
    }
  }

  /** Every table with distinct sort keys can be sorted, and in only one way. */
  lemma SortedTableExists(table: set<Row>, p: Params, c: string) returns (whole: seq<Row>)
    requires IsSortedRequest(p, c) && KeysDistinct(p.sortKey, table)
    ensures Ranked(table, p, c, whole)
    ensures forall s :: Ranked(table, p, c, s) ==> s == whole
  {
    whole := SortedRows(p.sortDir == "asc", p.sortKey, table);
    forall s | Ranked(table, p, c, s) ensures s == whole {
      SortedUnique(p.sortDir == "asc", p.sortKey, s, whole);
    }
  }

  lemma {:induction false} SortedUnique(ascending: bool, c: string, a: seq<Row>, b: seq<Row>)
    requires SortedBy(ascending, c, a) && SortedBy(ascending, c, b)
    requires forall r :: r in a <==> r in b
    ensures a == b
  {
    assert b != [] ==> b[0] in b;
    if a != [] {
      assert a[0] in b && b[0] in b;
      var i :| 0 <= i < |b| && b[i] == a[0];
      var j :| 0 <= j < |a| && a[j] == b[0];
      PrecedesTotal(ascending, Column(a[0], c), Column(b[0], c));
      assert a[0] == b[0];
      SortedTail(ascending, c, a);
      SortedTail(ascending, c, b);
      SortedUnique(ascending, c, a[1..], b[1..]);
      assert a == [a[0]] + a[1..] && b == [b[0]] + b[1..];
    }
  }

  lemma SortedTail(ascending: bool, c: string, s: seq<Row>)
    requires SortedBy(ascending, c, s) && s != []
    ensures SortedBy(ascending, c, s[1..])
    ensures forall r :: r in s[1..] <==> r in s && r != s[0]
  {
    assert s == [s[0]] + s[1..];
    forall i | 0 <= i < |s[1..]| ensures s[1..][i] != s[0] {
      assert Precedes(ascending, Column(s[0], c), Column(s[i + 1], c));
    }
  }

  /** A listing by distinct keys is sorted. */
  lemma ListingIsSorted(rows: set<Row>, key: string, direction: string, s: seq<Row>)
    requires KeysDistinct(key, rows) && (direction == "asc" || direction == "desc")
    requires IsListing(rows, Some(Order(key, direction)), s)
    ensures SortedBy(direction == "asc", key, s)
  {
    forall i, j | 0 <= i < j < |s| ensures Precedes(direction == "asc", Column(s[i], key), Column(s[j], key)) {
      assert s[i] in s && s[j] in s;
      assert !Precedes(direction == "asc", Column(s[j], key), Column(s[i], key));
      PrecedesTotal(direction == "asc", Column(s[i], key), Column(s[j], key));
    }
  }

  lemma SortedKeysDistinct(ascending: bool, key: string, s: seq<Row>, rows: set<Row>)
    requires SortedBy(ascending, key, s) && forall r :: r in rows ==> r in s
    ensures KeysDistinct(key, rows)
  {
    forall a, b | a in rows && b in rows && a != b ensures Column(a, key) != Column(b, key) {
      var i :| 0 <= i < |s| && s[i] == a;
      var j :| 0 <= j < |s| && s[j] == b;
      PrecedesTotal(ascending, Column(s[i], key), Column(s[j], key));
    }
  }

  lemma SortedIsListing(rows: set<Row>, key: string, direction: string, s: seq<Row>)
    requires SortedBy(direction == "asc", key, s) && forall r :: r in s <==> r in rows
    ensures IsListing(rows, Some(Order(key, direction)), s)
  {
    forall i, j | 0 <= i < j < |s|
      ensures s[i] != s[j] && !Precedes(direction == "asc", Column(s[j], key), Column(s[i], key))
    {
      PrecedesTotal(direction == "asc", Column(s[i], key), Column(s[j], key));
    }
  }

  /** The rows sorted by a distinct key are the only listing a database may choose. */
  lemma OnlyListing(rows: set<Row>, key: string, direction: string, s: seq<Row>, t: seq<Row>)
    requires SortedBy(direction == "asc", key, s) && (direction == "asc" || direction == "desc")
    requires forall r :: r in s <==> r in rows
    ensures IsListing(rows, Some(Order(key, direction)), t) <==> t == s
  {
    SortedIsListing(rows, key, direction, s);
    if IsListing(rows, Some(Order(key, direction)), t) {
      SortedKeysDistinct(direction == "asc", key, s, rows);
      ListingIsSorted(rows, key, direction, t);
      SortedUnique(direction == "asc", key, t, s);
    }
  }

  // ---------- Pages of the sorted table ----------

  /** The marker that asks for the rows from position `k` on. */
  ghost function MarkerAt(whole: seq<Row>, c: string, k: nat): string
    requires k <= |whole|
  {
    if k == 0 then "" else Column(whole[k - 1], c)
  }

  /** The marker of the row before position `k` tells the rows before it from those behind it. */
  ghost predicate SplitsAt(p: Params, c: string, whole: seq<Row>, k: nat)
    requires 0 < k <= |whole|
  {
    && MarkerAt(whole, c, k) != ""
    && forall i {:trigger whole[i]} :: 0 <= i < |whole| ==>
         (k <= i <==> Precedes(p.sortDir == "asc", MarkerAt(whole, c, k), Column(whole[i], c)))
  }

  /** The page that starts at row `k`, with one row more than the limit if there is one. */
  ghost function PageAt(whole: seq<Row>, limit: int, k: nat): seq<Row>
    requires k <= |whole|
  {
    First(whole[k..], limit + 1)
  }

  lemma RestIsSelected(table: set<Row>, p: Params, c: string, whole: seq<Row>, k: nat)
    requires Ranked(table, p, c, whole) && k <= |whole|
    requires p.marker == MarkerAt(whole, c, k) && (k > 0 ==> SplitsAt(p, c, whole, k))
    ensures forall r :: r in whole[k..] <==> r in Selected(table, PageQuery(p, c).cursor)
  {
    if k > 0 {
      forall r ensures r in whole[k..] <==> r in Selected(table, PageQuery(p, c).cursor) {
        if r in whole {
          var i :| 0 <= i < |whole| && whole[i] == r;
          if k <= i {
            assert whole[k..][i - k] == r;
          }
        }
      }
    } else {
      assert whole[k..] == whole;
    }
  }

  lemma SortedRest(ascending: bool, c: string, s: seq<Row>, k: nat)
    requires SortedBy(ascending, c, s) && k <= |s|
    ensures SortedBy(ascending, c, s[k..])
  {
  }

  /** Whatever answer the database gives, the page is the next stretch of the sorted table. */
  lemma PageIsStretch(table: set<Row>, p: Params, c: string, whole: seq<Row>, k: nat, answer: seq<Row>)
    requires Ranked(table, p, c, whole) && k <= |whole|
    requires p.marker == MarkerAt(whole, c, k) && (k > 0 ==> SplitsAt(p, c, whole, k))
    ensures Answers(table, PageQuery(p, c), answer) <==> answer == PageAt(whole, p.limit, k)
  {
    var q := PageQuery(p, c);
    var rows := Selected(table, q.cursor);
    RestIsSelected(table, p, c, whole, k);
    SortedRest(p.sortDir == "asc", p.sortKey, whole, k);
    forall s ensures IsListing(rows, q.order, s) <==> s == whole[k..] {
      OnlyListing(rows, p.sortKey, p.sortDir, whole[k..], s);
    }
  }

  /** A page announces more exactly when rows follow it; it then hands out the marker of its last row,
      and the empty marker otherwise. The rows fetched and the limit are passed on. */
  lemma NextMarkerAt(p: Params, c: string, whole: seq<Row>, k: nat)
    requires p.limit >= 1 && k <= |whole|
    ensures
      var page := PageAt(whole, p.limit, k);
      && (BuildResult(page, p, c).hasMore <==> k + p.limit < |whole|)
      && First(page, p.limit) == First(whole[k..], p.limit)
      && (k + p.limit < |whole| ==> BuildResult(page, p, c).nextMarker == MarkerAt(whole, c, k + p.limit))
      && (k + p.limit >= |whole| ==> BuildResult(page, p, c).nextMarker == "")
      && BuildResult(page, p, c).items == page && BuildResult(page, p, c).limit == p.limit
  {
  }
}
