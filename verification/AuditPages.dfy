/** The audit listing: filters, keyset pagination on (occurred_at DESC, id DESC) and the walk a client
    makes by following next_cursor. */
module AuditPages {
  import opened Options
  import Lex
  import Timestamps

  /** One audit_log row joined with its actor's login. at is occurred_at as stored. */
  datatype Row = Row(id: int, at: string, actor: string, action: string, targetKind: string, outcome: string)

  datatype Cursor = Cursor(id: int, sortValue: string)

  /** The query parameters; from and to are bound in the canonical layout. */
  datatype Query = Query(actor: Option<string>, action: Option<string>, targetKind: Option<string>,
                         outcome: Option<string>, from: Option<string>, to: Option<string>)

  const DEFAULT_PAGE_LIMIT: nat := 50
  const MAX_PAGE_LIMIT: nat := 200

  /** ?limit: anything but 1..200 is replaced by the default. */
  function PageLimit(limit: Option<int>): (n: nat)
    ensures 1 <= n <= 200
    ensures limit == Some(n as int) || (n == 50 && (limit.Some? ==> limit.value < 1 || limit.value > 200))
  {
    if limit.Some? && 0 < limit.value <= MAX_PAGE_LIMIT then limit.value else DEFAULT_PAGE_LIMIT
  }

  predicate Matches(q: Query, r: Row) {
    && (q.actor.Some? ==> r.actor == q.actor.value)
    && (q.action.Some? ==> r.action == q.action.value)
    && (q.targetKind.Some? ==> r.targetKind == q.targetKind.value)
    && (q.outcome.Some? ==> r.outcome == q.outcome.value)
    && (q.from.Some? ==> Lex.AtMost(q.from.value, r.at))
    && (q.to.Some? ==> Lex.AtMost(r.at, q.to.value))
  }

  /** The filters of a query, column by column; the time bounds are inclusive. */
  predicate InColumns(q: Query, r: Row) {
    && q.actor in {None, Some(r.actor)} && q.action in {None, Some(r.action)}
    && q.targetKind in {None, Some(r.targetKind)} && q.outcome in {None, Some(r.outcome)}
    && (q.from.Some? ==> !Lex.Less(r.at, q.from.value)) && (q.to.Some? ==> !Lex.Less(q.to.value, r.at))
  }

  lemma FiltersInColumns(q: Query, r: Row)
    ensures Matches(q, r) <==> InColumns(q, r)
  {
    if q.from.Some? {
      Lex.Total(r.at, q.from.value);
      if Lex.Less(q.from.value, r.at) { Lex.Asymmetric(q.from.value, r.at); }
      Lex.Irreflexive(r.at);
    }
    if q.to.Some? {
      Lex.Total(r.at, q.to.value);
      if Lex.Less(r.at, q.to.value) { Lex.Asymmetric(r.at, q.to.value); }
      Lex.Irreflexive(r.at);
    }
  }

  /** a.occurred_at < ? OR (a.occurred_at = ? AND a.id < ?) */
  predicate Past(cursor: Option<Cursor>, r: Row) {
    cursor.Some? ==>
      Lex.Less(r.at, cursor.value.sortValue) || (r.at == cursor.value.sortValue && r.id < cursor.value.id)
  }

  function CursorOf(r: Row): Cursor { Cursor(r.id, r.at) }

  /** a comes before b in the listing. */
  predicate Before(a: Row, b: Row) {
    Past(Some(CursorOf(a)), b)
  }

  lemma BeforeIsStrictOrder(a: Row, b: Row, c: Row)
    ensures !Before(a, a)
    ensures Before(a, b) && Before(b, c) ==> Before(a, c)
    ensures a.id != b.id ==> Before(a, b) || Before(b, a)
  {
    Lex.Irreflexive(a.at);
    Lex.Total(a.at, b.at);
    if Before(a, b) && Before(b, c) && Lex.Less(b.at, a.at) && Lex.Less(c.at, b.at) {
      Lex.Transitive(c.at, b.at, a.at);
    }
  }

  predicate Listed(rows: seq<Row>) {
    forall i, j :: 0 <= i < j < |rows| ==> Before(rows[i], rows[j])
  }

  // ---- SELECT ... WHERE ... ORDER BY occurred_at DESC, id DESC ----

  function Insert(rows: seq<Row>, r: Row): seq<Row> {
    if rows == [] || Before(r, rows[0]) then [r] + rows else [rows[0]] + Insert(rows[1..], r)
  }

  function Select(log: seq<Row>, q: Query, cursor: Option<Cursor>): seq<Row> {
    if log == [] then []
    else
      var last := log[|log| - 1];
      var rest := Select(log[..|log| - 1], q, cursor);
      if Matches(q, last) && Past(cursor, last) then Insert(rest, last) else rest
  }

  lemma {:induction false} InsertMembers(rows: seq<Row>, r: Row)
    ensures forall x :: x in Insert(rows, r) <==> x in rows || x == r
  {
    if rows != [] && !Before(r, rows[0]) {
      InsertMembers(rows[1..], r);
      assert rows == [rows[0]] + rows[1..];
    }
  }

  lemma {:induction false} InsertListed(rows: seq<Row>, r: Row)
    requires Listed(rows) && forall x :: x in rows ==> x.id != r.id
    ensures Listed(Insert(rows, r))
  {
    if rows == [] {
    } else if Before(r, rows[0]) {
      forall j | 0 <= j < |rows| ensures Before(r, rows[j]) {
        if j > 0 { BeforeIsStrictOrder(r, rows[0], rows[j]); }
      }
    } else {
      InsertListed(rows[1..], r);
      InsertMembers(rows[1..], r);
      var tail := Insert(rows[1..], r);
      BeforeIsStrictOrder(rows[0], r, r);
      forall j | 0 <= j < |tail| ensures Before(rows[0], tail[j]) {
        assert tail[j] in tail;
        if tail[j] != r {
          var k :| 0 <= k < |rows[1..]| && rows[1..][k] == tail[j];
          assert rows[k + 1] == tail[j];
        }
      }
    }
  }

  predicate DistinctIds(log: seq<Row>) {
    forall i, j :: 0 <= i < j < |log| ==> log[i].id != log[j].id
  }

  /** The query result: exactly the matching rows past the cursor, strictly ordered. */
  lemma {:induction false} SelectIsExact(log: seq<Row>, q: Query, cursor: Option<Cursor>)
    requires DistinctIds(log)
    ensures forall r :: r in Select(log, q, cursor) <==> r in log && Matches(q, r) && Past(cursor, r)
    ensures Listed(Select(log, q, cursor))
  {
    if log != [] {
      var n := |log| - 1;
      SelectIsExact(log[..n], q, cursor);
      assert log == log[..n] + [log[n]];
      var rest := Select(log[..n], q, cursor);
      InsertMembers(rest, log[n]);
      forall x | x in rest ensures x.id != log[n].id {
        var k :| 0 <= k < n && log[..n][k] == x;
        assert log[k] == x;
      }
      InsertListed(rest, log[n]);
    }
  }

  /** A strictly ordered list is determined by its members. */
  lemma {:induction false} ListedUnique(a: seq<Row>, b: seq<Row>)
    requires Listed(a) && Listed(b) && forall r :: r in a <==> r in b
    ensures a == b
  {
    if b != [] { assert b[0] in b; }
    if a != [] {
      assert a[0] in b && b != [] && b[0] in a;
      HeadsAgree(a, b);
      TailMembers(a);
      TailMembers(b);
      ListedUnique(a[1..], b[1..]);
      assert a == [a[0]] + a[1..] && b == [b[0]] + b[1..];
    }
  }

  lemma HeadsAgree(a: seq<Row>, b: seq<Row>)
    requires Listed(a) && Listed(b) && a != [] && b != [] && a[0] in b && b[0] in a
    ensures a[0] == b[0]
  {
    var i :| 0 <= i < |b| && b[i] == a[0];
    var j :| 0 <= j < |a| && a[j] == b[0];
    if i > 0 && j > 0 {
      BeforeIsStrictOrder(a[0], b[0], a[0]);
    }
  }

  lemma TailMembers(a: seq<Row>)
    requires Listed(a) && a != []
    ensures forall r :: r in a[1..] <==> r in a && r != a[0]
  {
    assert a == [a[0]] + a[1..];
    forall r | r in a[1..] ensures r != a[0] {
      var k :| 0 <= k < |a[1..]| && a[1..][k] == r;
      assert Before(a[0], a[k + 1]);
      BeforeIsStrictOrder(a[0], a[0], a[0]);
    }
  }

  // ---- One page ----

  datatype Page = Page(items: seq<Row>, next: Option<Cursor>)

  /** limit + 1 rows are fetched; the extra one only says that there is more. */
  function PageOf(rows: seq<Row>, limit: nat): Page
    requires limit > 0
  {
    if |rows| > limit then Page(rows[..limit], Some(CursorOf(rows[limit - 1]))) else Page(rows, None)
  }

  /** A page holds the first rows, no more than limit; it names a next page exactly when there are further
      rows, by its own last row. */
  lemma PageIsFull(rows: seq<Row>, limit: nat)
    requires limit > 0
    ensures var page := PageOf(rows, limit);
            && page.items <= rows && |page.items| == (if |rows| < limit then |rows| else limit)
            && (page.next.Some? <==> |rows| > limit)
            && (page.next.Some? ==> page.next.value.id == page.items[limit - 1].id &&
                                    page.next.value.sortValue == page.items[limit - 1].at)
  {
  }

  /** The handler. The fetched rows are read one by one, then the probe row is cut off. */
  method ListAudit(log: seq<Row>, q: Query, cursor: Option<Cursor>, limit: nat) returns (page: Page)
    requires limit > 0
    ensures page == PageOf(Select(log, q, cursor), limit)
  {
    var all := Select(log, q, cursor);
    var fetched := if |all| > limit + 1 then all[..limit + 1] else all;
    var items: seq<Row> := [];
    for i := 0 to |fetched|
      invariant items == fetched[..i]
    {
      items := items + [fetched[i]];
    }
    var next := None;
    if |items| > limit {
      items := items[..limit];
      var last := items[|items| - 1];
      next := Some(Cursor(last.id, last.at));
    }
    page := Page(items, next);
  }

  // ---- The walk ----

  /** Following the cursor of a page leaves exactly the rows after it. */
  lemma NextPageContinues(log: seq<Row>, q: Query, cursor: Option<Cursor>, limit: nat)
    requires DistinctIds(log) && limit > 0 && |Select(log, q, cursor)| > limit
    ensures var rows := Select(log, q, cursor);
            Select(log, q, Some(CursorOf(rows[limit - 1]))) == rows[limit..]
  {
    var rows := Select(log, q, cursor);
    var last := rows[limit - 1];
    var rest := Select(log, q, Some(CursorOf(last)));
    SelectIsExact(log, q, cursor);
    SelectIsExact(log, q, Some(CursorOf(last)));
    assert last in rows;
    forall r | r in rest ensures r in rows[limit..] {
      PastIsMonotone(cursor, last, r);
      assert r in rows;
      var k :| 0 <= k < |rows| && rows[k] == r;
      BeforeIsStrictOrder(last, r, last);
      assert rows[limit..][k - limit] == r;
    }
    forall r | r in rows[limit..] ensures r in rest {
      var k :| 0 <= k < |rows[limit..]| && rows[limit..][k] == r;
      assert rows[limit + k] == r && r in rows;
    }
    ListedUnique(rest, rows[limit..]);
  }

  lemma PastIsMonotone(cursor: Option<Cursor>, a: Row, b: Row)
    requires Past(cursor, a) && Before(a, b)
    ensures Past(cursor, b)
  {
    if cursor.Some? && Lex.Less(b.at, a.at) && Lex.Less(a.at, cursor.value.sortValue) {
      Lex.Transitive(b.at, a.at, cursor.value.sortValue);
    }
  }

  /** log' is log with rows added that come before the cursor, such as newer ones. */
  ghost predicate GrewBefore(log: seq<Row>, log': seq<Row>, cursor: Cursor) {
    && DistinctIds(log')
    && (forall r :: r in log ==> r in log')
    && (forall r :: r in log' && r !in log ==> !Past(Some(cursor), r))
  }

  /** Rows added before the cursor do not change what is after it. */
  lemma NewerRowsDoNotMatter(log: seq<Row>, log': seq<Row>, q: Query, cursor: Cursor)
    requires DistinctIds(log) && GrewBefore(log, log', cursor)
    ensures Select(log', q, Some(cursor)) == Select(log, q, Some(cursor))
  {
    SelectIsExact(log, q, Some(cursor));
    SelectIsExact(log', q, Some(cursor));
    ListedUnique(Select(log', q, Some(cursor)), Select(log, q, Some(cursor)));
  }

  /** A client's walk: page i is served from logs[i]; between pages the log may have grown by rows that
      come before the cursor in use. */
  ghost predicate IsWalk(logs: seq<seq<Row>>, q: Query, cursor: Option<Cursor>, limit: nat, pages: seq<Page>)
    requires limit > 0
  {
    && |logs| == |pages| > 0 && DistinctIds(logs[0])
    && pages[0] == PageOf(Select(logs[0], q, cursor), limit)
    && if pages[0].next.None? then |pages| == 1
       else
         && |pages| > 1 && GrewBefore(logs[0], logs[1], pages[0].next.value)
         && IsWalk(logs[1..], q, pages[0].next, limit, pages[1..])
  }

  function Items(pages: seq<Page>): seq<Row> {
    if pages == [] then [] else pages[0].items + Items(pages[1..])
  }

  /** The walk returns what one unlimited query against the first log would have returned: every
      matching row exactly once, newest first. */
  lemma {:induction false} WalkReturnsEverything(logs: seq<seq<Row>>, q: Query, cursor: Option<Cursor>, limit: nat,
                                                 pages: seq<Page>)
    requires limit > 0 && IsWalk(logs, q, cursor, limit, pages)
    ensures Items(pages) == Select(logs[0], q, cursor)
    decreases |pages|
  {
    if pages[0].next.None? {
      assert pages[1..] == [];
    } else {
      FirstPage(logs[0], logs[1], q, cursor, limit, pages[0]);
      WalkReturnsEverything(logs[1..], q, pages[0].next, limit, pages[1..]);
    }
  }

  /** A page that is not the last, and what a query behind its cursor finds in the log as it is by then. */
  lemma FirstPage(log: seq<Row>, log': seq<Row>, q: Query, cursor: Option<Cursor>, limit: nat, page: Page)
    requires limit > 0 && DistinctIds(log) && page == PageOf(Select(log, q, cursor), limit)
    requires page.next.Some? && GrewBefore(log, log', page.next.value)
    ensures Select(log, q, cursor) == page.items + Select(log', q, page.next)
  {
    var rows := Select(log, q, cursor);
    NextPageContinues(log, q, cursor, limit);
    NewerRowsDoNotMatter(log, log', q, page.next.value);
    assert rows == rows[..limit] + rows[limit..];
  }

  /** The walk over a log that does not change ends, after one page per limit rows. */
  function Walk(log: seq<Row>, q: Query, cursor: Option<Cursor>, limit: nat): (pages: seq<Page>)
    requires DistinctIds(log) && limit > 0
    ensures |pages| > 0
    decreases |Select(log, q, cursor)|
  {
    var page := PageOf(Select(log, q, cursor), limit);
    if page.next.None? then [page]
    else
      NextPageContinues(log, q, cursor, limit);
      [page] + Walk(log, q, page.next, limit)
  }

  function Repeat(log: seq<Row>, n: nat): (logs: seq<seq<Row>>)
    ensures |logs| == n
  {
    if n == 0 then [] else [log] + Repeat(log, n - 1)
  }

  lemma {:induction false} WalkIsAWalk(log: seq<Row>, q: Query, cursor: Option<Cursor>, limit: nat)
    requires DistinctIds(log) && limit > 0
    ensures var pages := Walk(log, q, cursor, limit); IsWalk(Repeat(log, |pages|), q, cursor, limit, pages)
    decreases |Select(log, q, cursor)|
  {
    var page := PageOf(Select(log, q, cursor), limit);
    if page.next.Some? {
      NextPageContinues(log, q, cursor, limit);
      WalkIsAWalk(log, q, page.next, limit);
      var rest := Walk(log, q, page.next, limit);
      assert Walk(log, q, cursor, limit)[1..] == rest;
      assert Repeat(log, 1 + |rest|)[1..] == Repeat(log, |rest|);
    }
  }

  lemma {:induction false} WalkLength(log: seq<Row>, q: Query, cursor: Option<Cursor>, limit: nat)
    requires DistinctIds(log) && limit > 0
    ensures (|Walk(log, q, cursor, limit)| - 1) * limit <= |Select(log, q, cursor)|
    decreases |Select(log, q, cursor)|
  {
    var page := PageOf(Select(log, q, cursor), limit);
    if page.next.Some? {
      NextPageContinues(log, q, cursor, limit);
      WalkLength(log, q, page.next, limit);
      OnePageMore(|Walk(log, q, page.next, limit)|, limit, |Select(log, q, page.next)|);
    }
  }

  lemma OnePageMore(n: nat, limit: nat, rows: nat)
    requires (n - 1) * limit <= rows
    ensures n * limit <= rows + limit
  {
  }

  /** A full walk over a fixed log: the items are exactly the matching rows, in (time, id) descending
      order. */
  lemma FullWalk(log: seq<Row>, q: Query, limit: nat)
    requires DistinctIds(log) && limit > 0
    ensures var items := Items(Walk(log, q, None, limit));
            Listed(items) && forall r :: r in items <==> r in log && InColumns(q, r)
  {
    forall r ensures Matches(q, r) <==> InColumns(q, r) { FiltersInColumns(q, r); }
    WalkIsAWalk(log, q, None, limit);
    var pages := Walk(log, q, None, limit);
    WalkReturnsEverything(Repeat(log, |pages|), q, None, limit, pages);
    SelectIsExact(log, q, None);
  }

  /** The first page of a query, in the columns of the table: at most limit rows, all of them matching every
      filter given, newest first; and no matching row that is not on it is newer than one that is. */
  lemma FirstPageInColumns(log: seq<Row>, q: Query, limit: nat, r: Row)
    requires DistinctIds(log) && limit > 0
    ensures var items := PageOf(Select(log, q, None), limit).items;
            && |items| <= limit && Listed(items)
            && (r in items ==> r in log && InColumns(q, r))
            && (r in log && InColumns(q, r) && r !in items ==>
                  |items| == limit && forall s :: s in items ==> Before(s, r))
  {
    var rows := Select(log, q, None);
    SelectIsExact(log, q, None);
    FiltersInColumns(q, r);
    var items := PageOf(rows, limit).items;
    PageIsFull(rows, limit);
    if r in items { assert r in rows; }
    if r in log && InColumns(q, r) && r !in items {
      var k :| 0 <= k < |rows| && rows[k] == r;
      assert forall j :: 0 <= j < |items| ==> items[j] == rows[j];
      assert k >= |items|;
    }
  }

  /** With timestamps as the logger writes them, listing order is reverse chronological order. */
  lemma ListingIsChronological(a: Row, b: Row, s: Timestamps.Civil, t: Timestamps.Civil)
    requires Timestamps.Valid(s) && Timestamps.Valid(t)
    requires a.at == Timestamps.Format(s) && b.at == Timestamps.Format(t)
    ensures Before(a, b) <==>
            Timestamps.Instant(t) < Timestamps.Instant(s) ||
            (Timestamps.Instant(t) == Timestamps.Instant(s) && b.id < a.id)
  {
    Timestamps.TextOrderIsTimeOrder(t, s);
  }
}
