/** Cursor paging over the audit log and the streamed CSV export built on it. */
module AuditQuery {
  import opened Wrappers
  import opened Seqs
  import Csv

  /** An `audit_log` row joined with its actor. `ts` and `id` are read as numbers; `metadata` is JSON text. */
  datatype AuditRow = AuditRow(ts: nat, id: nat, actorType: string, actorId: Option<string>, actorEmail: Option<string>,
                               action: string, targetType: Option<string>, targetId: Option<string>, visible: bool,
                               ip: Option<string>, metadata: string)

  const DEFAULT_LIMIT: nat := 100
  const MAX_LIMIT: nat := 500
  const STREAM_PAGE: nat := 500

  /** `ORDER BY ts DESC, id DESC` */
  predicate Before(a: AuditRow, b: AuditRow) {
    a.ts > b.ts || (a.ts == b.ts && a.id > b.id)
  }

  ghost predicate DistinctIds(rows: seq<AuditRow>) {
    forall i, j :: 0 <= i < j < |rows| ==> rows[i].id != rows[j].id
  }

  ghost predicate Sorted(rows: seq<AuditRow>) {
    forall i, j :: 0 <= i < j < |rows| ==> Before(rows[i], rows[j])
  }

  /** Insert before the first row from the end that is not listed before `x`. */
  function Insert(rows: seq<AuditRow>, x: AuditRow): (r: seq<AuditRow>)
    ensures forall y :: y in r ==> y in rows || y == x
    ensures x in r && forall y :: y in rows ==> y in r
    ensures |r| == |rows| + 1
  {
    if rows == [] || Before(rows[|rows| - 1], x) then rows + [x]
    else Insert(rows[..|rows| - 1], x) + [rows[|rows| - 1]]
  }

  function Ordered(rows: seq<AuditRow>): (r: seq<AuditRow>)
    ensures forall y :: y in r ==> y in rows
    ensures forall y :: y in rows ==> y in r
    ensures |r| == |rows|
  {
    if rows == [] then [] else Insert(Ordered(rows[..|rows| - 1]), rows[|rows| - 1])
  }

  /** `x` shares its id with none of the rows. */
  ghost predicate NewId(rows: seq<AuditRow>, x: AuditRow) {
    forall y :: y in rows ==> y.id != x.id
  }

  lemma LastNewId(rows: seq<AuditRow>)
    requires DistinctIds(rows) && rows != []
    ensures DistinctIds(rows[..|rows| - 1]) && NewId(rows[..|rows| - 1], rows[|rows| - 1])
  {
  }

  lemma {:induction false} InsertSorted(rows: seq<AuditRow>, x: AuditRow)
    requires Sorted(rows) && NewId(rows, x)
    ensures Sorted(Insert(rows, x))
  {
    if rows != [] && !Before(rows[|rows| - 1], x) {
      var n := |rows| - 1;
      var r := Insert(rows[..n], x);
      InsertSorted(rows[..n], x);
      assert rows[n] in rows && Before(x, rows[n]);
      assert forall y :: y in rows[..n] ==> Before(y, rows[n]);
      assert forall i :: 0 <= i < |r| ==> r[i] in r;
    }
  }

  lemma {:induction false} InsertDistinct(rows: seq<AuditRow>, x: AuditRow)
    requires DistinctIds(rows) && NewId(rows, x)
    ensures DistinctIds(Insert(rows, x))
  {
    if rows != [] && !Before(rows[|rows| - 1], x) {
      var n := |rows| - 1;
      var r := Insert(rows[..n], x);
      LastNewId(rows);
      InsertDistinct(rows[..n], x);
      assert rows[n] in rows;
      assert forall i :: 0 <= i < |r| ==> r[i] in r;
    }
  }

  lemma {:induction false} OrderedSorted(rows: seq<AuditRow>)
    requires DistinctIds(rows)
    ensures Sorted(Ordered(rows)) && DistinctIds(Ordered(rows))
    ensures var r := Ordered(rows);
            forall i, j :: 0 <= i < j < |r| ==> r[i].ts > r[j].ts || (r[i].ts == r[j].ts && r[i].id > r[j].id)
  {
    if rows != [] {
      var n := |rows| - 1;
      LastNewId(rows);
      OrderedSorted(rows[..n]);
      InsertSorted(Ordered(rows[..n]), rows[n]);
      InsertDistinct(Ordered(rows[..n]), rows[n]);
    }
  }

  // ----- One page -----

  function Older(cursor: Option<nat>): AuditRow -> bool {
    (row: AuditRow) => cursor.None? || row.id < cursor.value
  }

  function Both(p: AuditRow -> bool, q: AuditRow -> bool): AuditRow -> bool {
    (row: AuditRow) => p(row) && q(row)
  }

  /** All rows that pass the filter, in listing order: what an unpaged query would return. */
  function Listing(table: seq<AuditRow>, keep: AuditRow -> bool): seq<AuditRow> {
    Ordered(Filter(table, keep))
  }

  /** The rows of the page query without its LIMIT. */
  function Query(table: seq<AuditRow>, keep: AuditRow -> bool, cursor: Option<nat>): seq<AuditRow> {
    Ordered(Filter(table, Both(keep, Older(cursor))))
  }

  /** `n | 0`: the low 32 bits as a signed number. */
  function ToInt32(n: int): (r: int)
    ensures -0x8000_0000 <= r < 0x8000_0000
    ensures -0x8000_0000 <= n < 0x8000_0000 ==> r == n
    ensures (n - r) % 0x1_0000_0000 == 0
  {
    var low := n % 0x1_0000_0000;
    if low >= 0x8000_0000 then low - 0x1_0000_0000 else low
  }

  /** `Math.min(Math.max(1, Number(limit ?? DEFAULT_LIMIT) | 0), MAX_LIMIT)` for an integer limit. */
  function Clamp(limit: Option<int>): (n: nat)
    ensures 1 <= n <= MAX_LIMIT
    ensures limit.None? ==> n == 100
    ensures limit.Some? && 1 <= limit.value <= 500 ==> n == limit.value
    ensures limit.Some? && 500 < limit.value < 0x8000_0000 ==> n == 500
    ensures limit.Some? && -0x8000_0000 <= limit.value < 1 ==> n == 1
  {
    var asked := ToInt32(if limit.Some? then limit.value else DEFAULT_LIMIT);
    if asked < 1 then 1 else if asked > MAX_LIMIT then MAX_LIMIT else asked
  }

  /** Limits that differ by a multiple of 2^32 are alike: 2^32 + 7 asks for 7 rows. */
  lemma ClampWraps(limit: int, turns: int)
    ensures Clamp(Some(limit + turns * 0x1_0000_0000)) == Clamp(Some(limit))
  {
    assert (limit + turns * 0x1_0000_0000) % 0x1_0000_0000 == limit % 0x1_0000_0000;
  }

  /** The first `n` of `all`, and the last of them as a cursor when there are more. */
  ghost predicate IsPage(all: seq<AuditRow>, n: nat, rows: seq<AuditRow>, next: Option<nat>)
    requires n > 0
  {
    && rows == (if |all| < n then all else all[..n])
    && (next.Some? <==> |all| > n)
    && (next.Some? ==> next.value == all[n - 1].id)
  }

  /** The rows of a fetch of at most `n + 1` rows that make the page. */
  method CutPage(all: seq<AuditRow>, n: nat) returns (rows: seq<AuditRow>, nextCursor: Option<nat>)
    requires n > 0
    ensures IsPage(all, n, rows, nextCursor)
  {
    var fetched := if |all| > n + 1 then all[..n + 1] else all;
    rows := if |fetched| > n then fetched[..n] else fetched;
    nextCursor := if |fetched| > n && |rows| > 0 then Some(rows[|rows| - 1].id) else None;
  }

  method ListAuditPage(table: seq<AuditRow>, keep: AuditRow -> bool, limit: Option<int>, cursor: Option<nat>)
    returns (rows: seq<AuditRow>, nextCursor: Option<nat>)
    ensures IsPage(Query(table, keep, cursor), Clamp(limit), rows, nextCursor)
  {
    rows, nextCursor := CutPage(Query(table, keep, cursor), Clamp(limit));
  }

  // ----- Paging as a function of the listing -----

  lemma {:induction false} FilterShrinks(rows: seq<AuditRow>, keep: AuditRow -> bool, i: nat)
    requires i < |rows| && !keep(rows[i])
    ensures |Filter(rows, keep)| < |rows|
  {
    var n := |rows| - 1;
    if i < n {
      FilterShrinks(rows[..n], keep, i);
    }
  }

  /** The rows that paging emits from what is still ahead of the cursor. */
  function Paged(ahead: seq<AuditRow>, page: nat): seq<AuditRow>
    requires page > 0
    decreases |ahead|
  {
    if |ahead| <= page then ahead
    else
      var last := ahead[page - 1];
      FilterShrinks(ahead, Older(Some(last.id)), page - 1);
      ahead[..page] + Paged(Filter(ahead, Older(Some(last.id))), page)
  }

  /** A row listed last can be appended before or after filtering. */
  lemma FilterAppend(rows: seq<AuditRow>, x: AuditRow, keep: AuditRow -> bool)
    requires Sorted(rows) && rows != [] && Before(rows[|rows| - 1], x)
    ensures Insert(Filter(rows, keep), x) == Filter(rows, keep) + [x]
  {
    var kept := Filter(rows, keep);
    if kept != [] {
      assert kept[|kept| - 1] in kept;
      var k :| 0 <= k < |rows| && rows[k] == kept[|kept| - 1];
      assert k < |rows| - 1 ==> Before(rows[k], rows[|rows| - 1]);
    }
  }

  lemma {:induction false} FilterInsert(rows: seq<AuditRow>, x: AuditRow, keep: AuditRow -> bool)
    requires Sorted(rows) && NewId(rows, x)
    ensures Filter(Insert(rows, x), keep) == if keep(x) then Insert(Filter(rows, keep), x) else Filter(rows, keep)
  {
    if rows == [] {
    } else if Before(rows[|rows| - 1], x) {
      FilterSnoc(rows, x, keep);
      FilterAppend(rows, x, keep);
    } else {
      var n := |rows| - 1;
      FilterInsert(rows[..n], x, keep);
      FilterSnoc(Insert(rows[..n], x), rows[n], keep);
      InsertBelow(Filter(rows[..n], keep), rows[n], x);
    }
  }

  lemma InsertBelow(rows: seq<AuditRow>, last: AuditRow, x: AuditRow)
    requires !Before(last, x)
    ensures Insert(rows + [last], x) == Insert(rows, x) + [last]
  {
    assert (rows + [last])[..|rows|] == rows;
  }

  /** Filtering commutes with the listing order. */
  lemma {:induction false} OrderedFilter(rows: seq<AuditRow>, keep: AuditRow -> bool)
    requires DistinctIds(rows)
    ensures Ordered(Filter(rows, keep)) == Filter(Ordered(rows), keep)
  {
    if rows != [] {
      var n := |rows| - 1;
      LastNewId(rows);
      OrderedFilter(rows[..n], keep);
      OrderedSorted(rows[..n]);
      FilterInsert(Ordered(rows[..n]), rows[n], keep);
      var rest := Filter(rows[..n], keep);
      assert (rest + [rows[n]])[..|rest|] == rest;
    }
  }

  lemma {:induction false} FilterBoth(rows: seq<AuditRow>, p: AuditRow -> bool, q: AuditRow -> bool)
    ensures Filter(rows, Both(p, q)) == Filter(Filter(rows, p), q)
  {
    if rows != [] {
      var n := |rows| - 1;
      FilterBoth(rows[..n], p, q);
      FilterSnoc(Filter(rows[..n], p), rows[n], q);
    }
  }

  lemma {:induction false} FilterDistinct(rows: seq<AuditRow>, keep: AuditRow -> bool)
    requires DistinctIds(rows)
    ensures DistinctIds(Filter(rows, keep))
  {
    var rel := (a: AuditRow, b: AuditRow) => a.id != b.id;
    FilterPairwise(rows, keep, rel);
    var kept := Filter(rows, keep);
    forall i, j | 0 <= i < j < |kept| ensures kept[i].id != kept[j].id {
      assert rel(kept[i], kept[j]);
    }
  }

  /** The page query sees the part of the listing that is ahead of the cursor. */
  lemma QueryIsListingAhead(table: seq<AuditRow>, keep: AuditRow -> bool, cursor: Option<nat>)
    requires DistinctIds(table)
    ensures Query(table, keep, cursor) == Filter(Listing(table, keep), Older(cursor))
  {
    FilterBoth(table, keep, Older(cursor));
    FilterDistinct(table, keep);
    OrderedFilter(Filter(table, keep), Older(cursor));
  }

  /** Moving the cursor down to a row ahead of it filters the listing once more. */
  lemma {:induction false} CursorMoves(rows: seq<AuditRow>, cursor: Option<nat>, next: nat)
    requires cursor.Some? ==> next < cursor.value
    ensures Filter(Filter(rows, Older(cursor)), Older(Some(next))) == Filter(rows, Older(Some(next)))
  {
    if rows != [] {
      var n := |rows| - 1;
      CursorMoves(rows[..n], cursor, next);
      FilterSnoc(Filter(rows[..n], Older(cursor)), rows[n], Older(Some(next)));
    }
  }

  // ----- When paging is complete -----

  /** At every page boundary the ids split: none before it is below the cursor, all after it are. */
  ghost predicate SplitsAt(rows: seq<AuditRow>, b: nat)
    requires 0 < b < |rows|
  {
    && (forall i :: 0 <= i < b ==> rows[i].id >= rows[b - 1].id)
    && (forall i :: b <= i < |rows| ==> rows[i].id < rows[b - 1].id)
  }

  ghost predicate Splits(rows: seq<AuditRow>, page: nat)
    requires page > 0
  {
    forall b :: 0 < b < |rows| && b % page == 0 ==> SplitsAt(rows, b)
  }

  lemma BoundaryShift(b: nat, page: nat)
    requires page > 0
    ensures (b + page) % page == b % page
  {
    var q, r := (b + page) / page, (b + page) % page;
    assert b + page == q * page + r;
    var k := q - 1 - b / page;
    assert b == b / page * page + b % page;
    assert k * page + r == b % page;
    assert k >= 1 ==> k * page >= page;
    assert k <= -1 ==> k * page + page <= 0;
  }

  lemma NoBoundaryInFirstPage(b: nat, page: nat)
    requires 0 < b < page
    ensures b % page != 0
  {
    assert b % page == b;
  }

  lemma SplitsShift(rows: seq<AuditRow>, page: nat)
    requires 0 < page < |rows|
    ensures Splits(rows, page) <==> SplitsAt(rows, page) && Splits(rows[page..], page)
  {
    var rest := rows[page..];
    if Splits(rows, page) {
      assert page % page == 0;
      forall b | 0 < b < |rest| && b % page == 0 ensures SplitsAt(rest, b) {
        BoundaryShift(b, page);
        assert SplitsAt(rows, b + page);
        forall i | 0 <= i < |rest| ensures rest[i] == rows[i + page] {
        }
      }
    }
    if SplitsAt(rows, page) && Splits(rest, page) {
      forall b | 0 < b < |rows| && b % page == 0 ensures SplitsAt(rows, b) {
        if b > page {
          BoundaryShift(b - page, page);
          assert SplitsAt(rest, b - page);
          assert rest[b - page - 1] == rows[b - 1];
          forall i | page <= i < |rows| ensures rows[i] == rest[i - page] {
          }
        } else if b != page {
          NoBoundaryInFirstPage(b, page);
        }
      }
    }
  }

  lemma {:induction false} PagedMembers(ahead: seq<AuditRow>, page: nat, x: AuditRow)
    requires page > 0 && x in Paged(ahead, page)
    ensures x in ahead
    decreases |ahead|
  {
    if |ahead| > page && x !in ahead[..page] {
      var last := ahead[page - 1];
      FilterShrinks(ahead, Older(Some(last.id)), page - 1);
      PagedMembers(Filter(ahead, Older(Some(last.id))), page, x);
    }
  }

  lemma {:induction false} FilterNone(rows: seq<AuditRow>, keep: AuditRow -> bool)
    requires forall x :: x in rows ==> !keep(x)
    ensures Filter(rows, keep) == []
  {
    if rows != [] {
      FilterNone(rows[..|rows| - 1], keep);
    }
  }

  /** The first boundary splits exactly when the next query sees the rest of the rows, no more and no less. */
  lemma SplitIsCleanCut(rows: seq<AuditRow>, page: nat)
    requires 0 < page < |rows|
    ensures SplitsAt(rows, page) ==> Filter(rows, Older(Some(rows[page - 1].id))) == rows[page..]
  {
    var keep := Older(Some(rows[page - 1].id));
    assert rows == rows[..page] + rows[page..];
    FilterConcat(rows[..page], rows[page..], keep);
    if SplitsAt(rows, page) {
      FilterNone(rows[..page], keep);
      FilterAll(rows[page..], keep);
    }
  }

  /** What the first page leaves to be queried. */
  function AheadOfFirstPage(rows: seq<AuditRow>, page: nat): seq<AuditRow>
    requires 0 < page < |rows|
  {
    Filter(rows, Older(Some(rows[page - 1].id)))
  }

  lemma FirstPage(rows: seq<AuditRow>, page: nat)
    requires 0 < page < |rows|
    ensures |AheadOfFirstPage(rows, page)| < |rows|
    ensures Paged(rows, page) == rows[..page] + Paged(AheadOfFirstPage(rows, page), page)
    ensures Paged(rows, page) == rows <==> Paged(AheadOfFirstPage(rows, page), page) == rows[page..]
  {
    FilterShrinks(rows, Older(Some(rows[page - 1].id)), page - 1);
    var tail := Paged(AheadOfFirstPage(rows, page), page);
    assert rows == rows[..page] + rows[page..];
    assert (rows[..page] + tail)[page..] == tail;
  }

  /** If paging goes on with exactly the rest, the rest lies ahead of the cursor. */
  lemma RestIsAhead(rows: seq<AuditRow>, page: nat, i: nat)
    requires 0 < page <= i < |rows|
    requires Paged(AheadOfFirstPage(rows, page), page) == rows[page..]
    ensures rows[i].id < rows[page - 1].id
  {
    assert rows[page..][i - page] == rows[i];
    PagedMembers(AheadOfFirstPage(rows, page), page, rows[i]);
  }

  lemma PagedHead(ahead: seq<AuditRow>, page: nat)
    requires page > 0
    ensures Paged(ahead, page) != [] ==> ahead != [] && Paged(ahead, page)[0] == ahead[0]
  {
    if |ahead| > page {
      FirstPage(ahead, page);
    }
  }

  /** Rows of the first page that the cursor leaves ahead would be emitted first, a second time. */
  lemma EarlyComesAgain(rows: seq<AuditRow>, page: nat)
    requires 0 < page < |rows|
    requires Paged(AheadOfFirstPage(rows, page), page) == rows[page..]
    ensures var early := Filter(rows[..page], Older(Some(rows[page - 1].id)));
            early != [] ==> rows[page] in early
  {
    assert rows == rows[..page] + rows[page..];
    FilterConcat(rows[..page], rows[page..], Older(Some(rows[page - 1].id)));
    PagedHead(AheadOfFirstPage(rows, page), page);
  }

  lemma FirstPageNotAfter(rows: seq<AuditRow>, page: nat)
    requires 0 < page < |rows| && Sorted(rows)
    ensures rows[page] !in rows[..page]
  {
    forall k | 0 <= k < page ensures rows[k] != rows[page] {
      assert Before(rows[k], rows[page]);
    }
  }

  /** If paging goes on with exactly the rest, nothing of the first page is ahead of the cursor. */
  lemma FirstPageIsBehind(rows: seq<AuditRow>, page: nat, i: nat)
    requires i < page < |rows| && Sorted(rows)
    requires Paged(AheadOfFirstPage(rows, page), page) == rows[page..]
    ensures rows[i].id >= rows[page - 1].id
  {
    EarlyComesAgain(rows, page);
    FirstPageNotAfter(rows, page);
    var early := Filter(rows[..page], Older(Some(rows[page - 1].id)));
    assert rows[..page][i] in rows[..page];
  }

  lemma CompleteMeansSplit(rows: seq<AuditRow>, page: nat)
    requires 0 < page < |rows| && Sorted(rows) && Paged(rows, page) == rows
    ensures SplitsAt(rows, page)
  {
    FirstPage(rows, page);
    forall i | 0 <= i < |rows|
      ensures if i < page then rows[i].id >= rows[page - 1].id else rows[i].id < rows[page - 1].id
    {
      if i < page {
        FirstPageIsBehind(rows, page, i);
      } else {
        RestIsAhead(rows, page, i);
      }
    }
  }

  /** Paging emits the listing, each row once and in order, exactly when every page boundary splits the ids. */
  lemma {:induction false} PagingCompleteIff(rows: seq<AuditRow>, page: nat)
    requires page > 0 && Sorted(rows)
    ensures Paged(rows, page) == rows <==> Splits(rows, page)
    decreases |rows|
  {
    if |rows| <= page {
      forall b | 0 < b < |rows| ensures b % page != 0 {
        NoBoundaryInFirstPage(b, page);
      }
    } else {
      SplitsShift(rows, page);
      SplitIsCleanCut(rows, page);
      FirstPage(rows, page);
      assert Sorted(rows[page..]);
      PagingCompleteIff(rows[page..], page);
      if Paged(rows, page) == rows {
        CompleteMeansSplit(rows, page);
      }
    }
  }

  /** A later row has a larger id: what UUIDv7 primary keys are meant to give. */
  ghost predicate IdsFollowTime(rows: seq<AuditRow>) {
    forall a, b :: a in rows && b in rows && a.id < b.id ==> a.ts <= b.ts
  }

  /** When ids are distinct and follow time, paging is complete for every page size. */
  lemma PagingComplete(rows: seq<AuditRow>, page: nat)
    requires page > 0 && Sorted(rows) && DistinctIds(rows) && IdsFollowTime(rows)
    ensures Paged(rows, page) == rows
  {
    forall i, j | 0 <= i < j < |rows| ensures rows[i].id > rows[j].id {
      assert Before(rows[i], rows[j]);
      assert rows[i] in rows && rows[j] in rows;
    }
    FallingIdsSplit(rows, page);
    PagingCompleteIff(rows, page);
  }

  lemma FallingIdsSplit(rows: seq<AuditRow>, page: nat)
    requires page > 0 && forall i, j :: 0 <= i < j < |rows| ==> rows[i].id > rows[j].id
    ensures Splits(rows, page)
  {
  }

  /** A listing whose newest row has the smaller id loses the other row when the pages are cut between them. */
  lemma PagingCanSkip(newer: AuditRow, older: AuditRow)
    requires newer.ts > older.ts && newer.id < older.id
    ensures Sorted([newer, older]) && DistinctIds([newer, older])
    ensures Paged([newer, older], 1) == [newer]
  {
    var keep := Older(Some(newer.id));
    FilterNone([newer, older], keep);
    assert [newer, older][..1] == [newer];
  }

  // ----- The CSV export -----

  /** `toISOString` of a time and the text of a UUID, left open. */
  datatype Printer = Printer(iso: nat -> string, uuid: nat -> string)

  const HEADERS: seq<string> := [
    "ts", "id", "actor_type", "actor_id", "actor_email", "action",
    "target_type", "target_id", "visible_to_customer", "ip", "metadata"
  ]

  /** `names.join(',')` */
  function Join(names: seq<string>): string {
    if names == [] then "" else if |names| == 1 then names[0] else names[0] + "," + Join(names[1..])
  }

  const HEADER_LINE: string := Join(HEADERS) + "\n"

  function Optional(s: Option<string>): Csv.Value {
    match s case None => Csv.Null case Some(t) => Csv.Str(t)
  }

  /** The cells of `rowToCsvLine`. */
  function Cells(p: Printer, row: AuditRow): (cells: seq<Csv.Value>)
    ensures |cells| == |HEADERS|
  {
    [Csv.Str(p.iso(row.ts)), Csv.Str(p.uuid(row.id)), Csv.Str(row.actorType), Optional(row.actorId),
     Optional(row.actorEmail), Csv.Str(row.action), Optional(row.targetType), Optional(row.targetId),
     Csv.Str(if row.visible then "true" else "false"), Optional(row.ip), Csv.Other(row.metadata)]
  }

  function OrEmpty(s: Option<string>): string {
    if s.Some? then s.value else ""
  }

  /** The text that the export promises under a column name. */
  function Field(p: Printer, row: AuditRow, column: string): string {
    if column == "ts" then p.iso(row.ts)
    else if column == "id" then p.uuid(row.id)
    else if column == "actor_type" then row.actorType
    else if column == "actor_id" then OrEmpty(row.actorId)
    else if column == "actor_email" then OrEmpty(row.actorEmail)
    else if column == "action" then row.action
    else if column == "target_type" then OrEmpty(row.targetType)
    else if column == "target_id" then OrEmpty(row.targetId)
    else if column == "visible_to_customer" then (if row.visible then "true" else "false")
    else if column == "ip" then OrEmpty(row.ip)
    else if column == "metadata" then row.metadata
    else ""
  }

  /** Headers and cells are in the same order: each column holds the field it is named after. */
  lemma CellUnderHeader(p: Printer, row: AuditRow, i: nat)
    requires i < |HEADERS|
    ensures Csv.CellText(Cells(p, row)[i]) == Field(p, row, HEADERS[i])
  {
  }

  function AllCells(p: Printer, rows: seq<AuditRow>): (r: seq<seq<Csv.Value>>)
    ensures |r| == |rows| && forall i :: 0 <= i < |rows| ==> r[i] == Cells(p, rows[i])
  {
    seq(|rows|, i requires 0 <= i < |rows| => Cells(p, rows[i]))
  }

  /** The loop body over one page: a chunk for each row. */
  method PrintPage(p: Printer, page: seq<AuditRow>) returns (chunks: seq<string>)
    ensures chunks == Csv.Lines(AllCells(p, page))
  {
    chunks := [];
    for i := 0 to |page|
      invariant |chunks| == i
      invariant forall j :: 0 <= j < i ==> chunks[j] == Csv.Line(Cells(p, page[j]))
    {
      chunks := chunks + [Csv.Line(Cells(p, page[i]))];
    }
  }

  /** One more page printed after the rows so far. */
  lemma PrintMore(p: Printer, rows: seq<AuditRow>, page: seq<AuditRow>)
    ensures Csv.Lines(AllCells(p, rows + page)) == Csv.Lines(AllCells(p, rows)) + Csv.Lines(AllCells(p, page))
  {
    assert AllCells(p, rows + page) == AllCells(p, rows) + AllCells(p, page);
    Csv.LinesConcat(AllCells(p, rows), AllCells(p, page));
  }

  /** Moving the cursor to the last row of a full page. */
  lemma CursorAdvances(all: seq<AuditRow>, cursor: Option<nat>, next: nat, page: nat)
    requires page > 0
    requires var ahead := Filter(all, Older(cursor)); |ahead| > page && next == ahead[page - 1].id
    ensures var ahead, rest := Filter(all, Older(cursor)), Filter(all, Older(Some(next)));
            |rest| < |ahead| && Paged(ahead, page) == ahead[..page] + Paged(rest, page)
  {
    var ahead := Filter(all, Older(cursor));
    FirstPage(ahead, page);
    assert ahead[page - 1] in ahead;
    CursorMoves(all, cursor, next);
  }

  /** The rows already emitted, followed by what paging emits from the cursor on. */
  function Emission(all: seq<AuditRow>, emitted: seq<AuditRow>, cursor: Option<nat>, page: nat): seq<AuditRow>
    requires page > 0
  {
    emitted + Paged(Filter(all, Older(cursor)), page)
  }

  /** One query of the export loop leaves the emission unchanged; it ends it, or brings the cursor down. */
  lemma PageAdvances(all: seq<AuditRow>, emitted: seq<AuditRow>, cursor: Option<nat>, page: nat,
                     rows: seq<AuditRow>, next: Option<nat>)
    requires page > 0 && IsPage(Filter(all, Older(cursor)), page, rows, next)
    ensures next.None? ==> Emission(all, emitted, cursor, page) == emitted + rows
    ensures next.Some? ==>
              && |Filter(all, Older(next))| < |Filter(all, Older(cursor))|
              && Emission(all, emitted + rows, next, page) == Emission(all, emitted, cursor, page)
  {
    if next.Some? {
      CursorAdvances(all, cursor, next.value, page);
      ConcatAssociative(emitted, rows, Paged(Filter(all, Older(next)), page));
    }
  }

  /** The loop of the export: query a page, print it, move the cursor. */
  method StreamPages(table: seq<AuditRow>, keep: AuditRow -> bool, p: Printer)
    returns (chunks: seq<string>)
    requires DistinctIds(table)
    ensures chunks == Csv.Lines(AllCells(p, Paged(Listing(table, keep), STREAM_PAGE)))
  {
    chunks := [];
    ghost var rows: seq<AuditRow> := [];
    var cursor: Option<nat> := None;
    ghost var all := Listing(table, keep);
    FilterAll(all, Older(None));
    while true
      invariant Emission(all, rows, cursor, STREAM_PAGE) == Paged(all, STREAM_PAGE)
      invariant chunks == Csv.Lines(AllCells(p, rows))
      decreases |Filter(all, Older(cursor))|
    {
      QueryIsListingAhead(table, keep, cursor);
      var page, next := ListAuditPage(table, keep, Some(STREAM_PAGE), cursor);
      PageAdvances(all, rows, cursor, STREAM_PAGE, page, next);
      var printed := PrintPage(p, page);
      PrintMore(p, rows, page);
      chunks := chunks + printed;
      rows := rows + page;
      if next.None? {
        return;
      }
      cursor := next;
    }
  }

  /** The chunks that the export yields. */
  method StreamAuditCsv(table: seq<AuditRow>, keep: AuditRow -> bool, p: Printer) returns (chunks: seq<string>)
    requires DistinctIds(table)
    ensures chunks == [HEADER_LINE] + Csv.Lines(AllCells(p, Paged(Listing(table, keep), STREAM_PAGE)))
  {
    var lines := StreamPages(table, keep, p);
    chunks := [HEADER_LINE] + lines;
  }

  /** Names as cells. */
  function Named(names: seq<string>): (cells: seq<Csv.Value>)
    ensures |cells| == |names| && forall i :: 0 <= i < |names| ==> cells[i] == Csv.Str(names[i])
  {
    seq(|names|, i requires 0 <= i < |names| => Csv.Str(names[i]))
  }

  lemma {:induction false} JoinIsRecord(names: seq<string>)
    requires names != [] && forall i :: 0 <= i < |names| ==> !Csv.NeedsQuotes(names[i])
    ensures Csv.Joined(Named(names)) == Join(names)
  {
    if |names| > 1 {
      JoinIsRecord(names[1..]);
      assert Named(names)[1..] == Named(names[1..]);
    }
  }

  /** A name in lower-case letters and underscores. */
  predicate Plain(name: string) {
    forall i :: 0 <= i < |name| ==> 'a' <= name[i] <= 'z' || name[i] == '_'
  }

  lemma PlainNeedsNoQuotes(name: string)
    requires Plain(name)
    ensures !Csv.NeedsQuotes(name)
  {
  }

  lemma FirstHeadersArePlain(i: nat)
    requires i < 6
    ensures Plain(HEADERS[i])
  {
    if i == 0 { assert Plain("ts"); }
    else if i == 1 { assert Plain("id"); }
    else if i == 2 { assert Plain("actor_type"); }
    else if i == 3 { assert Plain("actor_id"); }
    else if i == 4 { assert Plain("actor_email"); }
    else { assert Plain("action"); }
  }

  lemma HeadersArePlain(i: nat)
    requires i < |HEADERS|
    ensures Plain(HEADERS[i])
  {
    if i < 6 { FirstHeadersArePlain(i); }
    else if i == 6 { assert Plain("target_type"); }
    else if i == 7 { assert Plain("target_id"); }
    else if i == 8 { assert Plain("visible_to_customer"); }
    else if i == 9 { assert Plain("ip"); }
    else { assert Plain("metadata"); }
  }

  /** No header needs quoting, so the header line is a record. */
  lemma HeaderIsRecord()
    ensures HEADER_LINE == Csv.Line(Named(HEADERS))
  {
    var names := HEADERS;
    forall i | 0 <= i < |names| ensures !Csv.NeedsQuotes(names[i]) {
      HeadersArePlain(i);
      PlainNeedsNoQuotes(names[i]);
    }
    JoinIsRecord(names);
  }

  /** The text of an export: the header and the lines of the paged listing. */
  function ExportText(table: seq<AuditRow>, keep: AuditRow -> bool, p: Printer): string {
    Csv.Concat([HEADER_LINE] + Csv.Lines(AllCells(p, Paged(Listing(table, keep), STREAM_PAGE))))
  }

  /** End to end: reading an exported file always gives the headers and the cells of the paged rows, in order. */
  lemma ExportReadsPaged(table: seq<AuditRow>, keep: AuditRow -> bool, p: Printer)
    ensures Csv.ReadFile(ExportText(table, keep, p)) ==
            Some([HEADERS] + Csv.Table(AllCells(p, Paged(Listing(table, keep), STREAM_PAGE))))
  {
    HeaderIsRecord();
    ReadBack(HEADERS, HEADER_LINE, AllCells(p, Paged(Listing(table, keep), STREAM_PAGE)));
  }

  ghost predicate InjectiveIds(p: Printer) {
    forall m, n :: p.uuid(m) == p.uuid(n) ==> m == n
  }

  /**
   When the printer tells ids apart, reading the exported file gives the headers and then every listed
   row, once and in order, exactly when the ids of the listing split at every page boundary.
   */
  lemma ExportCompleteIff(table: seq<AuditRow>, keep: AuditRow -> bool, p: Printer)
    requires DistinctIds(table) && InjectiveIds(p)
    ensures Csv.ReadFile(ExportText(table, keep, p)) == Some([HEADERS] + Csv.Table(AllCells(p, Listing(table, keep))))
            <==> Splits(Listing(table, keep), STREAM_PAGE)
  {
    var all := Listing(table, keep);
    var paged := Paged(all, STREAM_PAGE);
    ExportReadsPaged(table, keep, p);
    ListingSorted(table, keep);
    PagingCompleteIff(all, STREAM_PAGE);
    var a, b := Csv.Table(AllCells(p, paged)), Csv.Table(AllCells(p, all));
    assert ([HEADERS] + a)[1..] == a && ([HEADERS] + b)[1..] == b;
    if a == b {
      forall x | x in paged ensures x in all {
        PagedMembers(all, STREAM_PAGE, x);
      }
      SameTablesSameRows(p, paged, all);
    }
  }

  lemma ListingSorted(table: seq<AuditRow>, keep: AuditRow -> bool)
    requires DistinctIds(table)
    ensures Sorted(Listing(table, keep)) && DistinctIds(Listing(table, keep))
  {
    FilterDistinct(table, keep);
    OrderedSorted(Filter(table, keep));
  }

  /** Printed rows of one listing are told apart by their ids. */
  lemma SameTablesSameRows(p: Printer, paged: seq<AuditRow>, all: seq<AuditRow>)
    requires InjectiveIds(p) && DistinctIds(all) && forall x :: x in paged ==> x in all
    requires Csv.Table(AllCells(p, paged)) == Csv.Table(AllCells(p, all))
    ensures paged == all
  {
    PrintedLength(p, paged);
    PrintedLength(p, all);
    forall i | 0 <= i < |all| ensures paged[i] == all[i] {
      PrintedId(p, paged, i);
      PrintedId(p, all, i);
      IdTellsRow(all, paged[i], i);
    }
  }

  lemma PrintedLength(p: Printer, rows: seq<AuditRow>)
    ensures |Csv.Table(AllCells(p, rows))| == |rows|
  {
  }

  lemma PrintedId(p: Printer, rows: seq<AuditRow>, i: nat)
    requires i < |rows|
    ensures |Csv.Table(AllCells(p, rows))| == |rows| && |Csv.Table(AllCells(p, rows))[i]| > 1
    ensures Csv.Table(AllCells(p, rows))[i][1] == p.uuid(rows[i].id)
  {
    assert Csv.Table(AllCells(p, rows))[i] == Csv.Texts(Cells(p, rows[i]));
  }

  lemma IdTellsRow(rows: seq<AuditRow>, x: AuditRow, i: nat)
    requires DistinctIds(rows) && i < |rows| && x in rows && x.id == rows[i].id
    ensures x == rows[i]
  {
    var k :| 0 <= k < |rows| && rows[k] == x;
  }

  /** When ids follow time in the filtered rows, the export is complete. */
  lemma ExportReadsBack(table: seq<AuditRow>, keep: AuditRow -> bool, p: Printer)
    requires DistinctIds(table) && IdsFollowTime(Filter(table, keep))
    ensures Csv.ReadFile(ExportText(table, keep, p)) == Some([HEADERS] + Csv.Table(AllCells(p, Listing(table, keep))))
  {
    ListingSorted(table, keep);
    PagingComplete(Listing(table, keep), STREAM_PAGE);
    ExportReadsPaged(table, keep, p);
  }

  lemma {:induction false} NamedTexts(names: seq<string>)
    ensures Csv.Texts(Named(names)) == names
  {
    var texts := Csv.Texts(Named(names));
    forall i | 0 <= i < |names| ensures texts[i] == names[i] {
      assert Named(names)[i] == Csv.Str(names[i]);
    }
  }

  lemma LinesPrepend(first: seq<Csv.Value>, rest: seq<seq<Csv.Value>>)
    requires first != [] && Csv.NoEmptyRow(rest)
    ensures Csv.NoEmptyRow([first] + rest)
    ensures Csv.Lines([first] + rest) == [Csv.Line(first)] + Csv.Lines(rest)
  {
  }

  lemma TablePrepend(first: seq<Csv.Value>, rest: seq<seq<Csv.Value>>)
    ensures Csv.Table([first] + rest) == [Csv.Texts(first)] + Csv.Table(rest)
  {
    assert ([first] + rest)[1..] == rest;
  }

  lemma ReadBack(names: seq<string>, header: string, cells: seq<seq<Csv.Value>>)
    requires names != [] && header == Csv.Line(Named(names)) && Csv.NoEmptyRow(cells)
    ensures Csv.ReadFile(Csv.Concat([header] + Csv.Lines(cells))) == Some([names] + Csv.Table(cells))
  {
    LinesPrepend(Named(names), cells);
    TablePrepend(Named(names), cells);
    NamedTexts(names);
    Csv.FileRoundTrip([Named(names)] + cells);
  }
}
