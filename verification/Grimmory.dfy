/** The disk-spooled catalogue (services/app/adapters/grimmory.py): the download into
    a table, and pages read from it by a remembered key or by an offset. */
module Grimmory {
  import opened Outcomes
  import Ordering
  import Decimals

  datatype Row = Row(id: string, library: string, value: string)

  datatype Response = Malformed | Content(rows: seq<Row>, totalElements: nat, totalPages: nat)

  datatype Error = Unparsable | Changed | InconsistentPages | Repeated | NoProgress

  const PAGE_SIZE := 20

  // ---------------------------------------------------------------- queries

  /** ORDER BY length(id), id */
  predicate Before(a: string, b: string) {
    |a| < |b| || (|a| == |b| && Ordering.Less(a, b))
  }

  lemma BeforeIsTotalOrder(a: string, b: string, c: string)
    ensures a != b ==> Before(a, b) || Before(b, a)
    ensures !(Before(a, b) && Before(b, a))
    ensures Before(a, b) && Before(b, c) ==> Before(a, c)
    ensures !Before(a, a)
  {
    Ordering.LessTotal(a, b);
    Ordering.LessTotal(a, a);
    if |a| == |b| == |c| && Ordering.Less(a, b) && Ordering.Less(b, c) {
      Ordering.LessTransitive(a, b, c);
    }
  }

  /** The key orders identifiers, which are printed numbers, by their numbers. */
  lemma BeforeIsNumeric(a: nat, b: nat)
    ensures Before(Decimals.Decimal(a), Decimals.Decimal(b)) <==> a < b
  {
    Decimals.DecimalIsNumeral(a);
    Decimals.DecimalIsNumeral(b);
    Decimals.LengthOrder(Decimals.Decimal(a), Decimals.Decimal(b));
    Decimals.LengthOrder(Decimals.Decimal(b), Decimals.Decimal(a));
  }

  ghost predicate DistinctIds(rows: seq<Row>) {
    forall i, j :: 0 <= i < j < |rows| ==> rows[i].id != rows[j].id
  }

  ghost predicate Sorted(rows: seq<Row>) {
    forall i, j :: 0 <= i < j < |rows| ==> Before(rows[i].id, rows[j].id)
  }

  function Insert(row: Row, sorted: seq<Row>): seq<Row> {
    if sorted == [] || Before(row.id, sorted[0].id) then [row] + sorted
    else [sorted[0]] + Insert(row, sorted[1..])
  }

  function OrderBy(rows: seq<Row>): seq<Row> {
    if rows == [] then [] else Insert(rows[0], OrderBy(rows[1..]))
  }

  function InLibrary(rows: seq<Row>, library: string): seq<Row> {
    if rows == [] then []
    else (if rows[0].library == library then [rows[0]] else []) + InLibrary(rows[1..], library)
  }

  function Beyond(rows: seq<Row>, id: string): seq<Row> {
    if rows == [] then []
    else (if Before(id, rows[0].id) then [rows[0]] else []) + Beyond(rows[1..], id)
  }

  function Limit(rows: seq<Row>, n: nat): seq<Row> {
    if |rows| <= n then rows else rows[..n]
  }

  function Skip(rows: seq<Row>, n: nat): seq<Row> {
    if |rows| <= n then [] else rows[n..]
  }

  /** WHERE library=? ORDER BY key LIMIT ? OFFSET ? */
  function OffsetQuery(books: seq<Row>, library: string, page: nat): seq<Row> {
    Limit(Skip(OrderBy(InLibrary(books, library)), page * PAGE_SIZE), PAGE_SIZE)
  }

  /** WHERE library=? AND key > ? ORDER BY key LIMIT ? */
  function KeysetQuery(books: seq<Row>, library: string, after: string): seq<Row> {
    Limit(OrderBy(Beyond(InLibrary(books, library), after)), PAGE_SIZE)
  }

  // ---------------------------------------------------------------- the two queries agree

  lemma {:induction false} InsertFacts(row: Row, sorted: seq<Row>)
    requires Sorted(sorted) && forall i :: 0 <= i < |sorted| ==> sorted[i].id != row.id
    ensures Sorted(Insert(row, sorted))
    ensures multiset(Insert(row, sorted)) == multiset([row]) + multiset(sorted)
  {
    if sorted == [] {
    } else if Before(row.id, sorted[0].id) {
      forall i | 0 <= i < |sorted| ensures Before(row.id, sorted[i].id) {
        BeforeIsTotalOrder(row.id, sorted[0].id, sorted[i].id);
      }
    } else {
      BeforeIsTotalOrder(row.id, sorted[0].id, row.id);
      InsertFacts(row, sorted[1..]);
      assert sorted == [sorted[0]] + sorted[1..];
      var rest := Insert(row, sorted[1..]);
      forall i | 0 <= i < |rest| ensures Before(sorted[0].id, rest[i].id) {
        assert rest[i] in multiset(rest);
        assert rest[i] == row || rest[i] in sorted[1..];
      }
    }
  }

  lemma {:induction false} OrderByFacts(rows: seq<Row>)
    requires DistinctIds(rows)
    ensures Sorted(OrderBy(rows)) && multiset(OrderBy(rows)) == multiset(rows)
    ensures |OrderBy(rows)| == |rows|
  {
    if rows != [] {
      OrderByFacts(rows[1..]);
      assert rows == [rows[0]] + rows[1..];
      var rest := OrderBy(rows[1..]);
      forall i | 0 <= i < |rest| ensures rest[i].id != rows[0].id {
        assert rest[i] in multiset(rest);
        assert rest[i] in rows[1..];
      }
      InsertFacts(rows[0], rest);
      assert |multiset(OrderBy(rows))| == |multiset(rows)|;
    }
  }

  lemma BeyondFirst(row: Row, rows: seq<Row>, id: string)
    ensures Beyond([row] + rows, id) == if Before(id, row.id) then [row] + Beyond(rows, id) else Beyond(rows, id)
  {
    assert ([row] + rows)[1..] == rows;
    assert [] + Beyond(rows, id) == Beyond(rows, id);
  }

  lemma InsertAfterFirst(row: Row, first: Row, rows: seq<Row>)
    requires !Before(row.id, first.id)
    ensures Insert(row, [first] + rows) == [first] + Insert(row, rows)
  {
    assert ([first] + rows)[1..] == rows;
  }

  lemma {:induction false} BeyondInsert(row: Row, sorted: seq<Row>, id: string)
    requires Sorted(sorted)
    ensures Beyond(Insert(row, sorted), id)
         == if Before(id, row.id) then Insert(row, Beyond(sorted, id)) else Beyond(sorted, id)
  {
    if sorted == [] {
      BeyondFirst(row, [], id);
    } else if Before(row.id, sorted[0].id) {
      BeforeIsTotalOrder(id, row.id, sorted[0].id);
      BeyondFirst(row, sorted, id);
      BeyondFirst(sorted[0], sorted[1..], id);
      assert [sorted[0]] + sorted[1..] == sorted;
    } else {
      var first, rest := sorted[0], sorted[1..];
      assert [first] + rest == sorted;
      BeyondInsert(row, rest, id);
      InsertAfterFirst(row, first, rest);
      InsertAfterFirst(row, first, Beyond(rest, id));
      BeyondFirst(first, Insert(row, rest), id);
      BeyondFirst(first, rest, id);
    }
  }

  /** Filtering by key commutes with ordering by key. */
  lemma {:induction false} BeyondOrderBy(rows: seq<Row>, id: string)
    requires DistinctIds(rows)
    ensures Beyond(OrderBy(rows), id) == OrderBy(Beyond(rows, id))
  {
    if rows != [] {
      OrderByFacts(rows[1..]);
      BeyondOrderBy(rows[1..], id);
      BeyondInsert(rows[0], OrderBy(rows[1..]), id);
      var kept := Beyond(rows[1..], id);
      if Before(id, rows[0].id) {
        assert ([rows[0]] + kept)[1..] == kept;
      } else {
        assert [] + kept == kept;
      }
    }
  }

  lemma {:induction false} BeyondSorted(sorted: seq<Row>, k: nat)
    requires Sorted(sorted) && k < |sorted|
    ensures Beyond(sorted, sorted[k].id) == sorted[k + 1..]
  {
    var first, rest := sorted[0], sorted[1..];
    assert sorted == [first] + rest;
    BeyondFirst(first, rest, sorted[k].id);
    BeforeIsTotalOrder(first.id, sorted[k].id, first.id);
    if k > 0 {
      BeyondSorted(rest, k - 1);
      assert rest[k..] == sorted[k + 1..];
    } else {
      BeyondAll(rest, first.id);
    }
  }

  lemma {:induction false} BeyondAll(rows: seq<Row>, id: string)
    requires forall i :: 0 <= i < |rows| ==> Before(id, rows[i].id)
    ensures Beyond(rows, id) == rows
  {
    if rows != [] {
      BeyondAll(rows[1..], id);
    }
  }

  lemma {:induction false} InLibraryFacts(books: seq<Row>, library: string)
    requires DistinctIds(books)
    ensures DistinctIds(InLibrary(books, library))
    ensures forall row :: row in InLibrary(books, library) <==> row in books && row.library == library
  {
    if books != [] {
      InLibraryFacts(books[1..], library);
      var rest := InLibrary(books[1..], library);
      assert books == [books[0]] + books[1..];
      forall j | 0 <= j < |rest| ensures rest[j].id != books[0].id {
        assert rest[j] in rest;
      }
    }
  }

  /** Reading on from the last key of a non-empty page gives exactly the rows the next
      offset gives, also after a short page, where both give none. */
  lemma KeysetIsNextOffset(books: seq<Row>, library: string, page: nat)
    requires DistinctIds(books) && OffsetQuery(books, library, page) != []
    ensures var records := OffsetQuery(books, library, page);
            KeysetQuery(books, library, records[|records| - 1].id) == OffsetQuery(books, library, page + 1)
  {
    var rows := InLibrary(books, library);
    InLibraryFacts(books, library);
    OrderByFacts(rows);
    var sorted := OrderBy(rows);
    var records := OffsetQuery(books, library, page);
    var k := page * PAGE_SIZE + |records| - 1;
    assert records[|records| - 1] == sorted[k];
    BeyondOrderBy(rows, sorted[k].id);
    BeyondSorted(sorted, k);
  }

  /** The rows that a library's pages are cut from. */
  lemma OrderedRows(books: seq<Row>, library: string)
    requires DistinctIds(books)
    ensures var all := OrderBy(InLibrary(books, library));
            && Sorted(all) && |all| == |InLibrary(books, library)|
            && forall row :: row in all <==> row in books && row.library == library
  {
    var found := InLibrary(books, library);
    InLibraryFacts(books, library);
    OrderByFacts(found);
    forall row ensures row in OrderBy(found) <==> row in found {
      assert row in OrderBy(found) <==> row in multiset(OrderBy(found));
      assert row in found <==> row in multiset(found);
    }
  }

  /** Which of them a page is: from the twentieth times the page on, twenty of them or as
      many as there are. */
  lemma PageSpelled(books: seq<Row>, library: string, page: nat)
    ensures var all, rows := OrderBy(InLibrary(books, library)), OffsetQuery(books, library, page);
            && |rows| == (if |all| <= 20 * page then 0 else if |all| <= 20 * page + 20 then |all| - 20 * page else 20)
            && forall i :: 0 <= i < |rows| ==> rows[i] == all[20 * page + i]
  {
  }

  /** A library's count is the number of its rows. */
  lemma CountSpelled(books: seq<Row>, library: string)
    ensures library in CountByLibrary(books) <==> exists row :: row in books && row.library == library
    ensures library in CountByLibrary(books) ==> CountByLibrary(books)[library] == |InLibrary(books, library)|
  {
  }

  // ---------------------------------------------------------------- the catalogue

  /** SELECT library, count(*) ... GROUP BY library */
  function CountByLibrary(books: seq<Row>): map<string, nat> {
    map library | library in (set row | row in books :: row.library) :: |InLibrary(books, library)|
  }

  function Repeats(books: seq<Row>, rows: seq<Row>): bool {
    exists i, j :: 0 <= i < j < |books + rows| && (books + rows)[i].id == (books + rows)[j].id
  }

  /** A server that holds `all` throughout and pages it in order. */
  ghost predicate Steady(server: nat -> Response, all: seq<Row>) {
    forall page: nat :: server(page) ==
      Content(Limit(Skip(all, page * PAGE_SIZE), PAGE_SIZE), |all|, (|all| + PAGE_SIZE - 1) / PAGE_SIZE)
  }

  /** The table after the first `pages` pages, all of which announced `total`. */
  ghost predicate Spooled(server: nat -> Response, pages: nat, books: seq<Row>, total: nat) {
    && DistinctIds(books)
    && |books| <= total
    && forall k: nat :: k < pages ==>
         && server(k).Content? && server(k).totalElements == total
         && server(k).rows == Limit(Skip(books, k * PAGE_SIZE), PAGE_SIZE)
         && (total == 0 || server(k).totalPages == (total + 19) / 20)
  }

  function PageCount(total: nat): nat {
    (total + PAGE_SIZE - 1) / PAGE_SIZE
  }

  /** The checks of one reply against what was announced and read so far. */
  predicate Acceptable(response: Response, read: nat, total: nat)
    requires read <= total
  {
    && response.Content? && response.totalElements == total
    && |response.rows| == (if total - read < PAGE_SIZE then total - read else PAGE_SIZE)
    && (response.totalPages == PageCount(total) || total == 0)
  }

  lemma SpoolGrows(server: nat -> Response, page: nat, books: seq<Row>, total: nat)
    requires Spooled(server, page, books, total) && |books| == page * PAGE_SIZE
    requires Acceptable(server(page), |books|, total) && !Repeats(books, server(page).rows)
    ensures Spooled(server, page + 1, books + server(page).rows, total)
    ensures |books + server(page).rows| < total ==> |books + server(page).rows| == (page + 1) * PAGE_SIZE
    ensures |books + server(page).rows| <= (page + 1) * PAGE_SIZE
  {
    var grown := books + server(page).rows;
    forall k: nat | k < page + 1 ensures server(k).rows == Limit(Skip(grown, k * PAGE_SIZE), PAGE_SIZE) {
      if k < page {
        assert Limit(Skip(grown, k * PAGE_SIZE), PAGE_SIZE) == Limit(Skip(books, k * PAGE_SIZE), PAGE_SIZE);
      }
    }
  }

  /** The table is a prefix of what a steady server holds. */
  ghost predicate Follows(server: nat -> Response, books: seq<Row>, total: Option<nat>) {
    forall all :: Steady(server, all) && DistinctIds(all) ==> books <= all && (total.Some? ==> total.value == |all|)
  }

  ghost predicate SomeSteady(server: nat -> Response) {
    exists all :: Steady(server, all) && DistinctIds(all)
  }

  lemma SteadySpools(server: nat -> Response, page: nat, books: seq<Row>, all: seq<Row>)
    requires Steady(server, all) && DistinctIds(all)
    requires books <= all && |books| == page * PAGE_SIZE
    ensures Acceptable(server(page), |books|, |all|) && !Repeats(books, server(page).rows)
    ensures books + server(page).rows <= all
  {
    assert server(page) == Content(Limit(Skip(all, page * PAGE_SIZE), PAGE_SIZE), |all|,
           (|all| + PAGE_SIZE - 1) / PAGE_SIZE);
    var grown := books + server(page).rows;
    assert grown == all[..|grown|];
    forall i, j | 0 <= i < j < |grown| ensures grown[i].id != grown[j].id {
      assert grown[i] == all[i] && grown[j] == all[j];
    }
  }

  /** A steady server is never refused, and following it goes on. */
  lemma FollowsOn(server: nat -> Response, page: nat, books: seq<Row>, total: Option<nat>)
    requires Follows(server, books, total) && |books| == page * PAGE_SIZE
    ensures SomeSteady(server) ==>
              && server(page).Content?
              && (total.Some? ==> server(page).totalElements == total.value)
              && |books| <= server(page).totalElements && Acceptable(server(page), |books|, server(page).totalElements)
              && !Repeats(books, server(page).rows)
    ensures server(page).Content? ==> Follows(server, books + server(page).rows, Some(server(page).totalElements))
  {
    forall all | Steady(server, all) && DistinctIds(all)
      ensures server(page).Content? && (total.Some? ==> server(page).totalElements == total.value)
      ensures server(page).totalElements == |all| && books <= all && Acceptable(server(page), |books|, |all|)
      ensures !Repeats(books, server(page).rows) && books + server(page).rows <= all
    {
      SteadySpools(server, page, books, all);
    }
  }

  /** The table is exactly what a steady server holds. */
  ghost predicate Mirrors(server: nat -> Response, db: Option<seq<Row>>) {
    forall all :: Steady(server, all) && DistinctIds(all) ==> db == Some(all)
  }

  lemma FollowedToTheEnd(server: nat -> Response, books: seq<Row>)
    requires Follows(server, books, Some(|books|))
    ensures Mirrors(server, Some(books))
  {
    forall all | Steady(server, all) && DistinctIds(all) ensures books == all {
      FullPrefix(books, all);
    }
  }

  lemma FullPrefix(books: seq<Row>, all: seq<Row>)
    requires books <= all && |books| == |all|
    ensures books == all
  {
  }

  lemma NothingSteady(server: nat -> Response)
    requires !SomeSteady(server)
    ensures Mirrors(server, None)
  {
  }

  /** Each cursor is the last key of a page that had rows. */
  ghost predicate CursorsAgree(books: seq<Row>, cursors: map<string, (nat, string)>) {
    forall library :: library in cursors ==> CursorOf(books, library, cursors[library])
  }

  ghost predicate CursorOf(books: seq<Row>, library: string, cursor: (nat, string)) {
    var records := OffsetQuery(books, library, cursor.0);
    records != [] && cursor.1 == records[|records| - 1].id
  }

  ghost predicate Complete(server: nat -> Response, books: seq<Row>) {
    exists pages: nat :: Spooled(server, pages, books, |books|) && |books| <= pages * PAGE_SIZE
  }

  /** The loop over pages, with every check on a reply. */
  method SpoolPages(server: nat -> Response) returns (r: Result<seq<Row>, Error>)
    ensures r.Ok? ==> DistinctIds(r.value) && Complete(server, r.value)
    ensures Mirrors(server, if r.Ok? then Some(r.value) else None)
  {
    var books: seq<Row> := [];
    var page := 0;
    var total: Option<nat> := None;
    while true
      invariant |books| == page * PAGE_SIZE
      invariant if total.None? then page == 0 else Spooled(server, page, books, total.value) && |books| < total.value
      invariant Follows(server, books, total)
      decreases if total.None? then 1 else 0, if total.None? then 0 else total.value - |books|
    {
      FollowsOn(server, page, books, total);
      var response := server(page);
      if response.Malformed? {
        NothingSteady(server);
        return Err(Unparsable);
      }
      if total.None? {
        total := Some(response.totalElements);
      }
      var left := total.value - |books|;
      if total.value != response.totalElements || |response.rows| != (if left < PAGE_SIZE then left else PAGE_SIZE) {
        NothingSteady(server);
        return Err(Changed);
      }
      if response.totalPages != PageCount(total.value) && total.value != 0 {
        NothingSteady(server);
        return Err(InconsistentPages);
      }
      if Repeats(books, response.rows) {
        NothingSteady(server);
        return Err(Repeated);
      }
      SpoolGrows(server, page, books, total.value);
      books := books + response.rows;
      page := page + 1;
      if |books| == total.value {
        break;
      }
      if response.rows == [] {
        return Err(NoProgress);
      }
    }
    assert Spooled(server, page, books, |books|);
    FollowedToTheEnd(server, books);
    r := Ok(books);
  }

  class Catalog {
    var db: Option<seq<Row>>
    var counts: map<string, nat>
    /** By library: the last page read that had rows, and its last key. */
    var cursors: map<string, (nat, string)>

    ghost predicate Valid()
      reads this
    {
      && (db.None? ==> counts == map[] && cursors == map[])
      && (db.Some? ==>
            DistinctIds(db.value) && counts == CountByLibrary(db.value) && CursorsAgree(db.value, cursors))
    }

    constructor ()
      ensures Valid() && db.None?
    {
      db, counts, cursors := None, map[], map[];
    }

    method CloseCatalog()
      modifies this
      ensures Valid() && db.None?
    {
      db, counts, cursors := None, map[], map[];
    }

    /** A new table, or nothing when a page is refused. On success it holds exactly
        what the pages held, as many rows as every reply announced, each id once. */
    method DownloadCatalog(server: nat -> Response) returns (error: Option<Error>)
      requires Valid() && db.None?
      modifies this
      ensures Valid() && cursors == map[]
      ensures error.Some? <==> db.None?
      ensures error.None? ==> Complete(server, db.value)
      ensures Mirrors(server, db)
    {
      var spooled := SpoolPages(server);
      if spooled.Err? {
        return Some(spooled.error);
      }
      db, counts := Some(spooled.value), CountByLibrary(spooled.value);
      error := None;
    }

    /** A fresh download; nothing remembered about the old table survives. */
    method RefreshSnapshot(server: nat -> Response) returns (error: Option<Error>)
      requires Valid()
      modifies this
      ensures Valid() && cursors == map[]
      ensures error.Some? <==> db.None?
      ensures Mirrors(server, db)
    {
      CloseCatalog();
      error := DownloadCatalog(server);
    }

    /** One page of a library and its size. Whatever was read before, the rows are the
        ones the offset query gives. */
    method Page(library: string, page: nat, server: nat -> Response) returns (r: Result<(seq<Row>, nat), Error>)
      requires Valid()
      modifies this
      ensures Valid()
      ensures old(db).Some? ==> db == old(db) && r.Ok?
      ensures r.Ok? ==>
                && db.Some?
                && r.value.0 == OffsetQuery(db.value, library, page)
                && r.value.1 == |InLibrary(db.value, library)|
      ensures r.Err? ==> db.None?
    {
      if db.None? {
        var error := DownloadCatalog(server);
        if error.Some? {
          return Err(error.value);
        }
      }
      var records, total := ReadPage(library, page);
      r := Ok((records, total));
    }

    method ReadPage(library: string, page: nat) returns (records: seq<Row>, total: nat)
      requires Valid() && db.Some?
      modifies this`cursors
      ensures Valid()
      ensures records == OffsetQuery(db.value, library, page)
      ensures total == |InLibrary(db.value, library)|
    {
      if library in cursors && page == cursors[library].0 + 1 {
        CursorServes(db.value, cursors, library);
        records := KeysetQuery(db.value, library, cursors[library].1);
      } else {
        records := OffsetQuery(db.value, library, page);
      }
      RememberCursor(db.value, cursors, library, page);
      if records != [] {
        cursors := cursors[library := (page, records[|records| - 1].id)];
      }
      CountOfLibrary(db.value, library);
      total := if library in counts then counts[library] else 0;
    }
  }

  /** A remembered cursor answers for the page after it. */
  lemma CursorServes(books: seq<Row>, cursors: map<string, (nat, string)>, library: string)
    requires DistinctIds(books) && CursorsAgree(books, cursors) && library in cursors
    ensures KeysetQuery(books, library, cursors[library].1) == OffsetQuery(books, library, cursors[library].0 + 1)
  {
    assert CursorOf(books, library, cursors[library]);
    KeysetIsNextOffset(books, library, cursors[library].0);
  }

  lemma RememberCursor(books: seq<Row>, cursors: map<string, (nat, string)>, library: string, page: nat)
    requires CursorsAgree(books, cursors)
    ensures var records := OffsetQuery(books, library, page);
            records != [] ==> CursorsAgree(books, cursors[library := (page, records[|records| - 1].id)])
  {
    var records := OffsetQuery(books, library, page);
    assert records != [] ==> CursorOf(books, library, (page, records[|records| - 1].id));
    assert forall other :: other in cursors ==> CursorOf(books, other, cursors[other]);
  }

  lemma CountOfLibrary(books: seq<Row>, library: string)
    requires DistinctIds(books)
    ensures library !in CountByLibrary(books) ==> InLibrary(books, library) == []
  {
    InLibraryFacts(books, library);
    var rows := InLibrary(books, library);
    if rows != [] {
      assert rows[0] in rows;
    }
  }
}
