/** Walking a month of audiobook editions in overlapping pages
    (services/app/adapters/hardcover_discovery.py). */
module HardcoverDiscovery {
  import opened Outcomes

  /** One edition row. `usable` says that the row and its release day pass the checks
      made on every row; `book` is the identifier of its book, absent when it is not
      an identifier; `complete` says that the book's own fields are valid. */
  datatype Row = Row(usable: bool, redirect: bool, book: Option<string>, complete: bool, day: string)

  datatype Book = Book(id: string, day: string)

  datatype Batch = Batch(items: seq<Book>, hasMore: bool, warning: bool)

  const STRIDE := 100
  const MAX_PAGES := 20

  function Limit<T>(rows: seq<T>, n: nat): seq<T> {
    if |rows| <= n then rows else rows[..n]
  }

  function Skip<T>(rows: seq<T>, n: nat): seq<T> {
    if |rows| <= n then [] else rows[n..]
  }

  ghost predicate Mentions(books: seq<Book>, id: string) {
    exists b :: b in books && b.id == id
  }

  predicate Placed(row: Row) {
    row.usable && (row.redirect || row.book.Some?)
  }

  predicate Readable(row: Row) {
    Placed(row) && (row.redirect || row.complete)
  }

  /** The plain reading of a whole ordered list: redirects dropped, and the first
      edition of each book kept. */
  ghost function FirstEditions(rows: seq<Row>): seq<Book> {
    if rows == [] then []
    else Extended(FirstEditions(rows[..|rows| - 1]), rows[|rows| - 1])
  }

  ghost function Extended(books: seq<Book>, row: Row): seq<Book> {
    if row.redirect || row.book.None? || Mentions(books, row.book.value) then books
    else books + [Book(row.book.value, row.day)]
  }

  lemma FirstEditionsLast(rows: seq<Row>, row: Row)
    ensures FirstEditions(rows + [row]) == Extended(FirstEditions(rows), row)
  {
    assert (rows + [row])[..|rows|] == rows;
  }

  /** A row that makes its page invalid: only the first edition of a book has the
      book's own fields read. */
  ghost predicate FaultAt(rows: seq<Row>, k: nat) {
    && k < |rows|
    && (!Placed(rows[k])
        || (!rows[k].redirect && !rows[k].complete && !Mentions(FirstEditions(rows[..k]), rows[k].book.value)))
  }

  // ---------------------------------------------------------------- one page

  lemma KeptIsSeen(seen: set<string>, books: seq<Book>, kept: Book)
    requires forall id :: id in seen <==> Mentions(books, id)
    ensures forall id :: id in seen + {kept.id} <==> Mentions(books + [kept], id)
  {
    forall id ensures id in seen + {kept.id} <==> Mentions(books + [kept], id) {
      MentionsGrow(books, [kept], id);
      assert kept in [kept];
    }
  }

  /** Up to `limit` books of a page fetched with one row of look-ahead. */
  method EditionPage(rows: seq<Row>, limit: nat) returns (r: Option<(seq<Book>, bool)>)
    ensures r.None? <==> |rows| > limit + 1 || exists k: nat :: FaultAt(rows, k)
    ensures r.Some? ==>
              var books := FirstEditions(rows);
              r.value == (if |books| <= limit then books else books[..limit], |rows| > limit)
  {
    if |rows| > limit + 1 {
      return None;
    }
    var books: seq<Book> := [];
    var seen: set<string> := {};
    for k := 0 to |rows|
      invariant books == FirstEditions(rows[..k])
      invariant forall id :: id in seen <==> Mentions(books, id)
      invariant forall i: nat :: i < k ==> !FaultAt(rows, i)
    {
      var row := rows[k];
      assert rows[..k + 1] == rows[..k] + [row];
      FirstEditionsLast(rows[..k], row);
      if !row.usable {
        assert FaultAt(rows, k);
        return None;
      }
      if row.redirect {
        continue;
      }
      if row.book.None? {
        assert FaultAt(rows, k);
        return None;
      }
      if row.book.value in seen {
        continue;
      }
      if !row.complete {
        assert FaultAt(rows, k);
        return None;
      }
      var kept := Book(row.book.value, row.day);
      KeptIsSeen(seen, books, kept);
      seen := seen + {kept.id};
      books := books + [kept];
    }
    assert rows[..|rows|] == rows;
    r := Some((Limit(books, limit), |rows| > limit));
  }

  // ---------------------------------------------------------------- the month

  /** Adding books in order, skipping the ones already there. */
  ghost function Merged(items: seq<Book>, books: seq<Book>): seq<Book> {
    if books == [] then items
    else
      var merged, b := Merged(items, books[..|books| - 1]), books[|books| - 1];
      if Mentions(merged, b.id) then merged else merged + [b]
  }

  lemma MentionsGrow(a: seq<Book>, b: seq<Book>, id: string)
    ensures Mentions(a + b, id) <==> Mentions(a, id) || Mentions(b, id)
  {
    if Mentions(a, id) {
      var x :| x in a && x.id == id;
      assert x in a + b;
    }
    if Mentions(b, id) {
      var x :| x in b && x.id == id;
      assert x in a + b;
    }
  }

  lemma {:induction false} MergedMentions(items: seq<Book>, books: seq<Book>, id: string)
    ensures Mentions(Merged(items, books), id) <==> Mentions(items, id) || Mentions(books, id)
  {
    if books != [] {
      var init, b := books[..|books| - 1], books[|books| - 1];
      MergedMentions(items, init, id);
      MergedMentions(items, init, b.id);
      assert books == init + [b];
      MentionsGrow(init, [b], id);
      MentionsGrow(Merged(items, init), [b], id);
    }
  }

  lemma MergedLast(items: seq<Book>, books: seq<Book>, b: Book)
    ensures Merged(items, books + [b])
         == if Mentions(Merged(items, books), b.id) then Merged(items, books) else Merged(items, books) + [b]
  {
    assert (books + [b])[..|books|] == books;
  }

  /** Reading on from a prefix and merging what the rest holds is reading it all: a
      book dropped from the rest as already seen is first in the prefix. */
  lemma {:induction false} MergeContinues(before: seq<Row>, rows: seq<Row>)
    ensures Merged(FirstEditions(before), FirstEditions(rows)) == FirstEditions(before + rows)
  {
    if rows == [] {
      assert before + rows == before;
    } else {
      var init, row := rows[..|rows| - 1], rows[|rows| - 1];
      MergeContinues(before, init);
      assert before + rows == before + init + [row];
      FirstEditionsLast(before + init, row);
      if !row.redirect && row.book.Some? {
        var id := row.book.value;
        MergedMentions(FirstEditions(before), FirstEditions(init), id);
        if !Mentions(FirstEditions(init), id) {
          MergedLast(FirstEditions(before), FirstEditions(init), Book(id, row.day));
        }
      }
    }
  }

  lemma ReadTwice(before: seq<Row>, row: Row)
    ensures FirstEditions(before + [row] + [row]) == FirstEditions(before + [row])
  {
    var books := FirstEditions(before);
    FirstEditionsLast(before, row);
    FirstEditionsLast(before + [row], row);
    if !row.redirect && row.book.Some? && !Mentions(books, row.book.value) {
      var b := Book(row.book.value, row.day);
      assert b in books + [b];
    }
  }

  /** Whether or not the look-ahead row was read with an earlier page, reading it
      again adds nothing. */
  lemma OverlapIsHarmless(before: seq<Row>, row: Row, rows: seq<Row>)
    ensures FirstEditions(before + [row] + ([row] + rows)) == FirstEditions(before + ([row] + rows))
  {
    Reassociate(before, row, rows);
    ReadTwice(before, row);
    MergeContinues(before + [row] + [row], rows);
    MergeContinues(before + [row], rows);
  }

  lemma Reassociate(before: seq<Row>, row: Row, rows: seq<Row>)
    ensures before + [row] + ([row] + rows) == (before + [row] + [row]) + rows
    ensures before + ([row] + rows) == (before + [row]) + rows
  {
  }

  lemma {:induction false} FewBooks(rows: seq<Row>)
    ensures |FirstEditions(rows)| <= |rows|
  {
    if rows != [] {
      FewBooks(rows[..|rows| - 1]);
    }
  }

  /** A truncated page loses at most its look-ahead row: it is the reading of the page
      with or without that row. */
  lemma TruncationDropsLookahead(rows: seq<Row>)
    requires |rows| == STRIDE + 1
    ensures Limit(FirstEditions(rows), STRIDE) == FirstEditions(rows)
         || Limit(FirstEditions(rows), STRIDE) == FirstEditions(rows[..STRIDE])
  {
    FewBooks(rows[..STRIDE]);
    assert rows == rows[..STRIDE] + [rows[STRIDE]];
    FirstEditionsLast(rows[..STRIDE], rows[STRIDE]);
  }

  /** What has been collected once `k` pages were read: the plain reading of the rows
      they cover, with or without one row of look-ahead. */
  ghost predicate Covers(items: seq<Book>, all: seq<Row>, k: nat) {
    && k * STRIDE <= |all|
    && (items == FirstEditions(all[..k * STRIDE])
        || (k * STRIDE < |all| && items == FirstEditions(all[..k * STRIDE + 1])))
  }

  /** Merging a page into a plain reading whose last row may be the page's first. */
  lemma ReadsOn(items: seq<Book>, before: seq<Row>, rows: seq<Row>)
    requires items == FirstEditions(before) || (rows != [] && items == FirstEditions(before + [rows[0]]))
    ensures Merged(items, FirstEditions(rows)) == FirstEditions(before + rows)
  {
    if items == FirstEditions(before) {
      MergeContinues(before, rows);
    } else {
      var row, rest := rows[0], rows[1..];
      assert rows == [row] + rest;
      MergeContinues(before + [row], rows);
      OverlapIsHarmless(before, row, rest);
    }
  }

  lemma PageContinues(items: seq<Book>, all: seq<Row>, lo: nat, hi: nat)
    requires lo <= hi <= |all|
    requires items == FirstEditions(all[..lo]) || (lo < hi && items == FirstEditions(all[..lo + 1]))
    ensures Merged(items, FirstEditions(all[lo..hi])) == FirstEditions(all[..hi])
  {
    assert all[..lo] + all[lo..hi] == all[..hi];
    assert lo < hi ==> all[..lo + 1] == all[..lo] + [all[lo..hi][0]];
    ReadsOn(items, all[..lo], all[lo..hi]);
  }

  /** The reply to the page query at `offset`, for a list that does not change. */
  function Fetch(all: seq<Row>, offset: nat): seq<Row> {
    Limit(Skip(all, offset), STRIDE + 1)
  }

  ghost predicate PlacedTo(all: seq<Row>, last: nat) {
    forall i :: 0 <= i < |all| && i <= last ==> Placed(all[i])
  }

  lemma PlacedRows(all: seq<Row>, offset: nat)
    requires offset > 0 ==> PlacedTo(all, offset)
    requires forall k: nat :: !FaultAt(Fetch(all, offset), k)
    ensures PlacedTo(all, offset + STRIDE)
  {
    var rows := Fetch(all, offset);
    forall i | 0 <= i < |all| && i <= offset + STRIDE ensures Placed(all[i]) {
      if i >= offset {
        assert !FaultAt(rows, i - offset);
        assert rows[i - offset] == all[i];
      }
    }
  }

  lemma FaultyRow(all: seq<Row>, offset: nat)
    requires exists k: nat :: FaultAt(Fetch(all, offset), k)
    ensures exists row :: row in all && !Readable(row)
  {
    var rows := Fetch(all, offset);
    var k: nat :| FaultAt(rows, k);
    assert all[offset + k] == rows[k] && all[offset + k] in all && !Readable(rows[k]);
  }

  /** At most twenty pages of an unchanging list, merged as they come. */
  method UpcomingMonth(all: seq<Row>) returns (r: Option<Batch>)
    ensures r.None? ==> exists row :: row in all && !Readable(row)
    ensures r.Some? ==> forall i :: 0 <= i < |all| && i <= 2000 ==> Placed(all[i])
    ensures r.Some? && |all| <= 2000 ==> r.value == Batch(FirstEditions(all), false, false)
    ensures r.Some? && |all| > 2000 ==>
              && r.value.warning && !r.value.hasMore
              && (r.value.items == FirstEditions(all[..2000])
                  || r.value.items == FirstEditions(all[..2001]))
              && r.value.items <= FirstEditions(all)
  {
    var items: seq<Book> := [];
    var seen: set<string> := {};
    assert all[..0] == [];
    for k := 0 to MAX_PAGES
      invariant Covers(items, all, k)
      invariant k > 0 ==> k * STRIDE < |all| && PlacedTo(all, k * STRIDE)
      invariant forall id :: id in seen <==> Mentions(items, id)
    {
      var rows := Fetch(all, k * STRIDE);
      var page := EditionPage(rows, STRIDE);
      if page.None? {
        FaultyRow(all, k * STRIDE);
        return None;
      }
      PlacedRows(all, k * STRIDE);
      var (books, hasMore) := page.value;
      ghost var before := items;
      PageMerges(before, all, k);
      items, seen := MergeLoop(items, seen, books);
      if !hasMore {
        return Some(Batch(items, false, false));
      }
    }
    PrefixOfAll(all, 2000);
    PrefixOfAll(all, 2001);
    r := Some(Batch(items, false, true));
  }

  method MergeLoop(items: seq<Book>, seen: set<string>, books: seq<Book>)
    returns (merged: seq<Book>, marked: set<string>)
    requires forall id :: id in seen <==> Mentions(items, id)
    ensures merged == Merged(items, books)
    ensures forall id :: id in marked <==> Mentions(merged, id)
  {
    merged, marked := items, seen;
    for j := 0 to |books|
      invariant merged == Merged(items, books[..j])
      invariant forall id :: id in marked <==> Mentions(merged, id)
    {
      assert books[..j + 1] == books[..j] + [books[j]];
      MergedLast(items, books[..j], books[j]);
      if books[j].id in marked {
        continue;
      }
      KeptIsSeen(marked, merged, books[j]);
      marked := marked + {books[j].id};
      merged := merged + [books[j]];
    }
    assert books[..|books|] == books;
  }

  lemma FullPageMerges(items: seq<Book>, all: seq<Row>, k: nat)
    requires Covers(items, all, k) && k * STRIDE + STRIDE < |all|
    ensures var lo := k * STRIDE;
            Fetch(all, lo) == all[lo..lo + STRIDE + 1]
            && Covers(Merged(items, Limit(FirstEditions(Fetch(all, lo)), STRIDE)), all, k + 1)
  {
    var lo := k * STRIDE;
    var rows := all[lo..lo + STRIDE + 1];
    assert rows[..STRIDE] == all[lo..lo + STRIDE];
    TruncationDropsLookahead(rows);
    PageContinues(items, all, lo, lo + STRIDE);
    PageContinues(items, all, lo, lo + STRIDE + 1);
  }

  lemma LastPageMerges(items: seq<Book>, all: seq<Row>, k: nat)
    requires Covers(items, all, k) && |all| <= k * STRIDE + STRIDE
    ensures var rows := Fetch(all, k * STRIDE);
            |rows| <= STRIDE && Merged(items, Limit(FirstEditions(rows), STRIDE)) == FirstEditions(all)
  {
    var lo := k * STRIDE;
    var rows := Fetch(all, lo);
    assert rows == all[lo..|all|] && all[..|all|] == all;
    FewBooks(rows);
    PageContinues(items, all, lo, |all|);
  }

  lemma PageMerges(items: seq<Book>, all: seq<Row>, k: nat)
    requires Covers(items, all, k)
    ensures var rows := Fetch(all, k * STRIDE);
            var merged := Merged(items, Limit(FirstEditions(rows), STRIDE));
            if |rows| > STRIDE then (k + 1) * STRIDE < |all| && Covers(merged, all, k + 1)
            else |all| <= (k + 1) * STRIDE && merged == FirstEditions(all)
  {
    if k * STRIDE + STRIDE < |all| {
      FullPageMerges(items, all, k);
    } else {
      LastPageMerges(items, all, k);
    }
  }

  lemma {:induction false} PrefixOfAll(all: seq<Row>, k: nat)
    ensures k <= |all| ==> FirstEditions(all[..k]) <= FirstEditions(all)
    decreases |all|
  {
    if k < |all| {
      var init := all[..|all| - 1];
      PrefixOfAll(init, k);
      assert init[..k] == all[..k];
      assert FirstEditions(init) <= FirstEditions(all);
    } else if k == |all| {
      assert all[..k] == all;
    }
  }

  /** Row `k` is the first of its book that is not a redirect. */
  ghost predicate IsFirst(rows: seq<Row>, k: nat) {
    && k < |rows| && !rows[k].redirect && rows[k].book.Some?
    && forall j :: 0 <= j < k ==> rows[j].redirect || rows[j].book != rows[k].book
  }

  ghost predicate Increasing(firsts: seq<nat>) {
    forall i, j :: 0 <= i < j < |firsts| ==> firsts[i] < firsts[j]
  }

  /** The books are those of the rows at `firsts`: every first row of a book and no
      other, in the order of the rows, with their days. */
  ghost predicate Selects(books: seq<Book>, rows: seq<Row>, firsts: seq<nat>) {
    && |books| == |firsts| && Increasing(firsts)
    && (forall i :: 0 <= i < |firsts| ==>
          IsFirst(rows, firsts[i]) && books[i] == Book(rows[firsts[i]].book.value, rows[firsts[i]].day))
    && forall k: nat :: IsFirst(rows, k) ==> k in firsts
  }

  /** A book is mentioned exactly when one of the rows before is of it. */
  lemma SelectedMentions(books: seq<Book>, rows: seq<Row>, firsts: seq<nat>, row: Row)
    requires Selects(books, rows, firsts) && !row.redirect && row.book.Some?
    ensures Mentions(books, row.book.value) <==> !IsFirst(rows + [row], |rows|)
  {
    var longer := rows + [row];
    assert longer[|rows|] == row && forall j :: 0 <= j < |rows| ==> longer[j] == rows[j];
    if Mentions(books, row.book.value) {
      var b :| b in books && b.id == row.book.value;
      var i :| 0 <= i < |books| && books[i] == b;
      assert rows[firsts[i]].book == row.book;
    }
    if !IsFirst(longer, |rows|) {
      var j :| 0 <= j < |rows| && !rows[j].redirect && rows[j].book == row.book;
      var k := FirstOf(rows, j);
      var i :| 0 <= i < |firsts| && firsts[i] == k;
      assert books[i] in books;
    }
  }

  lemma {:induction false} FirstOf(rows: seq<Row>, j: nat) returns (k: nat)
    requires j < |rows| && !rows[j].redirect && rows[j].book.Some?
    ensures IsFirst(rows, k) && rows[k].book == rows[j].book
  {
    k := j;
    if i :| 0 <= i < j && !rows[i].redirect && rows[i].book == rows[j].book {
      k := FirstOf(rows, i);
    }
  }

  lemma SelectedNext(books: seq<Book>, rows: seq<Row>, firsts: seq<nat>, row: Row)
    requires Selects(books, rows, firsts)
    ensures if IsFirst(rows + [row], |rows|)
            then Selects(books + [Book(row.book.value, row.day)], rows + [row], firsts + [|rows|])
            else Selects(books, rows + [row], firsts)
  {
    var longer := rows + [row];
    assert longer[|rows|] == row && forall j :: 0 <= j < |rows| ==> longer[j] == rows[j];
    assert forall k: nat :: k < |rows| ==> (IsFirst(longer, k) <==> IsFirst(rows, k));
    assert |rows| in firsts + [|rows|];
  }

  lemma SelectedAfter(books: seq<Book>, rows: seq<Row>, firsts: seq<nat>, row: Row) returns (longer: seq<nat>)
    requires Selects(books, rows, firsts)
    ensures Selects(Extended(books, row), rows + [row], longer)
  {
    SelectedNext(books, rows, firsts, row);
    longer := firsts;
    if !row.redirect && row.book.Some? {
      SelectedMentions(books, rows, firsts, row);
      if !Mentions(books, row.book.value) {
        longer := firsts + [|rows|];
      }
    } else {
      assert (rows + [row])[|rows|] == row;
    }
  }

  /** The plain reading is the filter it claims to be: the first row of each book that is
      not a redirect, in the order of the list. */
  lemma {:induction false} FirstEditionsAreFirst(rows: seq<Row>) returns (firsts: seq<nat>)
    ensures Selects(FirstEditions(rows), rows, firsts)
  {
    firsts := [];
    if rows != [] {
      var init, row := rows[..|rows| - 1], rows[|rows| - 1];
      firsts := FirstEditionsAreFirst(init);
      firsts := SelectedAfter(FirstEditions(init), init, firsts, row);
      assert rows == init + [row];
    }
  }

  /** No book is read twice. */
  lemma FirstEditionsAreDistinct(rows: seq<Row>, i: nat, j: nat)
    requires i < j < |FirstEditions(rows)|
    ensures FirstEditions(rows)[i].id != FirstEditions(rows)[j].id
  {
    var firsts := FirstEditionsAreFirst(rows);
    assert IsFirst(rows, firsts[i]) && IsFirst(rows, firsts[j]);
  }
}
