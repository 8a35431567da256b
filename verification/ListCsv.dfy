/** De-duplicated CSV snapshots (services/app/adapters/list_csv.py), from rows whose
    cells have been read. */
module ListCsv {
  import opened Outcomes
  import opened Ordering
  import Decimals

  const MAX_ROWS := 2000

  /** A row. Texts are absent when cleaning refused them; `shelves` are the cleaned
      shelf names of both shelf columns. */
  datatype Line =
    | Blank
    | Misshapen
    | Cells(title: Option<string>, author: Option<string>, externalId: string,
            isbn: string, isbn13: string, shelves: Option<set<string>>)

  datatype Book = Book(title: string, authors: seq<string>, isbn: string, isbn13: string, externalId: string)

  /** What the digest of a record stands for; the digest is taken to be injective. */
  datatype Fingerprint = Fingerprint(title: string, authors: seq<string>, isbn: string, isbn13: string)

  datatype Key = Goodreads(id: string) | Csv(fingerprint: Fingerprint)

  /** A data row as read, before de-duplication. */
  datatype Entry = Entry(book: Book, shelves: set<string>, row: nat, digest: Fingerprint, key: Key)

  datatype Record = Record(book: Book, shelves: seq<string>, row: nat, key: Key)

  datatype Snapshot = Snapshot(records: seq<Record>, duplicates: nat, shelves: seq<string>)

  datatype Error = TooManyRows | WrongWidth | Unclean | Unidentified | Conflicting

  predicate ValidId(text: string) {
    1 <= |text| <= 20 && text[0] != '0' && forall i :: 0 <= i < |text| ==> Decimals.IsDigit(text[i])
  }

  /** A row with all its cells, a title and no invalid identifier. */
  predicate Good(line: Line) {
    && line.Cells? && line.title.Some? && line.title.value != "" && line.author.Some? && line.shelves.Some?
    && (line.externalId == "" || ValidId(line.externalId))
  }

  /** A row that stops nothing: without a title column only its width matters. */
  predicate Readable(line: Line, mapped: bool) {
    line.Blank? || if mapped then Good(line) else line.Cells?
  }

  function Normalized(texts: seq<string>, norm: string -> string): seq<string> {
    seq(|texts|, i requires 0 <= i < |texts| => norm(texts[i]))
  }

  /** A book has at most one author, so sorting its authors changes nothing. */
  function Print(book: Book, norm: string -> string): Fingerprint {
    Fingerprint(norm(book.title), Normalized(book.authors, norm), book.isbn, book.isbn13)
  }

  function Read(line: Line, index: nat, norm: string -> string): Entry
    requires Good(line)
  {
    var authors := if line.author.value == "" then [] else [line.author.value];
    var book := Book(line.title.value, authors, line.isbn, line.isbn13, line.externalId);
    var digest := Print(book, norm);
    Entry(book, line.shelves.value, index + 2, digest,
          if line.externalId != "" then Goodreads(line.externalId) else Csv(digest))
  }

  // ---------------------------------------------------------------- specification

  /** The data rows of the lines, in order. */
  function Entries(lines: seq<Line>, mapped: bool, norm: string -> string): seq<Entry> {
    if lines == [] then []
    else
      var k := |lines| - 1;
      Entries(lines[..k], mapped, norm)
      + if mapped && Good(lines[k]) then [Read(lines[k], k, norm)] else []
  }

  ghost predicate AllReadable(lines: seq<Line>, mapped: bool) {
    forall j :: 0 <= j < |lines| ==> Readable(lines[j], mapped)
  }

  ghost predicate Carries(e: Entry, key: Key, shelf: string) {
    e.key == key && shelf in e.shelves
  }

  ghost function ShelvesOf(entries: seq<Entry>, key: Key): set<string> {
    set j, s | 0 <= j < |entries| && s in entries[j].shelves && Carries(entries[j], key, s) :: s
  }

  ghost function AllShelves(entries: seq<Entry>): set<string> {
    set j, s | 0 <= j < |entries| && s in entries[j].shelves :: s
  }

  /** Two rows of one key whose other facts differ. */
  ghost predicate Clash(a: Entry, b: Entry) {
    a.key == b.key && a.digest != b.digest
  }

  ghost predicate Clashing(entries: seq<Entry>) {
    exists i, j :: 0 <= i < j < |entries| && Clash(entries[i], entries[j])
  }

  ghost predicate IsFirst(entries: seq<Entry>, k: nat) {
    k < |entries| && forall j :: 0 <= j < k ==> entries[j].key != entries[k].key
  }

  /** The record shows the row, with the shelves of every row of its key. */
  ghost predicate Shows(r: Record, e: Entry, entries: seq<Entry>) {
    r == Record(e.book, SortedSet(ShelvesOf(entries, e.key)), e.row, e.key)
  }

  ghost predicate Increasing(list: seq<nat>) {
    forall i, j :: 0 <= i < j < |list| ==> list[i] < list[j]
  }

  ghost predicate HasKey(records: seq<Record>, key: Key) {
    exists i :: 0 <= i < |records| && records[i].key == key
  }

  ghost predicate CoversKeys(records: seq<Record>, entries: seq<Entry>) {
    forall j {:trigger HasKey(records, entries[j].key)} :: 0 <= j < |entries| ==> HasKey(records, entries[j].key)
  }

  ghost predicate ShowsFirsts(records: seq<Record>, firsts: seq<nat>, entries: seq<Entry>) {
    && |records| == |firsts|
    && forall i {:trigger IsFirst(entries, firsts[i])} {:trigger records[i]} :: 0 <= i < |records| ==>
         IsFirst(entries, firsts[i]) && Shows(records[i], entries[firsts[i]], entries)
  }

  /** One record for each key, standing where its key was first seen. */
  ghost predicate Summarizes(records: seq<Record>, firsts: seq<nat>, entries: seq<Entry>) {
    Increasing(firsts) && ShowsFirsts(records, firsts, entries) && CoversKeys(records, entries)
  }

  /** Every data row is a record or a duplicate, and the snapshot's shelves are all
      the shelves of the rows. */
  ghost predicate Summary(s: Snapshot, entries: seq<Entry>) {
    && |s.records| + s.duplicates == |entries|
    && s.shelves == SortedSet(AllShelves(entries))
    && exists firsts :: Summarizes(s.records, firsts, entries)
  }

  // ---------------------------------------------------------------- one more row

  lemma ShelvesGrow(entries: seq<Entry>, e: Entry, key: Key)
    ensures ShelvesOf(entries + [e], key) == ShelvesOf(entries, key) + if e.key == key then e.shelves else {}
    ensures AllShelves(entries + [e]) == AllShelves(entries) + e.shelves
  {
    var more := entries + [e];
    assert more[|entries|] == e && forall j :: 0 <= j < |entries| ==> more[j] == entries[j];
    forall s | s in ShelvesOf(entries, key) + (if e.key == key then e.shelves else {})
      ensures s in ShelvesOf(more, key)
    {
      if s in ShelvesOf(entries, key) {
        var j :| 0 <= j < |entries| && s in entries[j].shelves && Carries(entries[j], key, s);
        assert Carries(more[j], key, s);
      } else {
        assert Carries(more[|entries|], key, s);
      }
    }
  }

  /** Records of other keys are as before. */
  lemma OthersShow(records: seq<Record>, firsts: seq<nat>, entries: seq<Entry>, e: Entry, k: nat)
    requires ShowsFirsts(records, firsts, entries) && k < |records| && records[k].key != e.key
    ensures IsFirst(entries + [e], firsts[k]) && Shows(records[k], (entries + [e])[firsts[k]], entries + [e])
  {
    assert IsFirst(entries, firsts[k]) && Shows(records[k], entries[firsts[k]], entries);
    ShelvesGrow(entries, e, records[k].key);
  }

  lemma CoverGrows(records: seq<Record>, entries: seq<Entry>, e: Entry, longer: seq<Record>)
    requires CoversKeys(records, entries) && HasKey(longer, e.key)
    requires |records| <= |longer| && forall i :: 0 <= i < |records| ==> longer[i].key == records[i].key
    ensures CoversKeys(longer, entries + [e])
  {
    forall j | 0 <= j < |entries + [e]| ensures HasKey(longer, (entries + [e])[j].key) {
      if j < |entries| {
        assert HasKey(records, entries[j].key);
        var i :| 0 <= i < |records| && records[i].key == entries[j].key;
        assert longer[i].key == entries[j].key;
      }
    }
  }

  function Fresh(e: Entry): Record {
    Record(e.book, SortedSet(e.shelves), e.row, e.key)
  }

  lemma NewShows(records: seq<Record>, entries: seq<Entry>, e: Entry)
    requires CoversKeys(records, entries) && !HasKey(records, e.key)
    ensures IsFirst(entries + [e], |entries|) && Shows(Fresh(e), e, entries + [e])
  {
    forall j | 0 <= j < |entries| ensures (entries + [e])[j].key != e.key {
      assert HasKey(records, entries[j].key);
    }
    assert ShelvesOf(entries, e.key) == {} by {
      forall j | 0 <= j < |entries| ensures entries[j].key != e.key {
        assert (entries + [e])[j].key != e.key;
      }
    }
    ShelvesGrow(entries, e, e.key);
    assert ShelvesOf(entries + [e], e.key) == e.shelves;
  }

  lemma NewFirsts(records: seq<Record>, firsts: seq<nat>, entries: seq<Entry>, e: Entry)
    requires ShowsFirsts(records, firsts, entries) && !HasKey(records, e.key)
    requires IsFirst(entries + [e], |entries|) && Shows(Fresh(e), e, entries + [e])
    ensures ShowsFirsts(records + [Fresh(e)], firsts + [|entries|], entries + [e])
  {
    var more, longer, marks := entries + [e], records + [Fresh(e)], firsts + [|entries|];
    forall i | 0 <= i < |longer| ensures IsFirst(more, marks[i]) && Shows(longer[i], more[marks[i]], more) {
      if i < |records| {
        assert records[i].key != e.key;
        OthersShow(records, firsts, entries, e, i);
      }
    }
  }

  lemma FirstsIncrease(records: seq<Record>, firsts: seq<nat>, entries: seq<Entry>)
    requires ShowsFirsts(records, firsts, entries) && Increasing(firsts)
    ensures Increasing(firsts + [|entries|])
  {
    assert forall i :: 0 <= i < |records| ==> IsFirst(entries, firsts[i]);
  }

  lemma NewKeeps(records: seq<Record>, firsts: seq<nat>, entries: seq<Entry>, e: Entry)
    requires Summarizes(records, firsts, entries) && !HasKey(records, e.key)
    ensures Summarizes(records + [Fresh(e)], firsts + [|entries|], entries + [e])
  {
    NewShows(records, entries, e);
    NewFirsts(records, firsts, entries, e);
    FirstsIncrease(records, firsts, entries);
    assert (records + [Fresh(e)])[|records|].key == e.key;
    CoverGrows(records, entries, e, records + [Fresh(e)]);
  }

  function Merged(r: Record, e: Entry): Record {
    r.(shelves := SortedSet((set s | s in r.shelves) + e.shelves))
  }

  lemma MergedShows(records: seq<Record>, firsts: seq<nat>, entries: seq<Entry>, e: Entry, k: nat)
    requires ShowsFirsts(records, firsts, entries) && k < |records| && records[k].key == e.key
    ensures IsFirst(entries + [e], firsts[k]) && Shows(Merged(records[k], e), (entries + [e])[firsts[k]], entries + [e])
  {
    assert IsFirst(entries, firsts[k]) && Shows(records[k], entries[firsts[k]], entries);
    ShelvesGrow(entries, e, e.key);
    assert (set s | s in records[k].shelves) == ShelvesOf(entries, e.key);
  }

  lemma RepeatKeeps(records: seq<Record>, firsts: seq<nat>, entries: seq<Entry>, e: Entry, k: nat)
    requires Summarizes(records, firsts, entries) && k < |records| && records[k].key == e.key
    ensures Summarizes(records[k := Merged(records[k], e)], firsts, entries + [e])
  {
    var more, next := entries + [e], records[k := Merged(records[k], e)];
    assert next[k].key == e.key;
    CoverGrows(records, entries, e, next);
    forall i | 0 <= i < |next| ensures IsFirst(more, firsts[i]) && Shows(next[i], more[firsts[i]], more) {
      if i == k {
        MergedShows(records, firsts, entries, e, k);
      } else {
        KeysAreDistinct(records, firsts, entries, i, k);
        OthersShow(records, firsts, entries, e, i);
      }
    }
  }

  lemma KeysAreDistinct(records: seq<Record>, firsts: seq<nat>, entries: seq<Entry>, i: nat, j: nat)
    requires Summarizes(records, firsts, entries) && i < |records| && j < |records| && i != j
    ensures records[i].key != records[j].key
    ensures i < j ==> firsts[i] < firsts[j]
  {
    assert IsFirst(entries, firsts[i]) && Shows(records[i], entries[firsts[i]], entries);
    assert IsFirst(entries, firsts[j]) && Shows(records[j], entries[firsts[j]], entries);
    assert firsts[i] < firsts[j] || firsts[j] < firsts[i];
  }

  // ---------------------------------------------------------------- conflicts

  /** A row clashes with an earlier one exactly when it clashes with the first of its
      key, provided the earlier ones agree among themselves. */
  lemma ClashWithFirst(records: seq<Record>, firsts: seq<nat>, entries: seq<Entry>, e: Entry, k: nat)
    requires Summarizes(records, firsts, entries) && !Clashing(entries)
    requires k < |records| && records[k].key == e.key
    ensures Clashing(entries + [e]) <==> Clash(entries[firsts[k]], e)
  {
    var more, first := entries + [e], firsts[k];
    assert IsFirst(entries, first) && Shows(records[k], entries[first], entries);
    assert more[|entries|] == e && forall j :: 0 <= j < |entries| ==> more[j] == entries[j];
    if Clash(entries[first], e) {
      assert Clash(more[first], more[|entries|]);
    }
    if Clashing(more) {
      assert forall p, q :: 0 <= p < q < |entries| ==> !Clash(entries[p], entries[q]) && !Clash(more[p], more[q]);
      var i, j :| 0 <= i < j < |more| && Clash(more[i], more[j]);
      assert j == |entries| && first <= i;
      assert first < i ==> !Clash(more[first], more[i]);
    }
  }

  lemma NewNeverClashes(records: seq<Record>, entries: seq<Entry>, e: Entry)
    requires CoversKeys(records, entries) && !Clashing(entries) && !HasKey(records, e.key)
    ensures !Clashing(entries + [e])
  {
    var more := entries + [e];
    assert more[|entries|] == e && forall j :: 0 <= j < |entries| ==> more[j] == entries[j];
    forall i, j | 0 <= i < j < |more| ensures !Clash(more[i], more[j]) {
      assert j < |entries| ==> !Clash(entries[i], entries[j]);
      assert HasKey(records, entries[i].key);
    }
  }

  lemma {:induction false} EntriesExtend(lines: seq<Line>, k: nat, mapped: bool, norm: string -> string)
    requires k <= |lines|
    ensures Entries(lines[..k], mapped, norm) <= Entries(lines, mapped, norm)
    decreases |lines|
  {
    var n := |lines| - 1;
    if k <= n {
      assert lines[..n][..k] == lines[..k];
      EntriesExtend(lines[..n], k, mapped, norm);
    } else {
      assert lines[..k] == lines;
    }
  }

  lemma ClashPersists(some: seq<Entry>, all: seq<Entry>)
    requires some <= all && Clashing(some)
    ensures Clashing(all)
  {
    var i, j :| 0 <= i < j < |some| && Clash(some[i], some[j]);
    assert Clash(all[i], all[j]);
  }

  ghost predicate Printed(entries: seq<Entry>, norm: string -> string) {
    forall j :: 0 <= j < |entries| ==> entries[j].digest == Print(entries[j].book, norm)
  }

  // ---------------------------------------------------------------- the loop

  /** What the loop has gathered from the entries so far. */
  datatype Gathered = Gathered(records: seq<Record>, seen: map<Key, nat>, duplicates: nat, shelves: set<string>)

  ghost predicate Indexed(g: Gathered) {
    && (forall key :: key in g.seen ==> g.seen[key] < |g.records| && g.records[g.seen[key]].key == key)
    && forall i :: 0 <= i < |g.records| ==> g.records[i].key in g.seen
  }

  ghost predicate Gathers(g: Gathered, firsts: seq<nat>, entries: seq<Entry>, norm: string -> string) {
    Indexed(g) && Summarizes(g.records, firsts, entries) && Tallies(g, entries, norm) && !Clashing(entries)
  }

  ghost predicate Tallies(g: Gathered, entries: seq<Entry>, norm: string -> string) {
    |g.records| + g.duplicates == |entries| && g.shelves == AllShelves(entries) && Printed(entries, norm)
  }

  function WithNew(g: Gathered, e: Entry): Gathered {
    Gathered(g.records + [Fresh(e)], g.seen[e.key := |g.records|], g.duplicates, g.shelves + e.shelves)
  }

  function WithRepeat(g: Gathered, e: Entry, k: nat): Gathered
    requires k < |g.records|
  {
    Gathered(g.records[k := Merged(g.records[k], e)], g.seen, g.duplicates + 1, g.shelves + e.shelves)
  }

  lemma NewIndexed(g: Gathered, e: Entry)
    requires Indexed(g) && e.key !in g.seen
    ensures !HasKey(g.records, e.key) && Indexed(WithNew(g, e))
  {
  }

  lemma RepeatIndexed(g: Gathered, e: Entry)
    requires Indexed(g) && e.key in g.seen
    ensures Indexed(WithRepeat(g, e, g.seen[e.key]))
  {
  }

  lemma TalliesGrow(g: Gathered, h: Gathered, entries: seq<Entry>, e: Entry, norm: string -> string)
    requires Tallies(g, entries, norm) && e.digest == Print(e.book, norm)
    requires h.shelves == g.shelves + e.shelves
    requires |h.records| + h.duplicates == |g.records| + g.duplicates + 1
    ensures Tallies(h, entries + [e], norm)
  {
    ShelvesGrow(entries, e, e.key);
  }

  lemma NewGathers(g: Gathered, firsts: seq<nat>, entries: seq<Entry>, e: Entry, norm: string -> string)
    requires Gathers(g, firsts, entries, norm) && e.digest == Print(e.book, norm) && e.key !in g.seen
    ensures Gathers(WithNew(g, e), firsts + [|entries|], entries + [e], norm)
  {
    NewIndexed(g, e);
    TalliesGrow(g, WithNew(g, e), entries, e, norm);
    NewNeverClashes(g.records, entries, e);
    NewKeeps(g.records, firsts, entries, e);
  }

  /** The record of a key has the digest of the first row of that key. */
  lemma RecordsFirst(g: Gathered, firsts: seq<nat>, entries: seq<Entry>, k: nat, norm: string -> string)
    requires Gathers(g, firsts, entries, norm) && k < |g.records|
    ensures k < |firsts| && firsts[k] < |entries|
    ensures entries[firsts[k]].key == g.records[k].key && entries[firsts[k]].digest == Print(g.records[k].book, norm)
  {
    assert IsFirst(entries, firsts[k]) && Shows(g.records[k], entries[firsts[k]], entries);
  }

  lemma RepeatClashes(g: Gathered, firsts: seq<nat>, entries: seq<Entry>, e: Entry, norm: string -> string)
    requires Gathers(g, firsts, entries, norm) && e.digest == Print(e.book, norm) && e.key in g.seen
    ensures Clashing(entries + [e]) <==> Print(g.records[g.seen[e.key]].book, norm) != e.digest
  {
    RecordsFirst(g, firsts, entries, g.seen[e.key], norm);
    ClashWithFirst(g.records, firsts, entries, e, g.seen[e.key]);
  }

  lemma RepeatGathers(g: Gathered, firsts: seq<nat>, entries: seq<Entry>, e: Entry, norm: string -> string)
    requires Gathers(g, firsts, entries, norm) && e.digest == Print(e.book, norm) && e.key in g.seen
    requires !Clashing(entries + [e])
    ensures Gathers(WithRepeat(g, e, g.seen[e.key]), firsts, entries + [e], norm)
  {
    RepeatIndexed(g, e);
    TalliesGrow(g, WithRepeat(g, e, g.seen[e.key]), entries, e, norm);
    RepeatKeeps(g.records, firsts, entries, e, g.seen[e.key]);
  }

  /** One accepted row: a duplicate's shelves join the first record of its key. */
  method Gather(g: Gathered, e: Entry, norm: string -> string, ghost firsts: seq<nat>, ghost entries: seq<Entry>)
    returns (r: Option<Gathered>, ghost marks: seq<nat>)
    requires Gathers(g, firsts, entries, norm) && e.digest == Print(e.book, norm)
    ensures r.None? <==> Clashing(entries + [e])
    ensures r.Some? ==> Gathers(r.value, marks, entries + [e], norm)
  {
    r, marks := None, firsts;
    if e.key in g.seen {
      RepeatClashes(g, firsts, entries, e, norm);
      var k := g.seen[e.key];
      if Print(g.records[k].book, norm) == e.digest {
        RepeatGathers(g, firsts, entries, e, norm);
        r := Some(WithRepeat(g, e, k));
      }
    } else {
      NewGathers(g, firsts, entries, e, norm);
      r, marks := Some(WithNew(g, e)), firsts + [|entries|];
    }
  }

  /** Why a row is refused on its own. */
  function Fault(line: Line, mapped: bool): (r: Option<Error>)
    ensures r.None? <==> Readable(line, mapped)
    ensures r.Some? ==> r.value in {WrongWidth, Unclean, Unidentified}
  {
    if line.Blank? then None
    else if line.Misshapen? then Some(WrongWidth)
    else if !mapped then None
    else if line.title.None? || line.author.None? then Some(Unclean)
    else if line.title.value == "" || (line.externalId != "" && !ValidId(line.externalId)) then Some(Unidentified)
    else if line.shelves.None? then Some(Unclean)
    else None
  }

  /** Where reading stops: the first line too many, unreadable or in conflict. */
  ghost predicate StopsAt(lines: seq<Line>, k: nat, mapped: bool, norm: string -> string, error: Error) {
    && k < |lines| && k <= 2000
    && AllReadable(lines[..k], mapped) && !Clashing(Entries(lines[..k], mapped, norm))
    && (if k == 2000 then error == TooManyRows
        else if !Readable(lines[k], mapped) then Fault(lines[k], mapped) == Some(error)
        else error == Conflicting && Clashing(Entries(lines[..k + 1], mapped, norm)))
  }

  lemma GatheredSummary(g: Gathered, firsts: seq<nat>, entries: seq<Entry>, norm: string -> string)
    requires Gathers(g, firsts, entries, norm)
    ensures Summary(Snapshot(g.records, g.duplicates, SortedSet(g.shelves)), entries) && !Clashing(entries)
  {
  }

  lemma OneMoreLine(lines: seq<Line>, k: nat, mapped: bool, norm: string -> string)
    requires k < |lines|
    ensures Entries(lines[..k + 1], mapped, norm)
         == if mapped && Good(lines[k]) then Entries(lines[..k], mapped, norm) + [Read(lines[k], k, norm)]
            else Entries(lines[..k], mapped, norm)
    ensures AllReadable(lines[..k], mapped) && Readable(lines[k], mapped) ==> AllReadable(lines[..k + 1], mapped)
  {
    assert lines[..k + 1][..k] == lines[..k];
  }

  ghost predicate ReadTo(g: Gathered, firsts: seq<nat>, lines: seq<Line>, k: nat, mapped: bool,
      norm: string -> string) {
    k <= |lines| && AllReadable(lines[..k], mapped) && Gathers(g, firsts, Entries(lines[..k], mapped, norm), norm)
  }

  ghost predicate Stops(lines: seq<Line>, mapped: bool, norm: string -> string, error: Error) {
    exists k: nat :: StopsAt(lines, k, mapped, norm, error)
  }

  lemma StopHere(g: Gathered, firsts: seq<nat>, lines: seq<Line>, k: nat, mapped: bool, norm: string -> string,
      error: Error)
    requires ReadTo(g, firsts, lines, k, mapped, norm) && k < |lines| && k <= MAX_ROWS
    requires if k == MAX_ROWS then error == TooManyRows
             else if !Readable(lines[k], mapped) then Fault(lines[k], mapped) == Some(error)
             else error == Conflicting && Clashing(Entries(lines[..k + 1], mapped, norm))
    ensures Stops(lines, mapped, norm, error)
  {
    assert StopsAt(lines, k, mapped, norm, error);
  }

  method ReadLine(g: Gathered, lines: seq<Line>, k: nat, mapped: bool, norm: string -> string, ghost firsts: seq<nat>)
    returns (r: Result<Gathered, Error>, ghost marks: seq<nat>)
    requires ReadTo(g, firsts, lines, k, mapped, norm) && k < |lines| && k <= MAX_ROWS
    ensures r.Ok? ==> ReadTo(r.value, marks, lines, k + 1, mapped, norm) && k < MAX_ROWS
    ensures r.Err? ==> Stops(lines, mapped, norm, r.error)
  {
    marks := firsts;
    if k >= MAX_ROWS {
      r := Err(TooManyRows);
      StopHere(g, firsts, lines, k, mapped, norm, r.error);
    } else if Fault(lines[k], mapped).Some? {
      r := Err(Fault(lines[k], mapped).value);
      StopHere(g, firsts, lines, k, mapped, norm, r.error);
    } else {
      OneMoreLine(lines, k, mapped, norm);
      r := Ok(g);
      if mapped && !lines[k].Blank? {
        var next: Option<Gathered>;
        next, marks := Gather(g, Read(lines[k], k, norm), norm, firsts, Entries(lines[..k], mapped, norm));
        if next.None? {
          r := Err(Conflicting);
          StopHere(g, firsts, lines, k, mapped, norm, r.error);
        } else {
          r := Ok(next.value);
        }
      }
    }
  }

  method ParseRows(lines: seq<Line>, mapped: bool, norm: string -> string) returns (r: Result<Snapshot, Error>)
    ensures r.Ok? ==>
              && |lines| <= 2000 && AllReadable(lines, mapped) && !Clashing(Entries(lines, mapped, norm))
              && Summary(r.value, Entries(lines, mapped, norm))
    ensures r.Err? ==> Stops(lines, mapped, norm, r.error)
  {
    var g := Gathered([], map[], 0, {});
    ghost var firsts: seq<nat> := [];
    for k := 0 to |lines|
      invariant k <= MAX_ROWS && ReadTo(g, firsts, lines, k, mapped, norm)
    {
      var next: Result<Gathered, Error>;
      next, firsts := ReadLine(g, lines, k, mapped, norm, firsts);
      if next.Err? {
        return Err(next.error);
      }
      g := next.value;
    }
    assert lines[..|lines|] == lines;
    GatheredSummary(g, firsts, Entries(lines, mapped, norm), norm);
    r := Ok(Snapshot(g.records, g.duplicates, SortedSet(g.shelves)));
  }

  /** Stopping and succeeding exclude each other, and there is one place to stop: so
      a conflict is reported exactly when the first offending row is one that clashes. */
  lemma StopsOnce(lines: seq<Line>, mapped: bool, norm: string -> string, k: nat, error: Error)
    requires StopsAt(lines, k, mapped, norm, error)
    ensures |lines| > 2000 || !AllReadable(lines, mapped) || Clashing(Entries(lines, mapped, norm))
    ensures forall m: nat, other :: StopsAt(lines, m, mapped, norm, other) ==> m == k && other == error
  {
    if k < MAX_ROWS && Readable(lines[k], mapped) {
      EntriesExtend(lines, k + 1, mapped, norm);
      ClashPersists(Entries(lines[..k + 1], mapped, norm), Entries(lines, mapped, norm));
    }
    forall m: nat, other | StopsAt(lines, m, mapped, norm, other) ensures m == k && other == error {
      NoEarlierStop(lines, mapped, norm, k, error, m, other);
      NoEarlierStop(lines, mapped, norm, m, other, k, error);
    }
  }

  lemma NoEarlierStop(lines: seq<Line>, mapped: bool, norm: string -> string, k: nat, error: Error, m: nat,
      other: Error)
    requires StopsAt(lines, k, mapped, norm, error) && StopsAt(lines, m, mapped, norm, other)
    ensures k >= m
  {
    if k < m {
      assert lines[..m][k] == lines[k] && lines[..m][..k + 1] == lines[..k + 1];
      EntriesExtend(lines[..m], k + 1, mapped, norm);
      if Clashing(Entries(lines[..k + 1], mapped, norm)) {
        ClashPersists(Entries(lines[..k + 1], mapped, norm), Entries(lines[..m], mapped, norm));
      }
    }
  }

  /** The snapshot's shelves are the union of its records' shelves, and its keys are distinct. */
  lemma ShelvesAreCovered(s: Snapshot, entries: seq<Entry>)
    requires Summary(s, entries)
    ensures forall t :: t in s.shelves <==> exists i :: 0 <= i < |s.records| && t in s.records[i].shelves
    ensures forall i, j :: 0 <= i < j < |s.records| ==> s.records[i].key != s.records[j].key
  {
    var firsts :| Summarizes(s.records, firsts, entries);
    forall t | t in s.shelves ensures exists i :: 0 <= i < |s.records| && t in s.records[i].shelves {
      var j :| 0 <= j < |entries| && t in entries[j].shelves;
      assert HasKey(s.records, entries[j].key);
      var i :| 0 <= i < |s.records| && s.records[i].key == entries[j].key;
      assert Shows(s.records[i], entries[firsts[i]], entries);
      assert Carries(entries[j], s.records[i].key, t);
    }
    forall i, t | 0 <= i < |s.records| && t in s.records[i].shelves ensures t in s.shelves {
      assert Shows(s.records[i], entries[firsts[i]], entries);
      assert t in ShelvesOf(entries, s.records[i].key);
    }
    forall i, j | 0 <= i < j < |s.records| ensures s.records[i].key != s.records[j].key {
      KeysAreDistinct(s.records, firsts, entries, i, j);
    }
  }

  /** The rows determine the snapshot: two summaries of them are equal. */
  lemma SummaryIsUnique(a: Snapshot, b: Snapshot, entries: seq<Entry>)
    requires Summary(a, entries) && Summary(b, entries)
    ensures a == b
  {
    var m :| Summarizes(a.records, m, entries);
    var n :| Summarizes(b.records, n, entries);
    FirstsInclude(a.records, m, b.records, n, entries);
    FirstsInclude(b.records, n, a.records, m, entries);
    SameIncreasing(m, n);
    forall i | 0 <= i < |m| ensures a.records[i] == b.records[i] {
      assert Shows(a.records[i], entries[m[i]], entries) && Shows(b.records[i], entries[n[i]], entries);
    }
    assert a.records == b.records;
  }

  lemma FirstsInclude(a: seq<Record>, m: seq<nat>, b: seq<Record>, n: seq<nat>, entries: seq<Entry>)
    requires Summarizes(a, m, entries) && Summarizes(b, n, entries)
    ensures forall k: nat :: k in m ==> k in n
  {
    forall i | 0 <= i < |m| ensures m[i] in n {
      assert IsFirst(entries, m[i]) && HasKey(b, entries[m[i]].key);
      var j :| 0 <= j < |b| && b[j].key == entries[m[i]].key;
      assert IsFirst(entries, n[j]) && Shows(b[j], entries[n[j]], entries);
      assert m[i] == n[j];
    }
  }

  lemma {:induction false} SameIncreasing(m: seq<nat>, n: seq<nat>)
    requires Increasing(m) && Increasing(n) && (forall k: nat :: k in m <==> k in n)
    ensures m == n
    decreases |m|
  {
    assert n != [] ==> n[0] in m;
    if m != [] {
      assert m[0] in n && n[0] in m;
      assert m == [m[0]] + m[1..] && n == [n[0]] + n[1..];
      forall k: nat ensures k in m[1..] <==> k in n[1..] {
        assert k in m[1..] <==> k in m && k != m[0];
        assert k in n[1..] <==> k in n && k != n[0];
      }
      SameIncreasing(m[1..], n[1..]);
    }
  }

  // ---------------------------------------------------------------- in terms of the rows

  /** Goodreads identifiers are the positive numbers of at most twenty digits. */
  lemma IdSpelled(text: string)
    ensures ValidId(text) <==> |text| <= 20 && exists n: nat :: n > 0 && text == Decimals.Decimal(n)
  {
    if ValidId(text) {
      Decimals.NumeralIsDecimal(text);
      Decimals.Bounds(text);
      assert text == Decimals.Decimal(Decimals.Value(text));
    }
    if n: nat :| n > 0 && text == Decimals.Decimal(n) {
      Decimals.DecimalIsNumeral(n);
    }
  }

  /** The first thing wrong with a row, looking at its width, its title and author, its
      identifier and its shelves in this order. */
  lemma FaultSpelled(line: Line)
    ensures Fault(line, false) == (if line.Misshapen? then Some(WrongWidth) else None)
    ensures Fault(line, true) == Some(WrongWidth) <==> line.Misshapen?
    ensures line.Cells? ==>
              && (line.title == None || line.author == None ==> Fault(line, true) == Some(Unclean))
              && (line.title.Some? && line.author.Some? ==>
                    && (Fault(line, true) == Some(Unidentified) <==>
                          line.title == Some("") || !(line.externalId == "" || ValidId(line.externalId)))
                    && (Fault(line, true) == Some(Unclean) ==> line.shelves == None))
  {
  }

  /** What a row says of its book, up to letter case and punctuation. */
  ghost function Facts(line: Line, norm: string -> string): Fingerprint
    requires Good(line)
  {
    Fingerprint(norm(line.title.value), if line.author.value == "" then [] else [norm(line.author.value)],
                line.isbn, line.isbn13)
  }

  /** Rows are of one book when they name the same Goodreads book, or name none and say
      the same. */
  ghost function Identity(line: Line, norm: string -> string): Key
    requires Good(line)
  {
    if line.externalId == "" then Csv(Facts(line, norm)) else Goodreads(line.externalId)
  }

  ghost predicate GoodAt(lines: seq<Line>, k: nat) {
    k < |lines| && Good(lines[k])
  }

  /** The record holds the cells of its row, which counts from two below the headers. */
  ghost predicate RecordOf(r: Record, line: Line, k: nat, norm: string -> string) {
    && Good(line) && r.key == Identity(line, norm) && r.row == k + 2
    && r.book.title == line.title.value && r.book.isbn == line.isbn && r.book.isbn13 == line.isbn13
    && r.book.externalId == line.externalId
    && r.book.authors == if line.author.value == "" then [] else [line.author.value]
  }

  lemma ReadSpelled(line: Line, k: nat, norm: string -> string)
    requires Good(line)
    ensures var e := Read(line, k, norm);
            && e.digest == Facts(line, norm) && e.key == Identity(line, norm) && e.shelves == line.shelves.value
            && forall shelves :: RecordOf(Record(e.book, shelves, e.row, e.key), line, k, norm)
  {
    var authors := if line.author.value == "" then [] else [line.author.value];
    assert Normalized(authors, norm) == if line.author.value == "" then [] else [norm(line.author.value)];
  }

  ghost predicate Reads(e: Entry, lines: seq<Line>, k: nat, norm: string -> string) {
    GoodAt(lines, k) && e == Read(lines[k], k, norm)
  }

  /** The rows of the entries, in order: all the good ones. */
  ghost predicate Sources(entries: seq<Entry>, lines: seq<Line>, rows: seq<nat>, norm: string -> string) {
    && |rows| == |entries| && Increasing(rows)
    && (forall j {:trigger rows[j]} :: 0 <= j < |rows| ==> Reads(entries[j], lines, rows[j], norm))
    && forall k: nat :: GoodAt(lines, k) ==> k in rows
  }

  lemma SourcesGrow(entries: seq<Entry>, lines: seq<Line>, rows: seq<nat>, last: Line, norm: string -> string)
    requires Sources(entries, lines, rows, norm)
    ensures !Good(last) ==> Sources(entries, lines + [last], rows, norm)
    ensures Good(last) ==>
              Sources(entries + [Read(last, |lines|, norm)], lines + [last], rows + [|lines|], norm)
  {
    var more := lines + [last];
    assert forall j {:trigger rows[j]} :: 0 <= j < |rows| ==>
        Reads(entries[j], lines, rows[j], norm) && Reads(entries[j], more, rows[j], norm);
    forall k: nat | GoodAt(more, k) ensures k in rows || k == |lines| {
      assert k < |lines| ==> GoodAt(lines, k);
    }
    assert (rows + [|lines|])[|rows|] == |lines|;
  }

  lemma {:induction false} EntriesHaveSources(lines: seq<Line>, norm: string -> string) returns (rows: seq<nat>)
    ensures Sources(Entries(lines, true, norm), lines, rows, norm)
  {
    if lines == [] {
      rows := [];
    } else {
      var init, last := lines[..|lines| - 1], lines[|lines| - 1];
      assert lines == init + [last];
      rows := EntriesHaveSources(init, norm);
      SourcesGrow(Entries(init, true, norm), init, rows, last, norm);
      if Good(last) {
        rows := rows + [|init|];
      }
    }
  }

  /** The first row of its book. */
  ghost predicate FirstOfBook(lines: seq<Line>, k: nat, norm: string -> string) {
    && GoodAt(lines, k)
    && forall j: nat :: j < k && GoodAt(lines, j) ==> Identity(lines[j], norm) != Identity(lines[k], norm)
  }

  /** One record for each book, in the order of their first rows and made from them. */
  ghost predicate Lists(records: seq<Record>, lines: seq<Line>, norm: string -> string) {
    && (forall i: nat :: i < |records| ==> ListedRow(records[i], lines, norm))
    && (forall i, j :: 0 <= i < j < |records| ==> records[i].row < records[j].row)
    && forall k: nat :: FirstOfBook(lines, k, norm) ==> HasKey(records, Identity(lines[k], norm))
  }

  ghost predicate ListedRow(r: Record, lines: seq<Line>, norm: string -> string) {
    && 2 <= r.row < |lines| + 2 && RecordOf(r, lines[r.row - 2], r.row - 2, norm)
    && FirstOfBook(lines, r.row - 2, norm) && Sorted(r.shelves)
    && forall t :: t in r.shelves <==> ShelvedAs(lines, r.key, t, norm)
  }

  /** Some row of the book puts it on the shelf. */
  ghost predicate ShelvedAs(lines: seq<Line>, key: Key, shelf: string, norm: string -> string) {
    exists k: nat :: GoodAt(lines, k) && Identity(lines[k], norm) == key && shelf in lines[k].shelves.value
  }

  lemma EarlierRow(rows: seq<nat>, p: nat, j: nat)
    requires Increasing(rows) && p < |rows| && j < |rows| && rows[p] < rows[j]
    ensures p < j
  {
  }

  lemma RecordIsListed(
      r: Record, j: nat, lines: seq<Line>, rows: seq<nat>, entries: seq<Entry>, norm: string -> string)
    requires Sources(entries, lines, rows, norm) && j < |entries|
    requires IsFirst(entries, j) && Shows(r, entries[j], entries)
    ensures ListedRow(r, lines, norm) && r.row == rows[j] + 2 && r.key == Identity(lines[rows[j]], norm)
  {
    var k := rows[j];
    assert Reads(entries[j], lines, k, norm);
    ReadSpelled(lines[k], k, norm);
    forall i: nat | i < k && GoodAt(lines, i) ensures Identity(lines[i], norm) != Identity(lines[k], norm) {
      var p :| 0 <= p < |rows| && rows[p] == i;
      assert Reads(entries[p], lines, i, norm);
      ReadSpelled(lines[i], i, norm);
      EarlierRow(rows, p, j);
    }
    forall t ensures t in ShelvesOf(entries, r.key) <==> ShelvedAs(lines, r.key, t, norm) {
      ShelvesComeFrom(r.key, t, lines, rows, entries, norm);
    }
  }

  lemma ShelvesComeFrom(
      key: Key, t: string, lines: seq<Line>, rows: seq<nat>, entries: seq<Entry>, norm: string -> string)
    requires Sources(entries, lines, rows, norm)
    ensures t in ShelvesOf(entries, key) <==> ShelvedAs(lines, key, t, norm)
  {
    if t in ShelvesOf(entries, key) {
      var j :| 0 <= j < |entries| && t in entries[j].shelves && Carries(entries[j], key, t);
      assert Reads(entries[j], lines, rows[j], norm);
      ReadSpelled(lines[rows[j]], rows[j], norm);
    }
    if ShelvedAs(lines, key, t, norm) {
      var k: nat :| GoodAt(lines, k) && Identity(lines[k], norm) == key && t in lines[k].shelves.value;
      var j :| 0 <= j < |rows| && rows[j] == k;
      assert Reads(entries[j], lines, k, norm);
      ReadSpelled(lines[k], k, norm);
      assert Carries(entries[j], key, t);
    }
  }

  lemma BookHasRecord(
      records: seq<Record>, k: nat, lines: seq<Line>, rows: seq<nat>, entries: seq<Entry>, norm: string -> string)
    requires Sources(entries, lines, rows, norm) && CoversKeys(records, entries) && GoodAt(lines, k)
    ensures HasKey(records, Identity(lines[k], norm))
  {
    var j :| 0 <= j < |rows| && rows[j] == k;
    assert Reads(entries[j], lines, k, norm);
    ReadSpelled(lines[k], k, norm);
    assert HasKey(records, entries[j].key);
  }

  lemma RecordAt(
      records: seq<Record>, firsts: seq<nat>, i: nat, lines: seq<Line>, rows: seq<nat>, entries: seq<Entry>,
      norm: string -> string)
    requires Sources(entries, lines, rows, norm) && ShowsFirsts(records, firsts, entries) && i < |records|
    ensures ListedRow(records[i], lines, norm) && firsts[i] < |rows| && records[i].row == rows[firsts[i]] + 2
  {
    assert IsFirst(entries, firsts[i]) && Shows(records[i], entries[firsts[i]], entries);
    RecordIsListed(records[i], firsts[i], lines, rows, entries, norm);
  }

  lemma RecordsRise(
      records: seq<Record>, firsts: seq<nat>, lines: seq<Line>, rows: seq<nat>, entries: seq<Entry>,
      norm: string -> string)
    requires Sources(entries, lines, rows, norm) && Summarizes(records, firsts, entries)
    ensures Lists(records, lines, norm)
  {
    forall i: nat | i < |records| ensures ListedRow(records[i], lines, norm) {
      RecordAt(records, firsts, i, lines, rows, entries, norm);
    }
    forall i, j | 0 <= i < j < |records| ensures records[i].row < records[j].row {
      RecordAt(records, firsts, i, lines, rows, entries, norm);
      RecordAt(records, firsts, j, lines, rows, entries, norm);
      assert firsts[i] < firsts[j];
    }
    forall k: nat | FirstOfBook(lines, k, norm) ensures HasKey(records, Identity(lines[k], norm)) {
      BookHasRecord(records, k, lines, rows, entries, norm);
    }
  }

  ghost function GoodRows(lines: seq<Line>): set<nat> {
    set k: nat | k < |lines| && GoodAt(lines, k)
  }

  /** The snapshot against the rows themselves: every book once, as its first row has it,
      on all the shelves its rows name; the rows left over are counted as duplicates. */
  lemma SnapshotSpelled(s: Snapshot, lines: seq<Line>, norm: string -> string)
    requires Summary(s, Entries(lines, true, norm))
    ensures Lists(s.records, lines, norm)
    ensures |s.records| + s.duplicates == |GoodRows(lines)|
  {
    var entries := Entries(lines, true, norm);
    var rows := EntriesHaveSources(lines, norm);
    var firsts :| Summarizes(s.records, firsts, entries);
    RecordsRise(s.records, firsts, lines, rows, entries, norm);
    CountSources(entries, lines, rows, norm);
  }

  lemma CountSources(entries: seq<Entry>, lines: seq<Line>, rows: seq<nat>, norm: string -> string)
    requires Sources(entries, lines, rows, norm)
    ensures |entries| == |GoodRows(lines)|
  {
    forall k: nat ensures k in rows <==> k in GoodRows(lines) {
      if k in rows {
        var j :| 0 <= j < |rows| && rows[j] == k;
        assert Reads(entries[j], lines, rows[j], norm);
      }
    }
    CountIncreasing(rows, GoodRows(lines));
  }

  lemma {:induction false} CountIncreasing(rows: seq<nat>, all: set<nat>)
    requires Increasing(rows) && forall k: nat :: k in rows <==> k in all
    ensures |all| == |rows|
  {
    if rows == [] {
      assert all == {};
    } else {
      var init, last := rows[..|rows| - 1], rows[|rows| - 1];
      assert rows == init + [last];
      forall k: nat ensures k in init <==> k in all - {last} {
        assert k in init ==> k < last;
      }
      CountIncreasing(init, all - {last});
    }
  }

  /** Rows conflict exactly when two of them name the same Goodreads book and differ in
      title, author or either ISBN. */
  lemma ClashSpelled(lines: seq<Line>, norm: string -> string)
    ensures Clashing(Entries(lines, true, norm)) <==>
            exists j: nat, k: nat :: j < k && Disagree(lines, j, k, norm)
  {
    var entries := Entries(lines, true, norm);
    var rows := EntriesHaveSources(lines, norm);
    forall j | 0 <= j < |entries|
      ensures GoodAt(lines, rows[j])
      ensures entries[j].digest == Facts(lines[rows[j]], norm) && entries[j].key == Identity(lines[rows[j]], norm)
    {
      assert Reads(entries[j], lines, rows[j], norm);
      ReadSpelled(lines[rows[j]], rows[j], norm);
    }
    if Clashing(entries) {
      var j, k :| 0 <= j < k < |entries| && Clash(entries[j], entries[k]);
      assert rows[j] < rows[k] && Disagree(lines, rows[j], rows[k], norm);
    }
    if a: nat, b: nat :| a < b && Disagree(lines, a, b, norm) {
      var j :| 0 <= j < |rows| && rows[j] == a;
      var k :| 0 <= k < |rows| && rows[k] == b;
      assert Clash(entries[j], entries[k]) && j != k;
      assert k < j ==> rows[k] < rows[j];
    }
  }

  ghost predicate Disagree(lines: seq<Line>, j: nat, k: nat, norm: string -> string) {
    && GoodAt(lines, j) && GoodAt(lines, k)
    && lines[j].externalId == lines[k].externalId != "" && Facts(lines[j], norm) != Facts(lines[k], norm)
  }
}
