/** Library reads (services/app/adapters/audiobookshelf.py): logical pages of a
    hundred summaries over shrinking wire pages, and the census of item details. */
module Audiobookshelf {
  import opened Outcomes
  import opened Batching

  const PAGE_SIZE := 100
  const DETAIL_BATCH_SIZE := 25

  // ---------------------------------------------------------------- pages

  /** One summary row of a library listing. */
  datatype Row = Row(id: string, digest: string)

  datatype Wire = Oversize | Broken | Rows(rows: seq<Row>, total: nat)

  datatype PageError = ResponseTooLarge | Unreadable | Changed

  /** The sizes a wire page may have; each divides the larger ones. */
  predicate IsWireSize(size: nat) {
    size == 100 || size == 50 || size == 25 || size == 5 || size == 1
  }

  /** The first row of a wire page: `page * size`, one product for each size. */
  function Offset(page: nat, size: nat): nat
    requires IsWireSize(size)
  {
    if size == 100 then 100 * page
    else if size == 50 then 50 * page
    else if size == 25 then 25 * page
    else if size == 5 then 5 * page
    else page
  }

  lemma OffsetIsProduct(page: nat, size: nat)
    requires IsWireSize(size)
    ensures Offset(page, size) == page * size
  {
    if size == 100 || size == 50 {
    } else if size == 25 || size == 5 {
    }
  }

  function NextSize(size: nat): nat
    requires IsWireSize(size) && size != 1
    ensures IsWireSize(NextSize(size)) && NextSize(size) < size
    ensures (size == 100 ==> NextSize(size) == 50) && (size == 50 ==> NextSize(size) == 25)
    ensures (size == 25 ==> NextSize(size) == 5) && (size == 5 ==> NextSize(size) == 1)
  {
    if size == 100 then 50 else if size == 50 then 25 else if size == 25 then 5 else 1
  }

  function Min(a: int, b: int): int {
    if a < b then a else b
  }

  /** The rows a fixed-size read of rows [lo, hi) gives. */
  function Window(rows: seq<Row>, lo: nat, hi: nat): seq<Row> {
    if lo >= |rows| || lo >= hi then [] else rows[lo..Min(hi, |rows|)]
  }

  /** The reply to a request for `size` rows from `offset` by a server that holds `rows`,
      which may find any request too large. */
  ghost predicate Answers(wire: Wire, rows: seq<Row>, offset: nat, size: nat) {
    wire.Oversize? || wire == Rows(Window(rows, offset, offset + size), |rows|)
  }

  /** A server that keeps the same listing throughout. Requests are numbered. */
  ghost predicate Steady(server: (nat, nat, nat) -> Wire, rows: seq<Row>) {
    forall k: nat, page: nat, size: nat :: IsWireSize(size) ==>
      Answers(server(k, page, size), rows, Offset(page, size), size)
  }

  /** One wire page from `offset` with its checks. */
  function CheckSummary(wire: Wire, offset: nat, size: nat): Result<(seq<Row>, nat), PageError> {
    match wire
    case Oversize => Err(ResponseTooLarge)
    case Broken => Err(Unreadable)
    case Rows(rows, total) =>
      if |rows| != Available(total, offset, size) then Err(Changed) else Ok((rows, total))
  }

  /** min(size, max(0, total - offset)) */
  function Available(total: nat, offset: nat, size: nat): nat {
    Min(size, if total < offset then 0 else total - offset)
  }

  /** `x` is a multiple of the wire size. */
  ghost predicate Aligned(size: nat, x: nat)
    requires IsWireSize(size)
  {
    exists q: nat :: Offset(q, size) == x
  }

  /** How many times the size was reduced to reach `size`. */
  function Shrinks(size: nat): nat {
    if size >= 100 then 0 else if size >= 50 then 1 else if size >= 25 then 2 else if size >= 5 then 3 else 4
  }

  lemma SmallerSizeDivides(size: nat, x: nat)
    requires IsWireSize(size) && size != 1 && Aligned(size, x)
    ensures Aligned(NextSize(size), x) && Shrinks(NextSize(size)) == Shrinks(size) + 1
  {
    var q: nat :| Offset(q, size) == x;
    assert Offset(if size == 100 || size == 50 then 2 * q else 5 * q, NextSize(size)) == x;
  }

  /** offset // size */
  function Floor(offset: nat, size: nat): nat
    requires IsWireSize(size)
  {
    if size == 100 then offset / 100
    else if size == 50 then offset / 50
    else if size == 25 then offset / 25
    else if size == 5 then offset / 5
    else offset
  }

  lemma FloorOfOffset(page: nat, size: nat)
    requires IsWireSize(size)
    ensures Floor(Offset(page, size), size) == page
  {
  }

  /** The wire page to request next: floor division of the offset by the size. A wire
      size divides every offset reached with it or with a larger one, so that page
      starts exactly where reading stopped. */
  function WirePage(page: nat, read: nat, size: nat): (wirePage: nat)
    requires IsWireSize(size) && Aligned(size, read)
    ensures Offset(wirePage, size) == page * PAGE_SIZE + read
  {
    WirePageStarts(page, read, size);
    Floor(page * PAGE_SIZE + read, size)
  }

  /** In other words, the requested page times the size is the offset reached. */
  lemma WirePageIsExact(page: nat, read: nat, size: nat)
    requires IsWireSize(size) && Aligned(size, read)
    ensures WirePage(page, read, size) * size == page * PAGE_SIZE + read
  {
    OffsetIsProduct(WirePage(page, read, size), size);
  }

  lemma WirePageStarts(page: nat, read: nat, size: nat)
    requires IsWireSize(size) && Aligned(size, read)
    ensures Offset(Floor(page * PAGE_SIZE + read, size), size) == page * PAGE_SIZE + read
  {
    var q: nat :| Offset(q, size) == read;
    var whole := if size == 100 then page + q else if size == 50 then 2 * page + q
                 else if size == 25 then 4 * page + q else if size == 5 then 20 * page + q else 100 * page + q;
    assert Offset(whole, size) == page * PAGE_SIZE + read;
    FloorOfOffset(whole, size);
  }

  ghost predicate Tracked(rows: seq<Row>, start: nat, results: seq<Row>, total: Option<nat>) {
    results == Window(rows, start, start + |results|) && (total.Some? ==> total.value == |rows|)
  }

  /** What has been read is what a steady server holds there. */
  ghost predicate Tracks(server: (nat, nat, nat) -> Wire, start: nat, results: seq<Row>, total: Option<nat>) {
    forall rows :: Steady(server, rows) ==> Tracked(rows, start, results, total)
  }

  /** How much of the logical page exists. */
  function Length(start: nat, total: nat): nat {
    if start >= total then 0 else Min(PAGE_SIZE, total - start)
  }

  lemma WindowsJoin(rows: seq<Row>, lo: nat, read: seq<Row>, next: seq<Row>, size: nat)
    requires read == Window(rows, lo, lo + |read|)
    requires next == Window(rows, lo + |read|, lo + |read| + size)
    ensures read + next == Window(rows, lo, lo + |read + next|)
  {
    if next == [] {
      assert read + next == read;
    }
  }

  /** What a steady server answers passes the checks and continues what was read. */
  lemma SteadyContinues(rows: seq<Row>, start: nat, results: seq<Row>, total: Option<nat>, wire: Wire, size: nat)
    requires Tracked(rows, start, results, total) && Answers(wire, rows, start + |results|, size)
    ensures var summary := CheckSummary(wire, start + |results|, size);
            if summary.Err? then summary.error == ResponseTooLarge
            else
              && Tracked(rows, start, results + summary.value.0, Some(summary.value.1))
              && (total.Some? ==> summary.value.1 == total.value)
  {
    if wire.Rows? {
      WindowsJoin(rows, start, results, wire.rows, size);
    }
  }

  /** The state of the loop between requests. */
  ghost predicate Reading(
      server: (nat, nat, nat) -> Wire, start: nat, size: nat, results: seq<Row>, total: Option<nat>, requests: nat) {
    && IsWireSize(size)
    && (if total.None? then results == [] else |results| <= Length(start, total.value))
    && (total.None? || |results| < Length(start, total.value) ==> Aligned(size, |results|))
    && Tracks(server, start, results, total)
    && requests <= |results| + Shrinks(size) + (if total.Some? then 1 else 0)
  }

  lemma TracksGoOn(
      server: (nat, nat, nat) -> Wire, start: nat, results: seq<Row>, total: Option<nat>, number: nat, page: nat,
      size: nat,
      values: seq<Row>, count: nat)
    requires Tracks(server, start, results, total)
    requires IsWireSize(size) && Offset(page, size) == start + |results|
    requires CheckSummary(server(number, page, size), start + |results|, size) == Ok((values, count))
    ensures Tracks(server, start, results + values, Some(count))
  {
    forall rows | Steady(server, rows) ensures Tracked(rows, start, results + values, Some(count)) {
      assert Answers(server(number, page, size), rows, Offset(page, size), size);
      SteadyContinues(rows, start, results, total, server(number, page, size), size);
    }
  }

  lemma ReadingGoesOn(
      server: (nat, nat, nat) -> Wire, start: nat, size: nat, results: seq<Row>, total: Option<nat>, requests: nat,
      values: seq<Row>, count: nat)
    requires Reading(server, start, size, results, total, requests)
    requires total.None? || |results| < Length(start, total.value)
    requires |values| == Available(count, start + |results|, size)
    requires total.Some? ==> count == total.value
    requires Tracks(server, start, results + values, Some(count))
    ensures Reading(server, start, size, results + values, Some(count), requests + 1)
    ensures total.Some? ==> values != []
  {
    StepFits(start, |results|, size, count);
  }

  lemma ReadingShrinks(
      server: (nat, nat, nat) -> Wire, start: nat, size: nat, results: seq<Row>, total: Option<nat>, requests: nat)
    requires Reading(server, start, size, results, total, requests) && size != 1
    requires total.None? || |results| < Length(start, total.value)
    ensures Reading(server, start, NextSize(size), results, total, requests + 1)
  {
    SmallerSizeDivides(size, |results|);
  }

  /** A steady server's reply is too large or counts what was counted before. */
  lemma SteadyErrs(
      server: (nat, nat, nat) -> Wire, start: nat, size: nat, results: seq<Row>, total: Option<nat>, number: nat,
      page: nat)
    requires Tracks(server, start, results, total)
    requires IsWireSize(size) && Offset(page, size) == start + |results|
    ensures var summary := CheckSummary(server(number, page, size), start + |results|, size);
            (if summary.Err? then summary.error != ResponseTooLarge
             else total.Some? && summary.value.1 != total.value) ==>
              forall rows :: !Steady(server, rows)
  {
    forall rows | Steady(server, rows)
      ensures var summary := CheckSummary(server(number, page, size), start + |results|, size);
              if summary.Err? then summary.error == ResponseTooLarge else total.Some? ==> summary.value.1 == total.value
    {
      assert Answers(server(number, page, size), rows, Offset(page, size), size);
      SteadyContinues(rows, start, results, total, server(number, page, size), size);
    }
  }

  lemma ReadingBegins(server: (nat, nat, nat) -> Wire, start: nat, size: nat)
    requires IsWireSize(size)
    ensures Reading(server, start, size, [], None, 0)
  {
    assert Offset(0, size) == 0;
  }

  /** What the fixed-size read of a steady server gives, or nothing. */
  ghost predicate Exact(server: (nat, nat, nat) -> Wire, start: nat, r: Result<(seq<Row>, nat), PageError>) {
    forall rows :: Steady(server, rows) ==>
      r == Ok((Window(rows, start, start + PAGE_SIZE), |rows|)) || r == Err(ResponseTooLarge)
  }

  lemma ReadingEnds(
      server: (nat, nat, nat) -> Wire, start: nat, size: nat, results: seq<Row>, total: nat, requests: nat)
    requires Reading(server, start, size, results, Some(total), requests) && |results| >= Length(start, total)
    ensures |results| == Length(start, total) && Exact(server, start, Ok((results, total)))
  {
  }

  class Client {
    /** The wire size remembered from earlier too-large replies. */
    var summarySize: nat

    ghost predicate Valid()
      reads this
    {
      IsWireSize(summarySize)
    }

    constructor ()
      ensures Valid() && summarySize == PAGE_SIZE
    {
      summarySize := PAGE_SIZE;
    }

    /** Logical page `page`, whatever sizes the server accepts. */
    method Page(page: nat, server: (nat, nat, nat) -> Wire)
      returns (r: Result<(seq<Row>, nat), PageError>, requests: nat)
      requires Valid()
      modifies this
      ensures Valid() && summarySize <= old(summarySize)
      ensures r.Ok? ==> |r.value.0| == Length(page * PAGE_SIZE, r.value.1)
      ensures Exact(server, page * PAGE_SIZE, r)
      ensures r == Err(ResponseTooLarge) ==> summarySize == 1 && exists k: nat, p: nat :: server(k, p, 1).Oversize?
      ensures requests <= PAGE_SIZE + 5
    {
      var start := page * PAGE_SIZE;
      var results: seq<Row> := [];
      var total: Option<nat> := None;
      var size := summarySize;
      requests := 0;
      ReadingBegins(server, start, size);
      while total.None? || |results| < Length(start, total.value)
        invariant size == summarySize <= old(summarySize)
        invariant Reading(server, start, size, results, total, requests)
        decreases size, if total.None? then 1 else 0, PAGE_SIZE - |results|
      {
        var wirePage := WirePage(page, |results|, size);
        var summary := CheckSummary(server(requests, wirePage, size), start + |results|, size);
        SteadyErrs(server, start, size, results, total, requests, wirePage);
        if summary == Err(ResponseTooLarge) {
          if size == 1 {
            assert server(requests, wirePage, 1).Oversize?;
            return Err(ResponseTooLarge), requests + 1;
          }
          ReadingShrinks(server, start, size, results, total, requests);
          size := NextSize(size);
          summarySize := size;
        } else if summary.Err? {
          return Err(summary.error), requests + 1;
        } else if total.Some? && summary.value.1 != total.value {
          return Err(Changed), requests + 1;
        } else {
          TracksGoOn(server, start, results, total, requests, wirePage, size, summary.value.0, summary.value.1);
          ReadingGoesOn(server, start, size, results, total, requests, summary.value.0, summary.value.1);
          results, total := results + summary.value.0, Some(summary.value.1);
        }
        requests := requests + 1;
      }
      ReadingEnds(server, start, size, results, total.value, requests);
      r := Ok((results, total.value));
    }
  }

  /** A wire page that starts inside a logical page ends inside it, and is full unless
      it completes the page. */
  lemma StepFits(start: nat, read: nat, size: nat, total: nat)
    requires IsWireSize(size) && Aligned(size, read) && (read == 0 || read < Length(start, total))
    ensures var got := Available(total, start + read, size);
            && read + got <= Length(start, total)
            && (read + got < Length(start, total) ==> Aligned(size, read + got))
            && (got == 0 ==> read == 0 && Length(start, total) == 0)
  {
    var q: nat :| Offset(q, size) == read;
    assert Offset(q + 1, size) == read + size && (read == 0 || read < PAGE_SIZE);
    assert read + size <= PAGE_SIZE;
  }

  // ---------------------------------------------------------------- inventory

  /** The reply to a batch of identifiers, before it is compared with the request. */
  datatype Details = DetailsTooLarge | DetailsFailed | Details(items: seq<Item>)

  function Ids(values: seq<Value>): seq<string> {
    seq(|values|, i requires 0 <= i < |values| => values[i].id)
  }

  function ItemIds(items: seq<Item>): seq<string> {
    seq(|items|, i requires 0 <= i < |items| => items[i].id)
  }

  function IdSet(ids: seq<string>): set<string> {
    set id | id in ids
  }

  /** Details are accepted only in the requested number and for the requested set. */
  function Expanded(values: seq<Value>, details: Details): Reply {
    match details
    case DetailsTooLarge => TooLarge
    case DetailsFailed => Failed(Unreachable)
    case Details(items) =>
      if |items| != |values| || IdSet(ItemIds(items)) != IdSet(Ids(values)) then Failed(Uncertain) else Answered(items)
  }

  ghost predicate Distinct(ids: seq<string>) {
    forall i, j :: 0 <= i < j < |ids| ==> ids[i] != ids[j]
  }

  lemma {:induction false} DistinctCount(ids: seq<string>)
    ensures |IdSet(ids)| <= |ids|
    ensures Distinct(ids) <==> |IdSet(ids)| == |ids|
  {
    if ids == [] {
      assert IdSet(ids) == {};
    } else {
      var init, last := ids[..|ids| - 1], ids[|ids| - 1];
      DistinctCount(init);
      assert ids == init + [last];
      if last in init {
        assert IdSet(ids) == IdSet(init);
        var i :| 0 <= i < |init| && init[i] == last;
        assert ids[i] == ids[|ids| - 1];
      } else {
        assert IdSet(ids) == IdSet(init) + {last};
        if Distinct(init) {
          forall i, j | 0 <= i < j < |ids| ensures ids[i] != ids[j] {
            assert ids[i] in init;
          }
        }
      }
    }
  }

  lemma {:induction false} MultisetOfDistinct(ids: seq<string>)
    requires Distinct(ids)
    ensures multiset(ids) == multiset(IdSet(ids))
  {
    if ids == [] {
      assert IdSet(ids) == {};
    } else {
      var init, last := ids[..|ids| - 1], ids[|ids| - 1];
      assert ids == init + [last];
      MultisetOfDistinct(init);
      assert last !in init;
      assert IdSet(ids) == IdSet(init) + {last};
    }
  }

  /** Same number, same set and no repetition requested: the answer is a permutation. */
  lemma AcceptedIsPermutation(values: seq<Value>, details: Details)
    requires Distinct(Ids(values)) && Expanded(values, details).Answered?
    ensures multiset(ItemIds(Expanded(values, details).items)) == multiset(Ids(values))
  {
    var items := Expanded(values, details).items;
    DistinctCount(Ids(values));
    DistinctCount(ItemIds(items));
    MultisetOfDistinct(Ids(values));
    MultisetOfDistinct(ItemIds(items));
  }

  function RecordIds(records: seq<Row>): set<string> {
    set row | row in records :: row.id
  }

  lemma RecordIdsLast(records: seq<Row>, last: Row)
    ensures RecordIds(records + [last]) == RecordIds(records) + {last.id}
  {
    assert forall row :: row in records + [last] <==> row in records || row == last;
    assert last in records + [last];
  }

  /** The dictionary of summaries keeps each identifier once, where it came first. */
  function Keys(records: seq<Row>): (values: seq<Value>)
    ensures Distinct(Ids(values)) && IdSet(Ids(values)) == RecordIds(records)
  {
    if records == [] then []
    else
      var init, last := Keys(records[..|records| - 1]), records[|records| - 1];
      assert records == records[..|records| - 1] + [last];
      RecordIdsLast(records[..|records| - 1], last);
      if last.id in Ids(init) then init
      else
        assert Ids(init + [Value(last.id)]) == Ids(init) + [last.id];
        init + [Value(last.id)]
  }

  function InventoryItems(records: seq<Row>, server: (nat, seq<Value>) -> Details): Trace {
    ReadBatches(
      Keys(records), (n: nat, batch: seq<Value>) => Expanded(batch, server(n, batch)), DETAIL_BATCH_SIZE,
      Some((value: Value) => Item(value.id, "item details exceed response byte budget")), 0)
  }

  lemma IdsJoin(a: seq<Value>, b: seq<Value>)
    ensures Ids(a + b) == Ids(a) + Ids(b)
  {
  }

  lemma ItemIdsJoin(a: seq<Item>, b: seq<Item>)
    ensures ItemIds(a + b) == ItemIds(a) + ItemIds(b)
  {
  }

  lemma {:induction false} ServedMatchesItems(
      events: seq<Event>, read: (nat, seq<Value>) -> Reply, oversized: Option<Value -> Item>,
      server: (nat, seq<Value>) -> Details)
    requires Faithful(events, read, oversized) && Distinct(Ids(Total(events).served))
    requires forall n, batch :: read(n, batch) == Expanded(batch, server(n, batch))
    requires oversized.Some? && forall v :: oversized.value(v).id == v.id
    ensures multiset(ItemIds(Total(events).items)) == multiset(Ids(Total(events).served))
  {
    if events != [] {
      var init, e := events[..|events| - 1], events[|events| - 1];
      forall i | 0 <= i < |init| ensures FaithfulAt(init, i, read, oversized) {
        assert FaithfulAt(events, i, read, oversized);
      }
      assert FaithfulAt(events, |events| - 1, read, oversized);
      var a, b := Total(init), Count(e);
      IdsJoin(a.served, b.served);
      ItemIdsJoin(a.items, b.items);
      DistinctParts(Ids(a.served), Ids(b.served));
      ServedMatchesItems(init, read, oversized, server);
      if e.Read? && e.reply.Answered? {
        AcceptedIsPermutation(e.batch, server(e.number, e.batch));
      } else if e.Isolated? {
        assert ItemIds(b.items) == [e.value.id] == Ids(b.served);
      }
    }
  }

  lemma DistinctParts(a: seq<string>, b: seq<string>)
    requires Distinct(a + b)
    ensures Distinct(a) && Distinct(b)
  {
    forall i, j | 0 <= i < j < |a| ensures a[i] != a[j] {
      assert (a + b)[i] == a[i] && (a + b)[j] == a[j];
    }
    forall i, j | 0 <= i < j < |b| ensures b[i] != b[j] {
      assert (a + b)[|a| + i] == b[i] && (a + b)[|a| + j] == b[j];
    }
  }

  /** A completed inventory yields every summary identifier exactly once, however the
      server splits, reorders or refuses batches, within two requests an identifier. */
  lemma InventoryIsExact(records: seq<Row>, server: (nat, seq<Value>) -> Details)
    ensures var t := InventoryItems(records, server);
            && (t.raised.None? ==> multiset(ItemIds(t.yielded)) == multiset(RecordIds(records)))
            && Total(t.events).requests <= 2 * |records|
            && t.raised != Some(Oversized)
  {
    var t := InventoryItems(records, server);
    var read := (n: nat, batch: seq<Value>) => Expanded(batch, server(n, batch));
    var oversized := Some((value: Value) => Item(value.id, "item details exceed response byte budget"));
    assert t == ReadBatches(Keys(records), read, DETAIL_BATCH_SIZE, oversized, 0);
    KeysAreFew(records);
    if t.raised.None? {
      ServedMatchesItems(t.events, read, oversized, server);
      MultisetOfDistinct(Ids(Keys(records)));
    }
  }

  lemma {:induction false} KeysAreFew(records: seq<Row>)
    ensures |Keys(records)| <= |records|
  {
    if records != [] {
      KeysAreFew(records[..|records| - 1]);
    }
  }

  // ---------------------------------------------------------------- spelled out

  /** A window is what the rows have from `lo` up to but not including `hi`. */
  lemma WindowSpelled(rows: seq<Row>, lo: nat, hi: nat)
    requires lo <= hi
    ensures |Window(rows, lo, hi)| == (if |rows| <= lo then 0 else if |rows| < hi then |rows| - lo else hi - lo)
    ensures forall i :: 0 <= i < |Window(rows, lo, hi)| ==> Window(rows, lo, hi)[i] == rows[lo + i]
  {
  }

  /** Exactly the answers in the requested number and with the requested identifiers are
      accepted; all others leave it uncertain what was read. */
  lemma ExpandedSpelled(values: seq<Value>, items: seq<Item>)
    ensures Expanded(values, Details(items)) ==
            if |items| == |values| && (forall id :: id in ItemIds(items) <==> id in Ids(values))
            then Answered(items) else Failed(Uncertain)
    ensures Expanded(values, DetailsTooLarge) == TooLarge && Expanded(values, DetailsFailed) == Failed(Unreachable)
  {
    if forall id :: id in ItemIds(items) <==> id in Ids(values) {
      assert IdSet(ItemIds(items)) == IdSet(Ids(values));
    }
    assert IdSet(ItemIds(items)) == IdSet(Ids(values)) ==> forall id :: id in ItemIds(items) <==> id in Ids(values) by {
      forall id ensures id in ItemIds(items) <==> id in IdSet(ItemIds(items)) {
      }
      forall id ensures id in Ids(values) <==> id in IdSet(Ids(values)) {
      }
    }
  }

  /** A server that answers every batch with the details of exactly its items, or finds it
      too large. */
  ghost predicate Honest(server: (nat, seq<Value>) -> Details) {
    forall n, batch :: HonestReply(server(n, batch), batch)
  }

  ghost predicate HonestReply(details: Details, batch: seq<Value>) {
    match details
    case DetailsTooLarge => true
    case DetailsFailed => false
    case Details(items) => ItemIds(items) == Ids(batch)
  }

  /** An honest server's inventory always completes, in batches of at most twenty-five. */
  lemma HonestInventoryCompletes(records: seq<Row>, server: (nat, seq<Value>) -> Details)
    requires Honest(server)
    ensures InventoryItems(records, server).raised == None
    ensures Shaped(InventoryItems(records, server).events, 0, 25)
  {
    var t := InventoryItems(records, server);
    var read := (n: nat, batch: seq<Value>) => Expanded(batch, server(n, batch));
    var oversized := Some((value: Value) => Item(value.id, "item details exceed response byte budget"));
    assert t == ReadBatches(Keys(records), read, DETAIL_BATCH_SIZE, oversized, 0);
    forall n, batch ensures !read(n, batch).Failed? {
      HonestIsAccepted(batch, server(n, batch));
      assert HonestReply(server(n, batch), batch);
    }
    if t.raised.Some? {
      assert FaithfulAt(t.events, |t.events| - 1, read, oversized);
    }
  }

  lemma HonestIsAccepted(batch: seq<Value>, details: Details)
    ensures HonestReply(details, batch) ==> !Expanded(batch, details).Failed?
  {
    if details.Details? {
      assert |ItemIds(details.items)| == |details.items| && |Ids(batch)| == |batch|;
    }
  }

  /** The identifiers are asked for in the order in which they first appear. */
  lemma KeysSpelled(records: seq<Row>, last: Row)
    ensures Keys([]) == []
    ensures Keys(records + [last]) ==
            if exists row :: row in records && row.id == last.id then Keys(records)
            else Keys(records) + [Value(last.id)]
  {
    assert (records + [last])[..|records|] == records;
    assert last.id in IdSet(Ids(Keys(records))) <==> last.id in RecordIds(records);
    assert last.id in Ids(Keys(records)) <==> last.id in IdSet(Ids(Keys(records)));
  }
}
