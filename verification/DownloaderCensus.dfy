/** A census of a whole download client, read three times (the listing and the states of
    services/app/adapters/qbittorrent.py). The client may answer anything: its replies
    are functions of how many requests were made before. */
module DownloaderCensus {
  import opened Outcomes
  import opened Ordering
  import QueryStrings
  import Magnets

  const PAGE := 250
  const MAX_TRANSFERS := 10_000

  datatype Fields = Fields(tags: string, category: string, savePath: string, auto: bool, others: string)

  /** A listed transfer as sent: no fields when one is missing or not text. */
  datatype Raw = Raw(hash: string, fields: Option<Fields>)

  datatype Row = Row(key: string, fields: Fields)

  datatype Reply = Malformed | Rows(rows: seq<Raw>)

  /** The reply to a request, by the number of requests before it and its offset. */
  type Lister = (nat, nat) -> Reply

  datatype Error = Unreadable | Repeated | TooMany | Changed | NotAHash | NotAPath | Unobserved

  // ---------------------------------------------------------------- rows

  /** A v1 or v2 digest in lower case. */
  function HashValue(text: string): (r: Option<string>)
    ensures r.Some? ==> |r.value| >= 40 && r.value == Magnets.Lower(text)
  {
    if (|text| == 40 || |text| == 64) && Magnets.AllHex(text) then Some(Magnets.Lower(text)) else None
  }

  predicate Whole(raw: Raw) {
    HashValue(raw.hash).Some? && raw.fields.Some?
  }

  function Parse(raw: Raw): Row
    requires Whole(raw)
  {
    Row(HashValue(raw.hash).value, raw.fields.value)
  }

  ghost predicate AllWhole(page: seq<Raw>) {
    forall i :: 0 <= i < |page| ==> Whole(page[i])
  }

  function ParseAll(page: seq<Raw>): (rows: seq<Row>)
    requires AllWhole(page)
    ensures |rows| == |page| && forall i :: 0 <= i < |page| ==> rows[i] == Parse(page[i])
  {
    seq(|page|, i requires 0 <= i < |page| => Parse(page[i]))
  }

  ghost predicate Rising(rows: seq<Row>) {
    forall i, j :: 0 <= i < j < |rows| ==> Less(rows[i].key, rows[j].key)
  }

  /** What a page must satisfy after the rows before it. */
  ghost predicate Extends(before: seq<Row>, page: seq<Raw>) {
    AllWhole(page) && Rising(before + ParseAll(page)) && |before| + |page| <= MAX_TRANSFERS
  }

  lemma RisingAppend(rows: seq<Row>, row: Row)
    requires Rising(rows)
    ensures Rising(rows + [row]) <==> rows == [] || Less(rows[|rows| - 1].key, row.key)
  {
    var more := rows + [row];
    if rows != [] {
      var last := |rows| - 1;
      if Less(rows[last].key, row.key) {
        forall i, j | 0 <= i < j < |more| ensures Less(more[i].key, more[j].key) {
          if j == |rows| && i < last {
            LessTransitive(rows[i].key, rows[last].key, row.key);
          }
        }
      } else {
        assert !Less(more[last].key, more[|rows|].key);
      }
    }
  }

  lemma RisingPrefix(rows: seq<Row>, k: nat)
    requires k <= |rows| && Rising(rows)
    ensures Rising(rows[..k])
  {
  }

  ghost predicate AddedTo(rows: seq<Row>, before: seq<Row>, page: seq<Raw>) {
    && AllWhole(page) && rows == before + ParseAll(page)
    && Rising(rows) && |rows| <= MAX_TRANSFERS
  }

  lemma OneMoreRow(rows: seq<Row>, before: seq<Row>, page: seq<Raw>, i: nat)
    requires i < |page| && AddedTo(rows, before, page[..i]) && Whole(page[i])
    ensures AllWhole(page[..i + 1]) && before + ParseAll(page[..i + 1]) == rows + [Parse(page[i])]
  {
    assert page[..i + 1] == page[..i] + [page[i]];
  }

  /** The rows of one page, or the first fault among them. */
  method AddPage(before: seq<Row>, page: seq<Raw>) returns (r: Result<seq<Row>, Error>)
    requires Rising(before) && |before| <= MAX_TRANSFERS
    ensures r.Ok? <==> Extends(before, page)
    ensures r.Ok? ==> r.value == before + ParseAll(page)
  {
    var rows := before;
    var previous := if before == [] then "" else before[|before| - 1].key;
    for i := 0 to |page|
      invariant AddedTo(rows, before, page[..i])
      invariant previous == if rows == [] then "" else rows[|rows| - 1].key
    {
      if !Whole(page[i]) {
        return Err(Repeated);
      }
      var row := Parse(page[i]);
      OneMoreRow(rows, before, page, i);
      RisingAppend(rows, row);
      if !Less(previous, row.key) {
        PartRises(before, page, i + 1);
        return Err(Repeated);
      }
      rows := rows + [row];
      previous := row.key;
      if |rows| > MAX_TRANSFERS {
        return Err(TooMany);
      }
    }
    assert page[..|page|] == page;
    r := Ok(rows);
  }

  lemma PartRises(before: seq<Row>, page: seq<Raw>, k: nat)
    requires k <= |page| && AllWhole(page[..k])
    ensures Extends(before, page) ==> Rising(before + ParseAll(page[..k]))
  {
    if Extends(before, page) {
      RisingPrefix(before + ParseAll(page), |before| + k);
      assert (before + ParseAll(page))[..|before| + k] == before + ParseAll(page[..k]);
    }
  }

  // ---------------------------------------------------------------- listings

  /** The rows of the first `calls` pages of a listing that begins with request `k`,
      each asked for at the number of rows before it. */
  function Served(ask: Lister, k: nat, calls: nat): seq<Row> {
    if calls == 0 then []
    else
      var before := Served(ask, k, calls - 1);
      match ask(k + calls - 1, |before|)
      case Malformed => before
      case Rows(page) =>
        before + seq(|page|, i requires 0 <= i < |page| =>
                       if Whole(page[i]) then Parse(page[i]) else Row("", Fields("", "", "", false, "")))
  }

  ghost predicate GoodPage(reply: Reply, before: seq<Row>) {
    reply.Rows? && |reply.rows| <= PAGE && Extends(before, reply.rows)
  }

  /** The reply after the first `c` pages. */
  function At(ask: Lister, k: nat, c: nat): Reply {
    ask(k + c, |Served(ask, k, c)|)
  }

  ghost predicate GoodAt(ask: Lister, k: nat, c: nat) {
    GoodPage(At(ask, k, c), Served(ask, k, c)) && At(ask, k, c) != Rows([])
  }

  /** The first `calls` pages were all acceptable and none was empty. */
  ghost predicate Walks(ask: Lister, k: nat, calls: nat) {
    forall c: nat :: c < calls ==> GoodAt(ask, k, c)
  }

  /** A whole listing: acceptable pages up to an empty one. */
  ghost predicate Lists(ask: Lister, k: nat, calls: nat, rows: seq<Row>) {
    Walks(ask, k, calls) && rows == Served(ask, k, calls) && At(ask, k, calls) == Rows([])
  }

  /** A listing stopped by an unacceptable page. */
  ghost predicate Fails(ask: Lister, k: nat, calls: nat) {
    Walks(ask, k, calls) && !GoodPage(At(ask, k, calls), Served(ask, k, calls)) && At(ask, k, calls) != Rows([])
  }

  /** A walk's rows are in key order, and every page adds at least one. */
  ghost predicate Bounded(rows: seq<Row>, calls: nat) {
    Rising(rows) && calls <= |rows| <= MAX_TRANSFERS
  }

  lemma ServedNext(ask: Lister, k: nat, c: nat)
    requires GoodAt(ask, k, c) && Walks(ask, k, c) && Bounded(Served(ask, k, c), c)
    ensures Served(ask, k, c + 1) == Served(ask, k, c) + ParseAll(At(ask, k, c).rows)
    ensures Walks(ask, k, c + 1) && Bounded(Served(ask, k, c + 1), c + 1)
    ensures |Served(ask, k, c)| < |Served(ask, k, c + 1)|
  {
    var page := At(ask, k, c).rows;
    assert Served(ask, k, c + 1) == Served(ask, k, c) + ParseAll(page);
  }

  method NextPage(ask: Lister, k: nat, c: nat, rows: seq<Row>) returns (r: Result<seq<Row>, Error>, whole: bool)
    requires Walks(ask, k, c) && rows == Served(ask, k, c) && Bounded(rows, c)
    ensures r.Err? ==> !whole && Fails(ask, k, c)
    ensures whole ==> r == Ok(rows) && Lists(ask, k, c, rows)
    ensures r.Ok? && !whole ==>
              && Walks(ask, k, c + 1) && r.value == Served(ask, k, c + 1)
              && Bounded(r.value, c + 1) && |rows| < |r.value|
  {
    var reply := ask(k + c, |rows|);
    assert reply == At(ask, k, c);
    if reply.Malformed? || |reply.rows| > PAGE {
      return Err(Unreadable), false;
    }
    if reply.rows == [] {
      return Ok(rows), true;
    }
    r := AddPage(rows, reply.rows);
    whole := false;
    if r.Ok? {
      ServedNext(ask, k, c);
    }
  }

  /** However the client answers, a listing stops: each page adds a larger key. */
  method Listing(ask: Lister, k: nat) returns (r: Result<seq<Row>, Error>, calls: nat)
    ensures r.Ok? ==> calls > 0 && Lists(ask, k, calls - 1, r.value) && Bounded(r.value, calls - 1)
    ensures r.Err? ==> calls > 0 && Fails(ask, k, calls - 1)
    ensures calls <= 10_001
  {
    r, calls := Ok([]), 0;
    var whole := false;
    while r.Ok? && !whole
      invariant r.Ok? && !whole ==> Walks(ask, k, calls) && r.value == Served(ask, k, calls) && Bounded(r.value, calls)
      invariant whole ==> r.Ok? && calls > 0 && Lists(ask, k, calls - 1, r.value) && Bounded(r.value, calls - 1)
      invariant r.Err? ==> calls > 0 && Fails(ask, k, calls - 1)
      invariant calls <= MAX_TRANSFERS + 1
      decreases r.Ok? && !whole, if r.Ok? then MAX_TRANSFERS - |r.value| else 0
    {
      r, whole := NextPage(ask, k, calls, r.value);
      calls := calls + 1;
    }
  }

  /** A listing has one result. */
  lemma ListsOnce(ask: Lister, k: nat, m: nat, rows: seq<Row>, n: nat, others: seq<Row>)
    requires Lists(ask, k, m, rows) && Lists(ask, k, n, others)
    ensures m == n && rows == others
  {
    assert m < n ==> GoodAt(ask, k, m);
    assert n < m ==> GoodAt(ask, k, n);
  }

  lemma ListsOrFails(ask: Lister, k: nat, m: nat, rows: seq<Row>, n: nat)
    requires Lists(ask, k, m, rows)
    ensures !Fails(ask, k, n)
  {
    assert m < n && Walks(ask, k, n) ==> GoodAt(ask, k, m);
    assert n < m ==> GoodAt(ask, k, n);
  }

  ghost predicate Listed(ask: Lister, k: nat, rows: seq<Row>) {
    exists m: nat :: Lists(ask, k, m, rows)
  }

  /** A client whose transfers do not change is listed whole, in key order. */
  lemma SteadyClientIsListed(ask: Lister, k: nat, all: seq<Raw>)
    requires Extends([], all) && Steady(ask, all)
    ensures Listed(ask, k, ParseAll(all))
  {
    var calls := (|all| + PAGE - 1) / PAGE;
    SteadyWalk(ask, k, all, calls);
    assert all[..|all|] == all;
    assert Lists(ask, k, calls, ParseAll(all));
  }

  ghost predicate Steady(ask: Lister, all: seq<Raw>) {
    forall t: nat, o: nat :: ask(t, o) == Rows(Slice(all, o))
  }

  function Slice(all: seq<Raw>, offset: nat): seq<Raw> {
    if offset >= |all| then []
    else if offset + 250 >= |all| then all[offset..]
    else all[offset..offset + 250]
  }

  function Least(a: nat, b: nat): nat {
    if a < b then a else b
  }

  lemma ParsePrefix(all: seq<Raw>, m: nat)
    requires AllWhole(all) && m <= |all|
    ensures AllWhole(all[..m]) && ParseAll(all[..m]) == ParseAll(all)[..m]
  {
  }

  lemma ParseJoin(a: seq<Raw>, b: seq<Raw>)
    requires AllWhole(a + b)
    ensures AllWhole(a) && AllWhole(b) && ParseAll(a + b) == ParseAll(a) + ParseAll(b)
  {
    assert forall i :: 0 <= i < |a| ==> (a + b)[i] == a[i];
    assert forall i :: 0 <= i < |b| ==> (a + b)[|a| + i] == b[i];
  }

  /** One more page of the slices read so far. */
  lemma SteadyPage(all: seq<Raw>, n: nat)
    requires Extends([], all) && n < |all|
    ensures AllWhole(all[..n]) && Extends(ParseAll(all[..n]), Slice(all, n))
    ensures ParseAll(all[..n]) + ParseAll(Slice(all, n)) == ParseAll(all[..Least(n + PAGE, |all|)])
    ensures 0 < |Slice(all, n)| <= PAGE
  {
    var m := Least(n + PAGE, |all|);
    assert all[..n] + Slice(all, n) == all[..m];
    ParsePrefix(all, m);
    ParseJoin(all[..n], Slice(all, n));
    assert [] + ParseAll(all) == ParseAll(all);
    RisingPrefix(ParseAll(all), m);
  }

  lemma {:induction false} SteadyWalk(ask: Lister, k: nat, all: seq<Raw>, calls: nat)
    requires Extends([], all) && Steady(ask, all)
    requires (calls - 1) * PAGE < |all|
    ensures Walks(ask, k, calls) && Bounded(Served(ask, k, calls), calls)
    ensures Served(ask, k, calls) == ParseAll(all[..Least(calls * PAGE, |all|)])
  {
    if calls > 0 {
      var c := calls - 1;
      SteadyWalk(ask, k, all, c);
      SteadyPage(all, c * PAGE);
      assert At(ask, k, c) == Rows(Slice(all, c * PAGE));
      ServedNext(ask, k, c);
    }
  }

  // ---------------------------------------------------------------- relevance

  predicate IsSpace(ch: char) {
    || '\U{9}' <= ch <= '\U{d}' || '\U{1c}' <= ch <= ' ' || ch in {'\U{85}', '\U{a0}', '\U{1680}'}
    || '\U{2000}' <= ch <= '\U{200a}' || ch in {'\U{2028}', '\U{2029}', '\U{202f}', '\U{205f}', '\U{3000}'}
  }

  function Strip(text: string): string {
    if text == [] then []
    else if IsSpace(text[0]) then Strip(text[1..])
    else if IsSpace(text[|text| - 1]) then Strip(text[..|text| - 1])
    else text
  }

  function Tags(text: string): set<string> {
    set part | part in QueryStrings.SplitAll(text, ',') && Strip(part) != "" :: Strip(part)
  }

  predicate Ours(row: Row, keys: set<string>, categories: set<string>) {
    || row.key in keys
    || row.fields.category in categories
    || exists tag :: tag in Tags(row.fields.tags) && "book-search:" <= tag
  }

  function Relevant(rows: seq<Row>, keys: set<string>, categories: set<string>): seq<Row> {
    if rows == [] then []
    else
      var k := |rows| - 1;
      var before := Relevant(rows[..k], keys, categories);
      if Ours(rows[k], keys, categories) then before + [rows[k]] else before
  }

  /** `progress` stands for what may advance normally between observations. */
  datatype State = State(
    externalId: string, tags: set<string>, category: string, savePath: string, auto: bool, progress: string)

  /** A transfer as observed by one request, when it could be. */
  type Observer = (nat, string) -> Option<State>

  /** The single transfer answering to a key; another transfer's reply is refused. */
  function Status(observe: Observer, clock: nat, key: string): (r: Option<State>)
    ensures r.Some? ==> r.value.externalId == key
  {
    var reply := observe(clock, key);
    if reply.Some? && reply.value.externalId == key then reply else None
  }

  predicate Agrees(state: State, row: Row, absolute: string -> Option<string>) {
    && state.externalId == row.key && state.tags == Tags(row.fields.tags) && state.category == row.fields.category
    && Some(state.savePath) == absolute(row.fields.savePath) && state.auto == row.fields.auto
  }

  ghost predicate AllAgree(states: seq<State>, rows: seq<Row>, absolute: string -> Option<string>) {
    |states| == |rows| && forall i :: 0 <= i < |states| ==> Agrees(states[i], rows[i], absolute)
  }

  /** The states are the replies to consecutive requests. */
  ghost predicate Observes(observe: Observer, clock: nat, states: seq<State>) {
    forall i :: 0 <= i < |states| ==> observe(clock + i, states[i].externalId) == Some(states[i])
  }

  /** Every relevant row is observed as listed, whenever it is asked for. */
  ghost predicate Settled(observe: Observer, rows: seq<Row>, keys: set<string>, categories: set<string>,
                          absolute: string -> Option<string>) {
    forall t: nat, i {:trigger observe(t, rows[i].key)} ::
      0 <= i < |rows| && Ours(rows[i], keys, categories) ==>
      observe(t, rows[i].key).Some? && Agrees(observe(t, rows[i].key).value, rows[i], absolute)
  }

  method ObserveRows(observe: Observer, clock: nat, rows: seq<Row>, keys: set<string>, categories: set<string>,
                     absolute: string -> Option<string>) returns (r: Result<seq<State>, Error>, now: nat)
    ensures r.Ok? ==>
              && AllAgree(r.value, Relevant(rows, keys, categories), absolute)
              && now == clock + |r.value| && Observes(observe, clock, r.value)
    ensures r.Err? ==> !Settled(observe, rows, keys, categories, absolute)
  {
    now := clock;
    var states: seq<State> := [];
    for i := 0 to |rows|
      invariant now == clock + |states| && Observes(observe, clock, states)
      invariant AllAgree(states, Relevant(rows[..i], keys, categories), absolute)
    {
      var row := rows[i];
      assert rows[..i + 1][..i] == rows[..i];
      if Ours(row, keys, categories) {
        var state := Status(observe, now, row.key);
        if state.None? {
          return Err(Unobserved), now;
        }
        if state.value.tags != Tags(row.fields.tags) || state.value.category != row.fields.category {
          return Err(Changed), now;
        }
        if absolute(row.fields.savePath).None? {
          return Err(NotAPath), now;
        }
        if Some(state.value.savePath) != absolute(row.fields.savePath) || state.value.auto != row.fields.auto {
          return Err(Changed), now;
        }
        now := now + 1;
        states := states + [state.value];
      }
    }
    assert rows[..|rows|] == rows;
    r := Ok(states);
  }

  // ---------------------------------------------------------------- the census

  ghost predicate AllHashes(known: set<string>) {
    forall h :: h in known ==> HashValue(h).Some?
  }

  function Keys(known: set<string>): set<string> {
    set h | h in known && HashValue(h).Some? :: HashValue(h).value[..40]
  }

  /** The same rows were listed by three separate listings. */
  ghost predicate Witnessed(ask: Lister, rows: seq<Row>, second: nat, third: nat) {
    0 < second < third && Listed(ask, 0, rows) && Listed(ask, second, rows) && Listed(ask, third, rows)
  }

  /** The client lists the same rows whenever it is asked. */
  ghost predicate Still(ask: Lister, rows: seq<Row>) {
    forall k: nat :: Listed(ask, k, rows)
  }

  ghost predicate Restless(ask: Lister) {
    forall rows :: !Still(ask, rows)
  }

  /** What a census that succeeds has established. */
  ghost predicate Established(ask: Lister, observe: Observer, keys: set<string>, categories: set<string>,
                              absolute: string -> Option<string>, rows: seq<Row>, second: nat, third: nat,
                              states: seq<State>) {
    && Witnessed(ask, rows, second, third) && Rising(rows) && |rows| <= 10_000
    && AllAgree(states, Relevant(rows, keys, categories), absolute)
    && exists start: nat :: second < start && start + |states| == third && Observes(observe, start, states)
  }

  /** Why one may fail: the client does not list the same rows throughout, or some
      relevant row is not observed as listed. */
  ghost predicate Unsettled(ask: Lister, observe: Observer, keys: set<string>, categories: set<string>,
                            absolute: string -> Option<string>) {
    Restless(ask) || exists rows :: Listed(ask, 0, rows) && !Settled(observe, rows, keys, categories, absolute)
  }

  /** Two equal listings, an observation of every relevant row, and a third listing. */
  method Census(ask: Lister, observe: Observer, known: set<string>, categories: set<string>,
                absolute: string -> Option<string>)
    returns (r: Result<(seq<State>, nat), Error>, ghost rows: seq<Row>, ghost second: nat, ghost third: nat)
    ensures r.Ok? ==>
              && AllHashes(known) && r.value.1 == |rows|
              && Established(ask, observe, Keys(known), categories, absolute, rows, second, third, r.value.0)
    ensures r.Err? ==> !AllHashes(known) || Unsettled(ask, observe, Keys(known), categories, absolute)
  {
    rows, second, third := [], 0, 0;
    if h :| h in known && HashValue(h).None? {
      return Err(NotAHash), rows, second, third;
    }
    var first, calls := Listing(ask, 0);
    if first.Err? {
      FailureMoves(ask, 0, calls - 1);
      return Err(first.error), rows, second, third;
    }
    rows, second := first.value, calls;
    assert Listed(ask, 0, rows);
    r, third := CensusAfter(ask, observe, Keys(known), categories, absolute, first.value, calls);
  }

  /** The census once the first listing has been read. */
  method CensusAfter(ask: Lister, observe: Observer, keys: set<string>, categories: set<string>,
                     absolute: string -> Option<string>, rows: seq<Row>, calls: nat)
    returns (r: Result<(seq<State>, nat), Error>, ghost third: nat)
    requires Listed(ask, 0, rows) && Rising(rows) && |rows| <= MAX_TRANSFERS && calls > 0
    ensures r.Ok? ==>
              && r.value.1 == |rows|
              && Established(ask, observe, keys, categories, absolute, rows, calls, third, r.value.0)
    ensures r.Err? ==> Unsettled(ask, observe, keys, categories, absolute)
  {
    third := 0;
    var changed, more := ListAgain(ask, calls, rows);
    if changed.Some? {
      return Err(changed.value), third;
    }
    r, third := CensusTail(ask, observe, keys, categories, absolute, rows, calls, calls + more);
  }

  /** The observations, from request `start` on, and the last listing. */
  method CensusTail(ask: Lister, observe: Observer, keys: set<string>, categories: set<string>,
                    absolute: string -> Option<string>, rows: seq<Row>, ghost second: nat, start: nat)
    returns (r: Result<(seq<State>, nat), Error>, ghost third: nat)
    requires Listed(ask, 0, rows) && Rising(rows) && |rows| <= MAX_TRANSFERS
    requires Listed(ask, second, rows) && 0 < second < start
    ensures r.Ok? ==>
              && r.value.1 == |rows|
              && Established(ask, observe, keys, categories, absolute, rows, second, third, r.value.0)
    ensures r.Err? ==> Unsettled(ask, observe, keys, categories, absolute)
  {
    third := start;
    var states, now := ObserveRows(observe, start, rows, keys, categories, absolute);
    if states.Err? {
      r := Err(states.error);
    } else {
      third := now;
      var changed, _ := ListAgain(ask, now, rows);
      r := if changed.Some? then Err(changed.value) else Ok((states.value, |rows|));
    }
  }

  lemma FailureMoves(ask: Lister, k: nat, m: nat)
    requires Fails(ask, k, m)
    ensures Restless(ask)
  {
    forall rows ensures !Still(ask, rows) {
      if Listed(ask, k, rows) {
        var n: nat :| Lists(ask, k, n, rows);
        ListsOrFails(ask, k, n, rows, m);
      }
    }
  }

  lemma OneListing(ask: Lister, k: nat, rows: seq<Row>, others: seq<Row>)
    requires Listed(ask, k, rows) && Listed(ask, k, others)
    ensures rows == others
  {
    var m: nat :| Lists(ask, k, m, rows);
    var n: nat :| Lists(ask, k, n, others);
    ListsOnce(ask, k, m, rows, n, others);
  }

  lemma DifferenceMoves(ask: Lister, k: nat, rows: seq<Row>, j: nat, others: seq<Row>)
    requires Listed(ask, k, rows) && Listed(ask, j, others) && rows != others
    ensures Restless(ask)
  {
    forall list ensures !Still(ask, list) {
      if Still(ask, list) {
        OneListing(ask, k, rows, list);
        OneListing(ask, j, others, list);
      }
    }
  }

  /** Another listing, from request `k` on, which must give the first one's rows. */
  method ListAgain(ask: Lister, k: nat, expected: seq<Row>) returns (r: Option<Error>, calls: nat)
    requires Listed(ask, 0, expected)
    ensures calls > 0
    ensures r.None? ==> Listed(ask, k, expected)
    ensures r.Some? ==> Restless(ask)
  {
    var again;
    again, calls := Listing(ask, k);
    r := None;
    if again.Err? {
      FailureMoves(ask, k, calls - 1);
      r := Some(again.error);
    } else if again.value != expected {
      DifferenceMoves(ask, 0, expected, k, again.value);
      r := Some(Changed);
    }
  }

  /** Every relevant listed transfer has exactly one state, and no other transfer has. */
  lemma CensusIsExact(states: seq<State>, rows: seq<Row>, keys: set<string>, categories: set<string>,
                      absolute: string -> Option<string>)
    requires Rising(rows) && AllAgree(states, Relevant(rows, keys, categories), absolute)
    ensures forall i, j :: 0 <= i < j < |states| ==> Less(states[i].externalId, states[j].externalId)
    ensures forall state :: state in states ==>
              exists row :: row in rows && Ours(row, keys, categories) && Agrees(state, row, absolute)
    ensures forall row :: row in rows && Ours(row, keys, categories) ==>
              exists state :: state in states && Agrees(state, row, absolute)
  {
    var ours := Relevant(rows, keys, categories);
    RelevantSelects(rows, keys, categories);
    forall i, j | 0 <= i < j < |states| ensures Less(states[i].externalId, states[j].externalId) {
      assert Agrees(states[i], ours[i], absolute) && Agrees(states[j], ours[j], absolute);
    }
    forall state | state in states
      ensures exists row :: row in rows && Ours(row, keys, categories) && Agrees(state, row, absolute) {
      var i :| 0 <= i < |states| && states[i] == state;
      assert Agrees(states[i], ours[i], absolute) && ours[i] in ours;
    }
    forall row | row in rows && Ours(row, keys, categories)
      ensures exists state :: state in states && Agrees(state, row, absolute) {
      var i :| 0 <= i < |ours| && ours[i] == row;
      assert Agrees(states[i], ours[i], absolute) && states[i] in states;
    }
  }

  lemma {:induction false} RelevantSelects(rows: seq<Row>, keys: set<string>, categories: set<string>)
    requires Rising(rows)
    ensures Rising(Relevant(rows, keys, categories))
    ensures forall row :: row in Relevant(rows, keys, categories) <==> row in rows && Ours(row, keys, categories)
  {
    if rows != [] {
      var k := |rows| - 1;
      var before := Relevant(rows[..k], keys, categories);
      RisingPrefix(rows, k);
      RelevantSelects(rows[..k], keys, categories);
      assert rows == rows[..k] + [rows[k]];
      if before != [] {
        var last := before[|before| - 1];
        assert last in before;
        assert last in rows[..k];
        var i :| 0 <= i < k && rows[i] == last;
        assert Less(rows[i].key, rows[k].key);
      }
      RisingAppend(before, rows[k]);
    }
  }

  // ---------------------------------------------------------------- spelled out

  /** A transfer's key is its digest in lower case: forty digits for v1, sixty-four for v2. */
  lemma HashSpelled(bits: Magnets.Bits)
    requires |bits| == 160 || |bits| == 256
    ensures var text := Magnets.HexSpelled(bits);
            HashValue(text) == Some(text) && HashValue(Magnets.Upper(text)) == Some(text)
  {
    Magnets.LowerOfHex(bits);
    assert |Magnets.Upper(Magnets.HexSpelled(bits))| == |Magnets.HexSpelled(bits)|;
  }

  lemma HashRefused(text: string)
    ensures |text| != 40 && |text| != 64 ==> HashValue(text) == None
    ensures (exists i :: 0 <= i < |text| && text[i] !in "0123456789abcdefABCDEF") ==> HashValue(text) == None
  {
    forall ch | Magnets.AllHex([ch]) ensures ch in "0123456789abcdefABCDEF" {
      HexLetter(ch);
    }
    assert forall i :: 0 <= i < |text| && !Magnets.AllHex([text[i]]) ==> !Magnets.AllHex(text) by {
      forall i | 0 <= i < |text| && Magnets.AllHex(text) ensures Magnets.AllHex([text[i]]) {
      }
    }
  }

  lemma HexLetter(ch: char)
    requires Magnets.AllHex([ch])
    ensures ch in "0123456789abcdefABCDEF"
  {
    var all := "0123456789abcdefABCDEF";
    assert [ch][0] == ch;
    assert '0' <= ch <= '9' ==> all[ch as int - '0' as int] == ch;
    assert 'a' <= ch <= 'f' ==> all[10 + ch as int - 'a' as int] == ch;
    assert 'A' <= ch <= 'F' ==> all[16 + ch as int - 'A' as int] == ch;
  }

  /** The white space characters of Unicode. */
  ghost predicate White(ch: char) {
    ch in {
      '\t', '\n', '\U{b}', '\U{c}', '\r', '\U{1c}', '\U{1d}', '\U{1e}', '\U{1f}', ' ', '\U{85}', '\U{a0}',
      '\U{1680}', '\U{2000}', '\U{2001}', '\U{2002}', '\U{2003}', '\U{2004}', '\U{2005}', '\U{2006}', '\U{2007}',
      '\U{2008}', '\U{2009}', '\U{200a}', '\U{2028}', '\U{2029}', '\U{202f}', '\U{205f}', '\U{3000}'}
  }

  /** What surrounds a tag and is no part of it. */
  ghost predicate Blank(text: string) {
    forall i :: 0 <= i < |text| ==> White(text[i])
  }

  /** Text that begins and ends with something to be seen. */
  ghost predicate Trimmed(text: string) {
    text != "" && !White(text[0]) && !White(text[|text| - 1])
  }

  lemma WhiteIsSpace(ch: char)
    ensures White(ch) <==> IsSpace(ch)
  {
  }

  lemma {:induction false} StripSpelled(before: string, text: string, after: string)
    requires Blank(before) && Blank(after) && (text == "" || Trimmed(text))
    ensures Strip(before + text + after) == text
    decreases |before| + |after|
  {
    var whole := before + text + after;
    forall ch ensures White(ch) <==> IsSpace(ch) {
      WhiteIsSpace(ch);
    }
    if text == "" {
      assert whole == before + after;
      StripBlank(whole);
    } else if before != "" {
      assert whole[1..] == before[1..] + text + after && IsSpace(before[0]);
      StripSpelled(before[1..], text, after);
    } else if after != "" {
      var init := after[..|after| - 1];
      assert whole[0] == text[0] && whole[..|whole| - 1] == "" + text + init;
      assert IsSpace(after[|after| - 1]);
      StripSpelled("", text, init);
    } else {
      assert whole == text;
    }
  }

  lemma {:induction false} StripBlank(text: string)
    requires Blank(text)
    ensures Strip(text) == ""
  {
    if text != "" {
      WhiteIsSpace(text[0]);
      StripBlank(text[1..]);
    }
  }

  /** Commas separate tags. */
  lemma TagsApart(a: string, b: string)
    ensures Tags(a + "," + b) == Tags(a) + Tags(b)
  {
    var whole := QueryStrings.SplitApart(a, b, ',');
    assert whole == a + "," + b;
  }

  /** One tag is its text without the blanks around it, and blanks alone are no tag. */
  lemma OneTag(before: string, text: string, after: string)
    requires Blank(before) && Blank(after) && (text == "" || Trimmed(text)) && ',' !in text
    ensures Tags(before + text + after) == if text == "" then {} else {text}
  {
    var whole := before + text + after;
    assert QueryStrings.Lacks(whole, ',');
    QueryStrings.SplitPrefix(whole, "", ',');
    StripSpelled(before, text, after);
    assert QueryStrings.SplitAll(whole, ',') == [whole];
  }

  /** A transfer with an attempt tag anywhere in its list, blanks around it or not, is
      relevant. */
  lemma TaggedIsOurs(row: Row, keys: set<string>, categories: set<string>, a: string, before: string, id: string,
                     after: string, b: string)
    requires Blank(before) && Blank(after) && Trimmed("book-search:" + id) && ',' !in id
    requires row.fields.tags == a + "," + (before + ("book-search:" + id) + after + "," + b)
             || row.fields.tags == before + ("book-search:" + id) + after
    ensures Ours(row, keys, categories)
  {
    var tag := "book-search:" + id;
    OneTag(before, tag, after);
    TagsApart(before + tag + after, b);
    TagsApart(a, before + tag + after + "," + b);
    assert tag in Tags(row.fields.tags) && "book-search:" <= tag;
  }

  /** Otherwise only a known key or a category of ours makes it so. */
  lemma OtherIsOurs(row: Row, keys: set<string>, categories: set<string>)
    requires forall tag :: tag in Tags(row.fields.tags) ==> !("book-search:" <= tag)
    ensures Ours(row, keys, categories) <==> row.key in keys || row.fields.category in categories
  {
  }

  /** Known hashes are compared by their first forty digits, in lower case. */
  lemma KeysSpelled(known: set<string>, bits: Magnets.Bits)
    requires |bits| == 160 || |bits| == 256
    requires Magnets.HexSpelled(bits) in known || Magnets.Upper(Magnets.HexSpelled(bits)) in known
    ensures Magnets.HexSpelled(bits)[..40] in Keys(known)
  {
    HashSpelled(bits);
  }

  lemma KeysAreKnown(known: set<string>, key: string)
    requires key in Keys(known)
    ensures |key| == 40 && exists h :: h in known && HashValue(h).Some? && key <= Magnets.Lower(h)
  {
  }
}
