/** Two-pass series collection (services/app/adapters/hardcover_series.py): a keyset
    page reader and the collect-then-verify machine that consumes its pages. */
module HardcoverSeries {
  import opened Outcomes

  /** Facts about the series itself, equal on every page of one observation. */
  datatype Info = Info(count: nat, details: string)

  /** An entry; `membership` is everything but the reader count. */
  datatype Item = Item(entryId: int, membership: string, users: nat)

  datatype SeriesPage = SeriesPage(info: Info, items: seq<Item>, cursor: int)

  datatype Error = NotFound | Merged | Invalid

  const PAGE_SIZE := 100
  const MAX_MEMBERS := 1000
  const MAX_KEY := 0x7fff_ffff_ffff_ffff

  // ---------------------------------------------------------------- one page

  /** A decoded reply: `readable` says that the row's fields have usable values. */
  datatype Member = Member(key: int, readable: bool, membership: string, users: nat)

  datatype Reply = Reply(rows: nat, sameSeries: bool, merged: bool, count: int, named: bool, details: string,
      members: seq<Member>)

  predicate Ascending(items: seq<Item>) {
    forall i, j :: 0 <= i < j < |items| ==> items[i].entryId < items[j].entryId
  }

  predicate Above(items: seq<Item>, cursor: int) {
    forall i :: 0 <= i < |items| ==> cursor < items[i].entryId
  }

  function LastId(items: seq<Item>, cursor: int): int {
    if items == [] then cursor else items[|items| - 1].entryId
  }

  /** What every page handed to the machine satisfies. */
  ghost predicate PageFrom(page: SeriesPage, cursor: int) {
    && page.info.count <= MAX_MEMBERS
    && |page.items| <= PAGE_SIZE
    && Ascending(page.items) && Above(page.items, cursor)
    && page.cursor == LastId(page.items, cursor)
  }

  ghost predicate Usable(reply: Reply, cursor: int) {
    && 0 <= reply.count <= MAX_MEMBERS && reply.named && |reply.members| <= PAGE_SIZE
    && (forall i :: 0 <= i < |reply.members| ==> reply.members[i].readable && cursor < reply.members[i].key <= MAX_KEY)
    && (forall i, j :: 0 <= i < j < |reply.members| ==> reply.members[i].key < reply.members[j].key)
  }

  function ItemsOf(members: seq<Member>): (items: seq<Item>)
    ensures |items| == |members|
    ensures forall i :: 0 <= i < |members| ==> items[i] == Item(members[i].key, members[i].membership, members[i].users)
  {
    seq(|members|, i requires 0 <= i < |members| => Item(members[i].key, members[i].membership, members[i].users))
  }

  /** The page a usable reply stands for, whichever cursor it was asked with. */
  ghost predicate Reads(reply: Reply, after: int, page: SeriesPage) {
    && reply.rows == 1 && reply.sameSeries && !reply.merged && Usable(reply, after)
    && page == SeriesPage(Info(reply.count, reply.details), ItemsOf(reply.members),
         LastId(ItemsOf(reply.members), after))
  }

  method ReadPage(reply: Reply, after: int) returns (r: Result<SeriesPage, Error>)
    ensures r == Err(NotFound) <==> reply.rows == 0
    ensures r == Err(Merged) <==> reply.rows == 1 && reply.sameSeries && reply.merged
    ensures r.Ok? <==> reply.rows == 1 && reply.sameSeries && !reply.merged && Usable(reply, after)
    ensures r.Ok? ==> PageFrom(r.value, after) && Reads(reply, after, r.value)
  {
    if reply.rows == 0 {
      return Err(NotFound);
    }
    if reply.rows != 1 || !reply.sameSeries {
      return Err(Invalid);
    }
    if reply.merged {
      return Err(Merged);
    }
    if !(0 <= reply.count <= MAX_MEMBERS) || !reply.named || |reply.members| > PAGE_SIZE {
      return Err(Invalid);
    }
    var items: seq<Item> := [];
    var cursor := after;
    for k := 0 to |reply.members|
      invariant |items| == k && cursor == LastId(items, after)
      invariant forall i :: 0 <= i < k ==>
                  && reply.members[i].readable && after < reply.members[i].key <= MAX_KEY
                  && items[i] == Item(reply.members[i].key, reply.members[i].membership, reply.members[i].users)
      invariant Ascending(items) && Above(items, after)
    {
      var m := reply.members[k];
      if !(cursor < m.key <= MAX_KEY) || !m.readable {
        if k > 0 {
          assert cursor == reply.members[k - 1].key;
        }
        return Err(Invalid);
      }
      cursor := m.key;
      items := items + [Item(m.key, m.membership, m.users)];
    }
    assert forall i, j :: 0 <= i < j < |reply.members| ==> items[i].entryId < items[j].entryId;
    assert items == ItemsOf(reply.members);
    r := Ok(SeriesPage(Info(reply.count, reply.details), items, cursor));
  }

  // ---------------------------------------------------------------- the machine

  datatype Phase = Collect | Verify

  datatype Stage = Stage(info: Info, items: seq<Item>, cursor: int, phase: Phase, verified: nat)

  /** Equal entry by entry, reader counts aside. */
  predicate SameMembership(a: seq<Item>, b: seq<Item>) {
    && |a| == |b|
    && forall i :: 0 <= i < |a| ==> a[i].entryId == b[i].entryId && a[i].membership == b[i].membership
  }

  /** Python's slice: it stops at the end of the list. */
  function Slice(items: seq<Item>, lo: nat, hi: nat): seq<Item> {
    if lo > |items| || lo > hi then [] else items[lo..if hi < |items| then hi else |items|]
  }

  /** One observed page; the flag says that the catalogue is complete. */
  function Advance(saved: Option<Stage>, page: SeriesPage): Result<(Stage, bool), Error> {
    var stage := if saved.Some? then saved.value else Stage(page.info, [], 0, Collect, 0);
    if page.info != stage.info then Err(Invalid)
    else if stage.phase == Collect then
      var items := stage.items + page.items;
      if |items| > page.info.count then Err(Invalid)
      else if page.items == [] && |items| != page.info.count then Err(Invalid)
      else if |items| == page.info.count then
        Ok((stage.(items := items, phase := Verify, cursor := 0), false))
      else Ok((stage.(items := items, cursor := page.cursor), false))
    else
      var offset := stage.verified;
      var verified := offset + |page.items|;
      if !SameMembership(page.items, Slice(stage.items, offset, verified)) then Err(Invalid)
      else if page.items == [] && verified != |stage.items| then Err(Invalid)
      else
        var items := Slice(stage.items, 0, offset) + page.items + Slice(stage.items, verified, |stage.items|);
        if verified == |items| then Ok((stage.(items := items), true))
        else Ok((stage.(items := items, verified := verified, cursor := page.cursor), false))
  }

  /** Which pages the machine accepts in the first pass: they add up to at most the count,
      and an empty one only completes it. */
  lemma CollectSpelled(stage: Stage, page: SeriesPage)
    requires stage.phase == Collect
    ensures Advance(Some(stage), page).Ok? <==>
            && page.info == stage.info
            && (if page.items == [] then |stage.items| == stage.info.count
                else |stage.items| + |page.items| <= stage.info.count)
    ensures Advance(Some(stage), page).Ok? ==>
              var (next, done) := Advance(Some(stage), page).value;
              && !done && next.items == stage.items + page.items && next.info == stage.info
              && (next.phase == Verify <==> |next.items| == stage.info.count)
              && next.cursor == (if next.phase == Verify then 0 else page.cursor) && next.verified == stage.verified
  {
  }

  /** Comparing with a slice is comparing entry by entry at their places. */
  lemma SliceSpelled(items: seq<Item>, more: seq<Item>, offset: nat)
    requires offset <= |items|
    ensures SameMembership(more, Slice(items, offset, offset + |more|)) <==>
            && offset + |more| <= |items|
            && forall i :: 0 <= i < |more| ==>
                 && more[i].entryId == items[offset + i].entryId
                 && more[i].membership == items[offset + i].membership
  {
    var slice := Slice(items, offset, offset + |more|);
    assert forall i :: 0 <= i < |slice| ==> slice[i] == items[offset + i];
  }

  /** Which pages it accepts in the second pass: each entry has the identifier and the
      membership of the entry collected at its place, whatever its reader count, and a
      page is empty only when nothing is left. */
  lemma VerifySpelled(stage: Stage, page: SeriesPage)
    requires stage.phase == Verify && stage.verified <= |stage.items|
    ensures Advance(Some(stage), page).Ok? <==>
            && page.info == stage.info
            && stage.verified + |page.items| <= |stage.items|
            && (forall i :: 0 <= i < |page.items| ==>
                  && page.items[i].entryId == stage.items[stage.verified + i].entryId
                  && page.items[i].membership == stage.items[stage.verified + i].membership)
            && (page.items != [] || stage.verified == |stage.items|)
  {
    SliceSpelled(stage.items, page.items, stage.verified);
  }

  /** What it makes of them: what is read replaces what was collected. */
  lemma VerifyReplaces(stage: Stage, page: SeriesPage)
    requires stage.phase == Verify && stage.verified <= |stage.items| && Advance(Some(stage), page).Ok?
    ensures var (next, done) := Advance(Some(stage), page).value;
            var end := stage.verified + |page.items|;
            && end <= |stage.items| && done == (end == |stage.items|)
            && next.items == stage.items[..stage.verified] + page.items + stage.items[end..]
            && next.info == stage.info
            && (!done ==> next.verified == end && next.cursor == page.cursor && next.phase == Verify)
  {
    SliceSpelled(stage.items, page.items, stage.verified);
  }

  /** One call, with a page that the reader can return after the stage's cursor. */
  ghost function Fed(saved: Option<Stage>, page: SeriesPage): Result<(Stage, bool), Error> {
    if PageFrom(page, if saved.Some? then saved.value.cursor else 0) then Advance(saved, page) else Err(Invalid)
  }

  type Caller = (Option<Stage>, SeriesPage) -> Result<(Stage, bool), Error>

  /** Feeding all of `pages` to a caller from nothing: an error when a call raises or
      when pages follow completion. */
  ghost function Replay(call: Caller, pages: seq<SeriesPage>): Result<(Stage, bool), Error>
    requires pages != []
    decreases |pages|
  {
    var init, page := pages[..|pages| - 1], pages[|pages| - 1];
    if init == [] then call(None, page)
    else match Replay(call, init)
      case Err(e) => Err(e)
      case Ok((stage, done)) => if done then Err(Invalid) else call(Some(stage), page)
  }

  ghost function After(pages: seq<SeriesPage>): Result<(Stage, bool), Error>
    requires pages != []
  {
    Replay(Fed, pages)
  }

  function Items(pages: seq<SeriesPage>): seq<Item> {
    if pages == [] then [] else Items(pages[..|pages| - 1]) + pages[|pages| - 1].items
  }

  ghost predicate SameInfo(pages: seq<SeriesPage>, info: Info) {
    forall i :: 0 <= i < |pages| ==> pages[i].info == info
  }

  function Max(a: nat, b: nat): nat {
    if a < b then b else a
  }

  /** The stage after a first pass of `calls` pages has read `first`. */
  ghost predicate Collected(first: seq<Item>, calls: nat, stage: Stage) {
    && Ascending(first) && Above(first, 0) && stage.verified == 0
    && if stage.phase == Collect then
         && calls <= |first| < stage.info.count
         && stage.items == first && stage.cursor == LastId(first, 0)
       else
         && calls <= Max(1, |first|) && |first| == stage.info.count
         && stage.items == first && stage.cursor == 0
  }

  /** The stage after `calls` pages of a second pass have read `second`. */
  ghost predicate Verified(first: seq<Item>, second: seq<Item>, calls: nat, stage: Stage, done: bool) {
    && Ascending(second) && Above(second, 0) && stage.phase == Verify
    && |second| <= |first| == stage.info.count
    && stage.items == second + first[|second|..]
    && SameMembership(second, first[..|second|])
    && if done then |second| == |first| && 1 <= calls <= Max(1, |second|)
       else
         && stage.verified == |second| && calls <= |second| && (calls == 0 || |second| < |first|)
         && stage.cursor == LastId(second, 0)
  }

  lemma AscendingJoin(a: seq<Item>, b: seq<Item>, cursor: int)
    requires Ascending(a) && Above(a, cursor) && Ascending(b) && Above(b, LastId(a, cursor))
    ensures Ascending(a + b) && Above(a + b, cursor) && LastId(a + b, cursor) == LastId(b, LastId(a, cursor))
  {
  }

  lemma CollectStep(first: seq<Item>, calls: nat, saved: Option<Stage>, page: SeriesPage)
    requires if saved.Some? then saved.value.phase == Collect && Collected(first, calls, saved.value)
             else first == [] && calls == 0
    requires PageFrom(page, LastId(first, 0)) && Advance(saved, page).Ok?
    ensures var (next, done) := Advance(saved, page).value;
            !done && next.info == page.info && Collected(first + page.items, calls + 1, next)
  {
    AscendingJoin(first, page.items, 0);
  }

  /** A second-pass page replaces its entries in the collected items. */
  lemma VerifyPageFits(first: seq<Item>, second: seq<Item>, items: seq<Item>, more: seq<Item>)
    requires |second| <= |first| && items == second + first[|second|..]
    requires SameMembership(more, Slice(items, |second|, |second| + |more|))
    ensures |second + more| <= |first|
    ensures Slice(items, 0, |second|) + more + Slice(items, |second| + |more|, |items|)
              == (second + more) + first[|second + more|..]
    ensures SameMembership(more, first[|second|..|second + more|])
  {
    var hi := |second| + |more|;
    var slice := Slice(items, |second|, hi);
    assert |slice| == |more|;
    assert slice == first[|second|..hi];
    assert Slice(items, 0, |second|) == second;
    assert Slice(items, hi, |items|) == first[hi..];
  }

  lemma SameMembershipJoin(first: seq<Item>, a: seq<Item>, b: seq<Item>)
    requires |a| + |b| <= |first|
    requires SameMembership(a, first[..|a|]) && SameMembership(b, first[|a|..|a| + |b|])
    ensures SameMembership(a + b, first[..|a + b|])
  {
  }

  lemma VerifyStep(first: seq<Item>, second: seq<Item>, calls: nat, stage: Stage, page: SeriesPage)
    requires Verified(first, second, calls, stage, false)
    requires PageFrom(page, stage.cursor) && Advance(Some(stage), page).Ok?
    ensures var (next, done) := Advance(Some(stage), page).value;
            next.info == page.info && Verified(first, second + page.items, calls + 1, next, done)
  {
    AscendingJoin(second, page.items, 0);
    VerifyPageFits(first, second, stage.items, page.items);
    SameMembershipJoin(first, second, page.items);
  }

  /** The state of a run that has not raised, in terms of its pages alone. */
  ghost predicate Explained(pages: seq<SeriesPage>, stage: Stage, done: bool, k: nat) {
    && 1 <= k <= |pages| && SameInfo(pages, stage.info)
    && if stage.phase == Collect || k == |pages| then !done && k == |pages| && Collected(Items(pages), k, stage)
       else k <= Max(1, |Items(pages[..k])|) && Verified(Items(pages[..k]), Items(pages[k..]), |pages| - k, stage, done)
  }

  lemma CollectExplained(init: seq<SeriesPage>, page: SeriesPage, stage: Stage)
    requires Explained(init, stage, false, |init|) && stage.phase == Collect
    requires PageFrom(page, stage.cursor) && Advance(Some(stage), page).Ok?
    ensures var (next, done) := Advance(Some(stage), page).value; Explained(init + [page], next, done, |init| + 1)
  {
    CollectStep(Items(init), |init|, Some(stage), page);
    assert (init + [page])[..|init|] == init;
  }

  /** The second pass, which may be about to begin. */
  lemma SecondPass(init: seq<SeriesPage>, stage: Stage, k: nat)
    requires Explained(init, stage, false, k) && stage.phase == Verify
    ensures k <= Max(1, |Items(init[..k])|)
    ensures Verified(Items(init[..k]), Items(init[k..]), |init| - k, stage, false)
  {
    if k == |init| {
      assert init[..k] == init && init[k..] == [];
      assert Items(init)[0..] == Items(init);
    }
  }

  lemma ItemsGrow(init: seq<SeriesPage>, page: SeriesPage, k: nat)
    requires k <= |init|
    ensures (init + [page])[..k] == init[..k]
    ensures Items((init + [page])[k..]) == Items(init[k..]) + page.items
  {
    assert (init + [page])[k..] == init[k..] + [page];
    assert (init[k..] + [page])[..|init| - k] == init[k..];
  }

  lemma VerifyExplained(init: seq<SeriesPage>, page: SeriesPage, stage: Stage, k: nat)
    requires Explained(init, stage, false, k) && stage.phase == Verify
    requires PageFrom(page, stage.cursor) && Advance(Some(stage), page).Ok?
    ensures var (next, done) := Advance(Some(stage), page).value; Explained(init + [page], next, done, k)
  {
    SecondPass(init, stage, k);
    ItemsGrow(init, page, k);
    VerifyStep(Items(init[..k]), Items(init[k..]), |init| - k, stage, page);
  }

  lemma FirstPageExplained(page: SeriesPage)
    requires PageFrom(page, 0) && Advance(None, page).Ok?
    ensures var (stage, done) := Advance(None, page).value; Explained([page], stage, done, 1)
  {
    CollectStep([], 0, None, page);
    assert Items([page]) == [] + page.items;
  }

  lemma {:induction false} RunExplained(pages: seq<SeriesPage>) returns (stage: Stage, done: bool, k: nat)
    requires pages != [] && After(pages).Ok?
    ensures After(pages) == Ok((stage, done)) && Explained(pages, stage, done, k)
    decreases |pages|
  {
    stage, done := After(pages).value.0, After(pages).value.1;
    var init, page := pages[..|pages| - 1], pages[|pages| - 1];
    assert pages == init + [page];
    if init == [] {
      k := 1;
      FirstPageExplained(page);
    } else {
      var before, _, j := RunExplained(init);
      if before.phase == Collect {
        k := j + 1;
        CollectExplained(init, page, before);
      } else {
        k := j;
        VerifyExplained(init, page, before, j);
      }
    }
  }

  /** Whenever the machine reports completion, the pages split into two passes such
      that the result is exactly what the second pass read, which agrees with what
      the first pass read up to reader counts; it holds the announced number of
      entries in strictly increasing order, and the series facts were the same on
      every page. */
  lemma CompletionIsVerified(pages: seq<SeriesPage>, stage: Stage) returns (k: nat)
    requires pages != [] && After(pages) == Ok((stage, true))
    ensures 0 < k < |pages|
    ensures stage.items == Items(pages[k..])
    ensures SameMembership(stage.items, Items(pages[..k]))
    ensures |stage.items| == stage.info.count && Ascending(stage.items)
    ensures SameInfo(pages, stage.info)
  {
    var _, _, split := RunExplained(pages);
    k := split;
    var first, second := Items(pages[..k]), Items(pages[k..]);
    assert first[|second|..] == [] && first[..|second|] == first;
  }

  /** Every run ends: no run that has not raised is longer than two passes of one
      entry a page. */
  lemma RunsAreBounded(pages: seq<SeriesPage>)
    requires pages != [] && After(pages).Ok?
    ensures var (stage, done) := After(pages).value;
            |pages| <= 2 * Max(1, stage.info.count) && (!done ==> |pages| < 2 * Max(1, stage.info.count))
  {
    var _, _, _ := RunExplained(pages);
  }

  // ---------------------------------------------------------------- an unchanging series

  /** A series as a server holds it throughout; it counts the rows it has. */
  datatype Series = Series(details: string, named: bool, members: seq<Member>)

  function InfoOf(series: Series): Info {
    Info(|series.members|, series.details)
  }

  ghost predicate Keyed(members: seq<Member>) {
    forall i, j :: 0 <= i < j < |members| ==> members[i].key < members[j].key
  }

  /** What a series must be for the reader to take all of it. */
  ghost predicate Presentable(series: Series) {
    && series.named && |series.members| <= 1000
    && forall i :: 0 <= i < |series.members| ==>
         series.members[i].readable && 0 < series.members[i].key <= 9223372036854775807
  }

  /** Where the page after the first `m` of `n` rows ends. */
  function Next(m: nat, n: nat): nat {
    if n - m <= PAGE_SIZE then n else m + PAGE_SIZE
  }

  /** The reply for the first rows beyond `cursor`. */
  ghost predicate ServesFrom(series: Series, cursor: int, reply: Reply, lo: nat) {
    var members := series.members;
    && lo <= |members|
    && (forall i :: 0 <= i < lo ==> members[i].key <= cursor)
    && (forall i :: lo <= i < |members| ==> cursor < members[i].key)
    && reply == Reply(1, true, false, |members|, series.named, series.details, members[lo..Next(lo, |members|)])
  }

  /** A page read from what the server answers to `cursor`. */
  ghost predicate Serves(series: Series, cursor: int, page: SeriesPage) {
    exists reply, lo: nat :: ServesFrom(series, cursor, reply, lo) && Reads(reply, cursor, page)
  }

  /** There is one such page. */
  lemma ServesOnce(series: Series, cursor: int, a: SeriesPage, b: SeriesPage)
    requires Serves(series, cursor, a) && Serves(series, cursor, b)
    ensures a == b
  {
    var p, lo: nat :| ServesFrom(series, cursor, p, lo) && Reads(p, cursor, a);
    var q, at: nat :| ServesFrom(series, cursor, q, at) && Reads(q, cursor, b);
    assert lo < |series.members| ==> cursor < series.members[lo].key;
    assert at < |series.members| ==> cursor < series.members[at].key;
  }

  /** Two states of a series that differ in nothing but reader counts. */
  ghost predicate Alike(first: Series, second: Series) {
    && first.details == second.details && |first.members| == |second.members|
    && forall i :: 0 <= i < |first.members| ==>
         first.members[i].key == second.members[i].key && first.members[i].membership == second.members[i].membership
  }

  /** What is answered after `n` pages: reader counts change between the passes. */
  ghost function Server(first: Series, second: Series): (nat, int, SeriesPage) -> bool {
    (n, cursor, page) => Serves(if n < Calls(|first.members|) then first else second, cursor, page)
  }

  /** The cursor to ask with after these pages, unless they raised or completed. */
  ghost function Resume(pages: seq<SeriesPage>): Option<int> {
    if pages == [] then Some(0)
    else match After(pages)
      case Err(_) => None
      case Ok((stage, done)) => if done then None else Some(stage.cursor)
  }

  ghost predicate ObservedAt(
      resume: seq<SeriesPage> -> Option<int>, serves: (nat, int, SeriesPage) -> bool, pages: seq<SeriesPage>, i: nat)
    requires i < |pages|
  {
    resume(pages[..i]).Some? && serves(i, resume(pages[..i]).value, pages[i])
  }

  /** Each page is an answer to the cursor that the pages before it lead to. */
  ghost predicate Observed(
      resume: seq<SeriesPage> -> Option<int>, serves: (nat, int, SeriesPage) -> bool, pages: seq<SeriesPage>)
  {
    forall i: nat :: i < |pages| ==> ObservedAt(resume, serves, pages, i)
  }

  /** A run of the reader and the machine against the series. */
  ghost predicate Observes(first: Series, second: Series, pages: seq<SeriesPage>) {
    Observed(Resume, Server(first, second), pages)
  }

  /** The run is complete, with exactly the rows of the series. */
  ghost predicate Completes(series: Series, pages: seq<SeriesPage>) {
    pages != [] && After(pages).Ok? && CompletesWith(After(pages).value, InfoOf(series), ItemsOf(series.members))
  }

  ghost predicate CompletesWith(r: (Stage, bool), info: Info, rows: seq<Item>) {
    r.1 && r.0.items == rows && r.0.info == info
  }

  /** The answer to what the first `k` expected pages lead to is the next one. */
  ghost predicate ForcedAt(
      resume: seq<SeriesPage> -> Option<int>, serves: (nat, int, SeriesPage) -> bool, expected: seq<SeriesPage>, k: nat)
    requires k < |expected|
  {
    && resume(expected[..k]).Some?
    && forall page :: serves(k, resume(expected[..k]).value, page) <==> page == expected[k]
  }

  ghost predicate Forced(
      resume: seq<SeriesPage> -> Option<int>, serves: (nat, int, SeriesPage) -> bool, expected: seq<SeriesPage>)
  {
    forall k: nat :: k < |expected| ==> ForcedAt(resume, serves, expected, k)
  }

  lemma ObservedPrefix(
      resume: seq<SeriesPage> -> Option<int>, serves: (nat, int, SeriesPage) -> bool, pages: seq<SeriesPage>, k: nat)
    requires Observed(resume, serves, pages) && k <= |pages|
    ensures Observed(resume, serves, pages[..k])
  {
    forall i: nat | i < k ensures ObservedAt(resume, serves, pages[..k], i) {
      assert ObservedAt(resume, serves, pages, i);
      assert pages[..k][..i] == pages[..i];
    }
  }

  /** When every answer is forced, every run is a part of the expected one. */
  lemma {:induction false} ForcedRuns(
      resume: seq<SeriesPage> -> Option<int>, serves: (nat, int, SeriesPage) -> bool,
      expected: seq<SeriesPage>, pages: seq<SeriesPage>)
    requires Forced(resume, serves, expected) && resume(expected).None? && Observed(resume, serves, pages)
    ensures |pages| <= |expected| && pages == expected[..|pages|]
    decreases |pages|
  {
    if pages != [] {
      var k := |pages| - 1;
      ObservedPrefix(resume, serves, pages, k);
      ForcedRuns(resume, serves, expected, pages[..k]);
      assert ObservedAt(resume, serves, pages, k);
      assert expected[..|expected|] == expected;
      assert k < |expected| ==> ForcedAt(resume, serves, expected, k);
      assert pages == pages[..k] + [pages[k]];
    }
  }

  lemma ForcedIsObserved(
      resume: seq<SeriesPage> -> Option<int>, serves: (nat, int, SeriesPage) -> bool, expected: seq<SeriesPage>)
    requires Forced(resume, serves, expected)
    ensures Observed(resume, serves, expected)
  {
    forall k: nat | k < |expected| ensures ObservedAt(resume, serves, expected, k) {
      assert ForcedAt(resume, serves, expected, k);
    }
  }

  /** Pages needed to read `n` rows; an empty series still takes one. */
  function Calls(n: nat): nat {
    if n <= 100 then 1 else 1 + Calls(n - 100)
  }

  /** `calls` full pages, of which only the last may be short, cover `n` rows. */
  predicate Cover(n: nat, calls: nat) {
    calls >= 1 && n <= calls * PAGE_SIZE && (calls == 1 || (calls - 1) * PAGE_SIZE < n)
  }

  lemma {:induction false} CallsCover(n: nat)
    ensures Cover(n, Calls(n))
  {
    if n > 100 {
      CallsCover(n - 100);
    }
  }

  /** How many of `n` rows the first `k` pages hold. */
  function Upto(n: nat, k: nat): nat {
    if k * PAGE_SIZE < n then k * PAGE_SIZE else n
  }

  /** Rows that can be collected, `m` of which have been read in this pass. */
  ghost predicate Holds(info: Info, rows: seq<Item>, m: nat) {
    && Ascending(rows) && Above(rows, 0) && |rows| == info.count <= MAX_MEMBERS
    && (m < |rows| || m == |rows| == 0)
  }

  /** Rows as the second pass reads them. */
  ghost predicate Refreshes(info: Info, rows: seq<Item>, newer: seq<Item>) {
    Holds(info, rows, 0) && Holds(info, newer, 0) && SameMembership(newer, rows)
  }

  function PageAt(info: Info, rows: seq<Item>, m: nat): SeriesPage
    requires m <= |rows|
  {
    SeriesPage(info, rows[m..Next(m, |rows|)], LastId(rows[..Next(m, |rows|)], 0))
  }

  lemma PageAtFits(info: Info, rows: seq<Item>, m: nat)
    requires Holds(info, rows, m)
    ensures PageFrom(PageAt(info, rows, m), LastId(rows[..m], 0))
  {
  }

  function Verifying(info: Info, rows: seq<Item>, newer: seq<Item>, m: nat): Stage
    requires m <= |rows| == |newer|
  {
    Stage(info, newer[..m] + rows[m..], LastId(rows[..m], 0), Verify, m)
  }

  function Complete(info: Info, rows: seq<Item>, newer: seq<Item>, m: nat): Stage
    requires m <= |rows|
  {
    Stage(info, newer, LastId(rows[..m], 0), Verify, m)
  }

  function Collecting(info: Info, rows: seq<Item>, m: nat): Stage
    requires m <= |rows|
  {
    Stage(info, rows[..m], LastId(rows[..m], 0), Collect, 0)
  }

  /** The entries at the place of a second-pass page, as they were collected. */
  lemma RefreshedSlices(rows: seq<Item>, newer: seq<Item>, m: nat, hi: nat)
    requires m <= hi <= |rows| == |newer| && SameMembership(newer, rows)
    ensures var items := newer[..m] + rows[m..];
            && Slice(items, m, hi) == rows[m..hi] && SameMembership(newer[m..hi], rows[m..hi])
            && Slice(items, 0, m) + newer[m..hi] + Slice(items, hi, |items|) == newer[..hi] + rows[hi..]
  {
    var items := newer[..m] + rows[m..];
    assert items[m..hi] == rows[m..hi] && items[0..m] == newer[..m] && items[hi..] == rows[hi..];
    assert newer[..m] + newer[m..hi] == newer[..hi];
  }

  lemma RefreshedLast(rows: seq<Item>, newer: seq<Item>, m: nat)
    requires m <= |rows| == |newer| && SameMembership(newer, rows)
    ensures LastId(newer[..m], 0) == LastId(rows[..m], 0)
  {
  }

  lemma VerifyAdvances(info: Info, rows: seq<Item>, newer: seq<Item>, m: nat)
    requires Refreshes(info, rows, newer) && Holds(info, newer, m)
    ensures var hi := Next(m, |rows|);
            Advance(Some(Verifying(info, rows, newer, m)), PageAt(info, newer, m))
            == Ok((if hi == |rows| then Complete(info, rows, newer, m) else Verifying(info, rows, newer, hi),
                   hi == |rows|))
  {
    var hi := Next(m, |rows|);
    RefreshedSlices(rows, newer, m, hi);
    RefreshedLast(rows, newer, hi);
    assert hi == |rows| ==> newer[..hi] + rows[hi..] == newer;
  }

  lemma VerifyMoves(info: Info, rows: seq<Item>, newer: seq<Item>, m: nat)
    requires Refreshes(info, rows, newer) && Holds(info, newer, m)
    ensures var hi := Next(m, |rows|);
            Fed(Some(Verifying(info, rows, newer, m)), PageAt(info, newer, m))
            == Ok((if hi == |rows| then Complete(info, rows, newer, m) else Verifying(info, rows, newer, hi),
                   hi == |rows|))
  {
    PageAtFits(info, newer, m);
    RefreshedLast(rows, newer, m);
    VerifyAdvances(info, rows, newer, m);
  }

  /** A first-pass page, which is not empty unless the series is. */
  lemma CollectPage(stage: Stage, page: SeriesPage)
    requires stage.phase == Collect && page.info == stage.info
    requires |stage.items| + |page.items| <= stage.info.count
    requires page.items != [] || |stage.items| == stage.info.count
    ensures var items := stage.items + page.items;
            Advance(Some(stage), page)
            == Ok((if |items| == stage.info.count then Stage(stage.info, items, 0, Verify, stage.verified)
                   else Stage(stage.info, items, page.cursor, Collect, stage.verified), false))
  {
  }

  lemma CollectAdvances(info: Info, rows: seq<Item>, newer: seq<Item>, m: nat)
    requires Refreshes(info, rows, newer) && Holds(info, rows, m)
    ensures var hi := Next(m, |rows|);
            Advance(if m == 0 then None else Some(Collecting(info, rows, m)), PageAt(info, rows, m))
            == Ok((if hi == |rows| then Verifying(info, rows, newer, 0) else Collecting(info, rows, hi), false))
  {
    JoinPrefix(rows, newer, m, Next(m, |rows|));
    assert Collecting(info, rows, 0) == Stage(info, [], 0, Collect, 0);
    CollectPage(Collecting(info, rows, m), PageAt(info, rows, m));
  }

  lemma JoinPrefix(rows: seq<Item>, newer: seq<Item>, m: nat, hi: nat)
    requires m <= hi <= |rows|
    ensures rows[..m] + rows[m..hi] == rows[..hi]
    ensures hi == |rows| ==> rows[..hi] == rows
    ensures rows[..0] == [] && newer[..0] + rows[0..] == rows
  {
  }

  lemma CollectMoves(info: Info, rows: seq<Item>, newer: seq<Item>, m: nat)
    requires Refreshes(info, rows, newer) && Holds(info, rows, m)
    ensures var hi := Next(m, |rows|);
            Fed(if m == 0 then None else Some(Collecting(info, rows, m)), PageAt(info, rows, m))
            == Ok((if hi == |rows| then Verifying(info, rows, newer, 0) else Collecting(info, rows, hi), false))
  {
    PageAtFits(info, rows, m);
    CollectAdvances(info, rows, newer, m);
  }

  /** The offset of page `i` of two passes of `calls` pages. */
  function Place(n: nat, calls: nat, i: nat): nat {
    Upto(n, if i < calls then i else i - calls)
  }

  function ExpectedAt(info: Info, rows: seq<Item>, newer: seq<Item>, calls: nat, i: nat): SeriesPage
    requires |rows| == |newer|
  {
    PageAt(info, if i < calls then rows else newer, Place(|rows|, calls, i))
  }

  function Expected(info: Info, rows: seq<Item>, newer: seq<Item>, calls: nat, n: nat): (pages: seq<SeriesPage>)
    requires |rows| == |newer|
    ensures |pages| == n
  {
    seq(n, i requires 0 <= i < n => ExpectedAt(info, rows, newer, calls, i))
  }

  lemma ExpectedPrefix(info: Info, rows: seq<Item>, newer: seq<Item>, calls: nat, n: nat, k: nat)
    requires |rows| == |newer| && k <= n
    ensures Expected(info, rows, newer, calls, n)[..k] == Expected(info, rows, newer, calls, k)
    ensures k < n ==> Expected(info, rows, newer, calls, n)[k] == ExpectedAt(info, rows, newer, calls, k)
  {
  }

  /** The stage after `n` pages of the two passes; completing leaves the last place. */
  function StageAfter(info: Info, rows: seq<Item>, newer: seq<Item>, calls: nat, n: nat): Stage
    requires |rows| == |newer| && calls > 0
  {
    if n < calls then Collecting(info, rows, Upto(|rows|, n))
    else if n < 2 * calls then Verifying(info, rows, newer, Upto(|rows|, n - calls))
    else Complete(info, rows, newer, Upto(|rows|, calls - 1))
  }

  /** Page `k` of a pass. */
  lemma PlaceHolds(info: Info, rows: seq<Item>, calls: nat, k: nat)
    requires Holds(info, rows, 0) && Cover(|rows|, calls) && k < calls
    ensures Holds(info, rows, Upto(|rows|, k)) && Next(Upto(|rows|, k), |rows|) == Upto(|rows|, k + 1)
    ensures k + 1 == calls <==> Upto(|rows|, k + 1) == |rows|
    ensures Upto(|rows|, k) == 0 <==> k == 0
  {
  }

  /** The `n`th expected page takes one stage to the next. */
  ghost predicate StepsTo(call: Caller, info: Info, rows: seq<Item>, newer: seq<Item>, calls: nat, n: nat)
    requires |rows| == |newer| && calls > 0
  {
    call(if n == 0 then None else Some(StageAfter(info, rows, newer, calls, n)),
         ExpectedAt(info, rows, newer, calls, n))
    == Ok((StageAfter(info, rows, newer, calls, n + 1), n + 1 == 2 * calls))
  }

  lemma CollectStepsTo(info: Info, rows: seq<Item>, newer: seq<Item>, calls: nat, n: nat)
    requires Refreshes(info, rows, newer) && Cover(|rows|, calls) && n < calls
    ensures StepsTo(Fed, info, rows, newer, calls, n)
  {
    PlaceHolds(info, rows, calls, n);
    CollectMoves(info, rows, newer, Upto(|rows|, n));
  }

  /** The stages before and after page `k` of the second pass. */
  lemma VerifyStages(info: Info, rows: seq<Item>, newer: seq<Item>, calls: nat, k: nat)
    requires |rows| == |newer| && k < calls
    ensures StageAfter(info, rows, newer, calls, calls + k) == Verifying(info, rows, newer, Upto(|rows|, k))
    ensures StageAfter(info, rows, newer, calls, calls + k + 1)
         == if k + 1 == calls then Complete(info, rows, newer, Upto(|rows|, k))
            else Verifying(info, rows, newer, Upto(|rows|, k + 1))
    ensures ExpectedAt(info, rows, newer, calls, calls + k) == PageAt(info, newer, Upto(|rows|, k))
  {
  }

  lemma VerifyCall(call: Caller, info: Info, rows: seq<Item>, newer: seq<Item>, calls: nat, k: nat)
    requires |rows| == |newer| && k < calls
    requires var m := Upto(|rows|, k);
             call(Some(Verifying(info, rows, newer, m)), PageAt(info, newer, m))
             == Ok((if k + 1 == calls then Complete(info, rows, newer, m)
                    else Verifying(info, rows, newer, Upto(|rows|, k + 1)), k + 1 == calls))
    ensures StepsTo(call, info, rows, newer, calls, calls + k)
  {
    VerifyStages(info, rows, newer, calls, k);
  }

  lemma VerifyStepsTo(info: Info, rows: seq<Item>, newer: seq<Item>, calls: nat, n: nat)
    requires Refreshes(info, rows, newer) && Cover(|rows|, calls) && calls <= n < 2 * calls
    ensures StepsTo(Fed, info, rows, newer, calls, n)
  {
    var k := n - calls;
    PlaceHolds(info, newer, calls, k);
    VerifyMoves(info, rows, newer, Upto(|rows|, k));
    VerifyCall(Fed, info, rows, newer, calls, k);
  }

  ghost predicate AllStepsTo(call: Caller, info: Info, rows: seq<Item>, newer: seq<Item>, calls: nat)
    requires |rows| == |newer|
  {
    calls > 0 && forall i: nat :: i < 2 * calls ==> StepsTo(call, info, rows, newer, calls, i)
  }

  lemma ReplayOneMore(call: Caller, init: seq<SeriesPage>, page: SeriesPage)
    ensures init == [] ==> Replay(call, init + [page]) == call(None, page)
    ensures init != [] && Replay(call, init).Ok? && !Replay(call, init).value.1 ==>
              Replay(call, init + [page]) == call(Some(Replay(call, init).value.0), page)
  {
    assert (init + [page])[..|init|] == init;
  }

  lemma ExpectedLast(info: Info, rows: seq<Item>, newer: seq<Item>, calls: nat, n: nat)
    requires |rows| == |newer|
    ensures Expected(info, rows, newer, calls, n + 1)
         == Expected(info, rows, newer, calls, n) + [ExpectedAt(info, rows, newer, calls, n)]
  {
  }

  /** Stages that follow from each other are those of the run. */
  lemma {:induction false} ReplayExpected(
      call: Caller, info: Info, rows: seq<Item>, newer: seq<Item>, calls: nat, n: nat)
    requires |rows| == |newer| && AllStepsTo(call, info, rows, newer, calls) && 1 <= n <= 2 * calls
    ensures Replay(call, Expected(info, rows, newer, calls, n))
         == Ok((StageAfter(info, rows, newer, calls, n), n == 2 * calls))
  {
    assert StepsTo(call, info, rows, newer, calls, n - 1);
    ExpectedLast(info, rows, newer, calls, n - 1);
    ReplayOneMore(
      call, Expected(info, rows, newer, calls, n - 1), ExpectedAt(info, rows, newer, calls, n - 1));
    if n > 1 {
      ReplayExpected(call, info, rows, newer, calls, n - 1);
    }
  }

  lemma ExpectedRun(info: Info, rows: seq<Item>, newer: seq<Item>, calls: nat, n: nat)
    requires Refreshes(info, rows, newer) && Cover(|rows|, calls) && 1 <= n <= 2 * calls
    ensures After(Expected(info, rows, newer, calls, n))
         == Ok((StageAfter(info, rows, newer, calls, n), n == 2 * calls))
  {
    forall i: nat | i < 2 * calls ensures StepsTo(Fed, info, rows, newer, calls, i) {
      if i < calls {
        CollectStepsTo(info, rows, newer, calls, i);
      } else {
        VerifyStepsTo(info, rows, newer, calls, i);
      }
    }
    ReplayExpected(Fed, info, rows, newer, calls, n);
  }

  // ---------------------------------------------------------------- when it completes

  lemma ItemsSlice(members: seq<Member>, m: nat, hi: nat)
    requires m <= hi <= |members|
    ensures ItemsOf(members[m..hi]) == ItemsOf(members)[m..hi]
  {
  }

  lemma UsableSlice(series: Series, m: nat)
    requires Keyed(series.members) && Presentable(series) && (m < |series.members| || m == |series.members| == 0)
    ensures var hi := Next(m, |series.members|);
            Usable(Reply(1, true, false, |series.members|, series.named, series.details, series.members[m..hi]),
                   LastId(ItemsOf(series.members)[..m], 0))
  {
  }

  lemma ServesSlice(series: Series, m: nat)
    requires Keyed(series.members) && Presentable(series) && (m < |series.members| || m == |series.members| == 0)
    ensures var rows := ItemsOf(series.members);
            Serves(series, LastId(rows[..m], 0), PageAt(InfoOf(series), rows, m))
  {
    var members, rows := series.members, ItemsOf(series.members);
    var hi, cursor := Next(m, |members|), LastId(rows[..m], 0);
    var reply := Reply(1, true, false, |members|, series.named, series.details, members[m..hi]);
    UsableSlice(series, m);
    ItemsSlice(members, m, hi);
    assert LastId(rows[m..hi], cursor) == LastId(rows[..hi], 0);
    assert Reads(reply, cursor, PageAt(InfoOf(series), rows, m));
    assert ServesFrom(series, cursor, reply, m);
  }

  lemma PresentableHolds(series: Series)
    requires Keyed(series.members) && Presentable(series)
    ensures Holds(InfoOf(series), ItemsOf(series.members), 0)
  {
  }

  lemma AlikeRefreshes(first: Series, second: Series)
    requires Keyed(first.members) && Presentable(first) && Presentable(second) && Alike(first, second)
    ensures Keyed(second.members) && InfoOf(first) == InfoOf(second)
    ensures Refreshes(InfoOf(first), ItemsOf(first.members), ItemsOf(second.members))
  {
    PresentableHolds(first);
    PresentableHolds(second);
  }

  /** What `k` expected pages lead to is the last key that they hold. */
  lemma ResumeExpected(info: Info, rows: seq<Item>, newer: seq<Item>, calls: nat, k: nat)
    requires Refreshes(info, rows, newer) && Cover(|rows|, calls) && k < 2 * calls
    ensures Resume(Expected(info, rows, newer, calls, k)) == Some(LastId(rows[..Place(|rows|, calls, k)], 0))
    ensures Holds(info, rows, Place(|rows|, calls, k))
  {
    PlaceHolds(info, rows, calls, if k < calls then k else k - calls);
    if k > 0 {
      ExpectedRun(info, rows, newer, calls, k);
    }
  }

  lemma ExpectedIsForcedAt(first: Series, second: Series, calls: nat, k: nat)
    requires Keyed(first.members) && Presentable(first) && Presentable(second) && Alike(first, second)
    requires calls == Calls(|first.members|) && k < 2 * calls
    ensures ForcedAt(Resume, Server(first, second),
                     Expected(InfoOf(first), ItemsOf(first.members), ItemsOf(second.members), calls, 2 * calls), k)
  {
    var info, rows, newer := InfoOf(first), ItemsOf(first.members), ItemsOf(second.members);
    var m := Place(|rows|, calls, k);
    CallsCover(|rows|);
    AlikeRefreshes(first, second);
    ExpectedPrefix(info, rows, newer, calls, 2 * calls, k);
    ResumeExpected(info, rows, newer, calls, k);
    RefreshedLast(rows, newer, m);
    var series := if k < calls then first else second;
    ServesSlice(series, m);
    OnlyServed(series, LastId(rows[..m], 0), ExpectedAt(info, rows, newer, calls, k));
  }

  lemma OnlyServed(series: Series, cursor: int, page: SeriesPage)
    requires Serves(series, cursor, page)
    ensures forall other :: Serves(series, cursor, other) <==> other == page
  {
    forall other | Serves(series, cursor, other) ensures other == page {
      ServesOnce(series, cursor, page, other);
    }
  }

  lemma ExpectedIsForced(first: Series, second: Series, calls: nat)
    requires Keyed(first.members) && Presentable(first) && Presentable(second) && Alike(first, second)
    requires calls == Calls(|first.members|)
    ensures var expected := Expected(InfoOf(first), ItemsOf(first.members), ItemsOf(second.members), calls, 2 * calls);
            Forced(Resume, Server(first, second), expected) && Resume(expected).None? && Completes(second, expected)
  {
    var info, rows, newer := InfoOf(first), ItemsOf(first.members), ItemsOf(second.members);
    AlikeRefreshes(first, second);
    CallsCover(|rows|);
    forall k: nat | k < 2 * calls
      ensures ForcedAt(Resume, Server(first, second), Expected(info, rows, newer, calls, 2 * calls), k)
    {
      ExpectedIsForcedAt(first, second, calls, k);
    }
    ExpectedRun(info, rows, newer, calls, 2 * calls);
  }

  /** A presentable series that changes in nothing but its reader counts, and that only
      between the passes: no run ever raises; it goes on for exactly two passes of full
      pages and then completes with exactly the rows of the second pass. */
  lemma RefreshedRuns(first: Series, second: Series, pages: seq<SeriesPage>)
    requires Keyed(first.members) && Presentable(first) && Presentable(second) && Alike(first, second)
    requires Observes(first, second, pages)
    ensures |pages| <= 2 * Calls(|first.members|)
    ensures |pages| < 2 * Calls(|first.members|) ==> Resume(pages).Some?
    ensures |pages| == 2 * Calls(|first.members|) ==> Completes(second, pages)
  {
    var calls := Calls(|first.members|);
    var expected := Expected(InfoOf(first), ItemsOf(first.members), ItemsOf(second.members), calls, 2 * calls);
    ExpectedIsForced(first, second, calls);
    ForcedRuns(Resume, Server(first, second), expected, pages);
    assert |pages| < 2 * calls ==> ForcedAt(Resume, Server(first, second), expected, |pages|);
    assert expected[..2 * calls] == expected;
  }

  /** There is such a run. */
  lemma RefreshedCompletes(first: Series, second: Series)
    requires Keyed(first.members) && Presentable(first) && Presentable(second) && Alike(first, second)
    ensures exists pages ::
              |pages| == 2 * Calls(|first.members|) && Observes(first, second, pages) && Completes(second, pages)
  {
    var calls := Calls(|first.members|);
    var expected := Expected(InfoOf(first), ItemsOf(first.members), ItemsOf(second.members), calls, 2 * calls);
    ExpectedIsForced(first, second, calls);
    ForcedIsObserved(Resume, Server(first, second), expected);
  }

  /** Against a presentable series that does not change, no run ever raises: it goes on
      for exactly two passes of full pages and then completes with exactly the rows. */
  lemma PresentableRuns(series: Series, pages: seq<SeriesPage>)
    requires Keyed(series.members) && Presentable(series) && Observes(series, series, pages)
    ensures |pages| <= 2 * Calls(|series.members|)
    ensures |pages| < 2 * Calls(|series.members|) ==> Resume(pages).Some?
    ensures |pages| == 2 * Calls(|series.members|) ==> Completes(series, pages)
  {
    RefreshedRuns(series, series, pages);
  }

  /** A row that was read is a usable row of the series. */
  lemma ReadRow(series: Series, cursor: int, page: SeriesPage, j: nat) returns (at: nat)
    requires Serves(series, cursor, page) && j < |page.items|
    ensures at < |series.members| && page.items[j].entryId == series.members[at].key
    ensures series.members[at].readable && cursor < series.members[at].key <= MAX_KEY
  {
    var reply, lo: nat :| ServesFrom(series, cursor, reply, lo) && Reads(reply, cursor, page);
    at := lo + j;
    assert reply.members[j] == series.members[at];
  }

  lemma SameKey(members: seq<Member>, i: nat, j: nat)
    requires Keyed(members) && i < |members| && j < |members| && members[i].key == members[j].key
    ensures i == j
  {
  }

  lemma {:induction false} ItemsOnPages(pages: seq<SeriesPage>, i: nat) returns (p: nat, j: nat)
    requires i < |Items(pages)|
    ensures p < |pages| && j < |pages[p].items| && pages[p].items[j] == Items(pages)[i]
  {
    var init := pages[..|pages| - 1];
    if i < |Items(init)| {
      p, j := ItemsOnPages(init, i);
    } else {
      p, j := |init|, i - |Items(init)|;
    }
  }

  lemma ResumesAboveZero(pages: seq<SeriesPage>)
    ensures Resume(pages).Some? ==> Resume(pages).value >= 0
  {
    if pages != [] && After(pages).Ok? {
      var stage, done, k := RunExplained(pages);
    }
  }

  /** A series that completes with exactly its rows was presentable. */
  lemma CompletedIsPresentable(series: Series, pages: seq<SeriesPage>)
    requires Keyed(series.members) && Observes(series, series, pages) && Completes(series, pages)
    ensures Presentable(series)
  {
    assert ObservedAt(Resume, Server(series, series), pages, 0);
    FirstPageNamed(series, pages[0]);
    var k := CompletionIsVerified(pages, After(pages).value.0);
    forall i | 0 <= i < |series.members| ensures series.members[i].readable && 0 < series.members[i].key <= MAX_KEY {
      var p, j := ItemsOnPages(pages[k..], i);
      assert ObservedAt(Resume, Server(series, series), pages, k + p);
      ResumesAboveZero(pages[..k + p]);
      var at := ReadRow(series, Resume(pages[..k + p]).value, pages[k + p], j);
      SameKey(series.members, i, at);
    }
  }

  lemma FirstPageNamed(series: Series, page: SeriesPage)
    requires Serves(series, 0, page)
    ensures series.named && |series.members| <= MAX_MEMBERS
  {
  }

  /** Exactly which unchanging series can be collected: named ones of at most a thousand
      usable rows with keys in range. */
  lemma UnchangingSeriesCompletes(series: Series)
    requires Keyed(series.members)
    ensures Presentable(series) <==> exists pages :: Observes(series, series, pages) && Completes(series, pages)
  {
    if Presentable(series) {
      RefreshedCompletes(series, series);
    }
    forall pages | Observes(series, series, pages) && Completes(series, pages) ensures Presentable(series) {
      CompletedIsPresentable(series, pages);
    }
  }
}
