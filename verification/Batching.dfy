/** Reading values in batches and splitting only batches whose reply is too large
    (services/app/adapters/batching.py). */
module Batching {
  import opened Outcomes

  /** What the inventory reads in batches: record identifiers and decoded records. */
  datatype Value = Value(id: string)

  datatype Item = Item(id: string, content: string)

  datatype Error = Unreachable | Uncertain | Unparsable

  datatype Reply = Answered(items: seq<Item>) | TooLarge | Failed(error: Error)

  /** What a run did: every request with its reply, and every isolated value. */
  datatype Event = Read(number: nat, batch: seq<Value>, reply: Reply) | Isolated(value: Value, item: Item)

  datatype Raised = Oversized | Other(error: Error)

  /** `raised` is set when the run ended by an exception after yielding `yielded`. */
  datatype Trace = Trace(events: seq<Event>, yielded: seq<Item>, raised: Option<Raised>)

  // ---------------------------------------------------------------- accounting

  /** What a list of events adds up to: requests sent, values served (by an answer or
      in isolation) and items obtained. */
  datatype Tally = Tally(requests: nat, served: seq<Value>, items: seq<Item>)

  function Sum(a: Tally, b: Tally): Tally {
    Tally(a.requests + b.requests, a.served + b.served, a.items + b.items)
  }

  function Count(e: Event): Tally {
    match e
    case Isolated(value, item) => Tally(0, [value], [item])
    case Read(_, batch, reply) => if reply.Answered? then Tally(1, batch, reply.items) else Tally(1, [], [])
  }

  function Total(events: seq<Event>): Tally {
    if events == [] then Tally(0, [], []) else Sum(Total(events[..|events| - 1]), Count(events[|events| - 1]))
  }

  /** Replies are the reader's own (its first argument is the request's number), and
      a value is isolated only right after its own request was too large, by the
      caller's fallback. */
  ghost predicate Faithful(events: seq<Event>, read: (nat, seq<Value>) -> Reply, oversized: Option<Value -> Item>) {
    forall i {:trigger FaithfulAt(events, i, read, oversized)} ::
      0 <= i < |events| ==> FaithfulAt(events, i, read, oversized)
  }

  ghost predicate FaithfulAt(
      events: seq<Event>, i: nat, read: (nat, seq<Value>) -> Reply, oversized: Option<Value -> Item>)
    requires i < |events|
  {
    match events[i]
    case Read(number, batch, reply) => reply == read(number, batch)
    case Isolated(value, item) =>
      && i > 0 && events[i - 1].Read? && events[i - 1].batch == [value] && events[i - 1].reply.TooLarge?
      && oversized.Some? && item == oversized.value(value)
  }

  /** Only too-large replies are retried: an exception comes straight from the last
      request, which failed otherwise or was a single value with no fallback. */
  ghost predicate RaisedByLast(t: Trace, oversized: Option<Value -> Item>) {
    t.raised.Some? ==>
      && t.events != [] && t.events[|t.events| - 1].Read?
      && var last := t.events[|t.events| - 1];
         if t.raised.value.Oversized? then last.reply.TooLarge? && |last.batch| == 1 && oversized.None?
         else last.reply == Failed(t.raised.value.error)
  }

  /** The census of a run over `values`: each is served exactly once and in order
      unless the run raised, and what was yielded is what was answered or isolated. */
  ghost predicate Conserves(t: Trace, values: seq<Value>) {
    var total := Total(t.events);
    && t.yielded == total.items
    && if t.raised.None? then total.served == values else total.served <= values && total.served != values
  }

  lemma SumAssociates(a: Tally, b: Tally, c: Tally)
    ensures Sum(Sum(a, b), c) == Sum(a, Sum(b, c))
  {
    assert a.served + b.served + c.served == a.served + (b.served + c.served);
    assert a.items + b.items + c.items == a.items + (b.items + c.items);
  }

  lemma TotalLast(events: seq<Event>, e: Event)
    ensures Total(events + [e]) == Sum(Total(events), Count(e))
  {
    assert (events + [e])[..|events|] == events;
  }

  lemma SumNothing(a: Tally)
    ensures Sum(a, Tally(0, [], [])) == a
  {
    assert a.served + [] == a.served && a.items + [] == a.items;
  }

  lemma {:induction false} TotalJoins(a: seq<Event>, b: seq<Event>)
    ensures Total(a + b) == Sum(Total(a), Total(b))
    decreases |b|
  {
    if b == [] {
      assert a + b == a;
      SumNothing(Total(a));
    } else {
      var init, e := b[..|b| - 1], b[|b| - 1];
      assert b == init + [e];
      TotalJoins(a, init);
      JoinOneMore(a, init, e);
    }
  }

  lemma JoinOneMore(a: seq<Event>, b: seq<Event>, e: Event)
    requires Total(a + b) == Sum(Total(a), Total(b))
    ensures Total(a + (b + [e])) == Sum(Total(a), Total(b + [e]))
  {
    assert a + (b + [e]) == (a + b) + [e];
    TotalLast(a + b, e);
    TotalLast(b, e);
    SumAssociates(Total(a), Total(b), Count(e));
  }

  function Then(a: Trace, b: Trace): Trace {
    Trace(a.events + b.events, a.yielded + b.yielded, b.raised)
  }

  lemma ThenConserves(a: Trace, b: Trace, left: seq<Value>, right: seq<Value>)
    requires Conserves(a, left) && a.raised.None? && Conserves(b, right)
    ensures Conserves(Then(a, b), left + right)
    ensures Total(Then(a, b).events).requests == Total(a.events).requests + Total(b.events).requests
  {
    TotalJoins(a.events, b.events);
  }

  lemma ThenFaithful(a: Trace, b: Trace, read: (nat, seq<Value>) -> Reply, oversized: Option<Value -> Item>)
    requires Faithful(a.events, read, oversized) && Faithful(b.events, read, oversized) && RaisedByLast(b, oversized)
    ensures Faithful(Then(a, b).events, read, oversized) && RaisedByLast(Then(a, b), oversized)
  {
    var events := a.events + b.events;
    forall i | 0 <= i < |events| ensures FaithfulAt(events, i, read, oversized) {
      if i < |a.events| {
        assert FaithfulAt(a.events, i, read, oversized);
      } else {
        assert FaithfulAt(b.events, i - |a.events|, read, oversized);
      }
    }
  }

  /** A batch that is not split: answered, failed, or a single value. */
  lemma LeafConserves(
      t: Trace, batch: seq<Value>, read: (nat, seq<Value>) -> Reply, oversized: Option<Value -> Item>, n: nat)
    requires batch != [] && (read(n, batch).TooLarge? ==> |batch| == 1)
    requires var sent := Read(n, batch, read(n, batch));
             t == match read(n, batch)
                  case Answered(items) => Trace([sent], items, None)
                  case Failed(error) => Trace([sent], [], Some(Other(error)))
                  case TooLarge =>
                    if oversized.None? then Trace([sent], [], Some(Oversized))
                    else Trace([sent, Isolated(batch[0], oversized.value(batch[0]))], [oversized.value(batch[0])], None)
    ensures Conserves(t, batch) && Faithful(t.events, read, oversized) && Total(t.events).requests == 1
  {
    var sent := Read(n, batch, read(n, batch));
    assert [sent][..0] == [] && Total([sent]) == Count(sent);
    assert t.events[..0] == [];
    if read(n, batch).TooLarge? && oversized.Some? {
      TotalLast([sent], t.events[1]);
      assert [sent] + [t.events[1]] == t.events;
      assert batch == [batch[0]];
    }
  }

  // ---------------------------------------------------------------- the requests themselves

  /** A batch that was too large is followed by its first half, rounded down. */
  ghost predicate HalvesAt(events: seq<Event>, i: nat)
    requires i < |events|
  {
    events[i].Read? && events[i].reply.TooLarge? && |events[i].batch| > 1 ==>
      && i + 1 < |events| && events[i + 1].Read?
      && events[i + 1].batch == events[i].batch[..|events[i].batch| / 2]
  }

  /** The requests of a run are numbered from `n` on, none is empty or larger than `size`,
      and the batches retried are halved. */
  ghost predicate Shaped(events: seq<Event>, n: nat, size: nat) {
    forall i: nat :: i < |events| ==> ShapedAt(events, i, n, size)
  }

  ghost predicate ShapedAt(events: seq<Event>, i: nat, n: nat, size: nat)
    requires i < |events|
  {
    && (events[i].Read? ==>
          0 < |events[i].batch| <= size && events[i].number == n + Total(events[..i]).requests)
    && HalvesAt(events, i)
  }

  lemma ShapedGrows(events: seq<Event>, n: nat, size: nat, larger: nat)
    requires Shaped(events, n, size) && size <= larger
    ensures Shaped(events, n, larger)
  {
    forall i: nat | i < |events| ensures ShapedAt(events, i, n, larger) {
      assert ShapedAt(events, i, n, size);
    }
  }

  lemma ShapedLater(a: seq<Event>, b: seq<Event>, n: nat, m: nat, size: nat, i: nat)
    requires Shaped(b, m, size) && m == n + Total(a).requests && i < |b|
    ensures ShapedAt(a + b, |a| + i, n, size)
  {
    assert ShapedAt(b, i, m, size);
    assert (a + b)[..|a| + i] == a + b[..i];
    TotalJoins(a, b[..i]);
  }

  lemma ShapedJoins(a: seq<Event>, b: seq<Event>, n: nat, m: nat, size: nat)
    requires Shaped(a, n, size) && Shaped(b, m, size) && m == n + Total(a).requests
    ensures Shaped(a + b, n, size)
  {
    forall i: nat | i < |a + b| ensures ShapedAt(a + b, i, n, size) {
      if i < |a| {
        assert ShapedAt(a, i, n, size) && (a + b)[..i] == a[..i];
      } else {
        ShapedLater(a, b, n, m, size, i - |a|);
      }
    }
  }

  /** The first request of a run is for the first `cut` of `values`. */
  ghost predicate Begins(events: seq<Event>, values: seq<Value>, cut: nat) {
    events != [] && events[0].Read? && cut <= |values| && events[0].batch == values[..cut]
  }

  /** The first half after a batch that was too large. */
  lemma ShapedRetry(sent: Event, half: seq<Event>, n: nat, middle: nat)
    requires sent.Read? && sent.number == n && |sent.batch| > 1 && middle == |sent.batch| / 2
    requires Shaped(half, n + 1, middle) && Begins(half, sent.batch[..middle], middle)
    ensures Shaped([sent] + half, n, |sent.batch|)
  {
    ShapedGrows(half, n + 1, middle, |sent.batch|);
    assert [sent][..0] == [] && Total([sent]).requests == 1 && ([sent] + half)[..0] == [];
    forall i: nat | i < |[sent] + half| ensures ShapedAt([sent] + half, i, n, |sent.batch|) {
      if i > 0 {
        ShapedLater([sent], half, n, n + 1, |sent.batch|, i - 1);
      }
    }
  }

  /** A run in two parts, the second numbered on from the first. */
  lemma ShapedRest(first: Trace, rest: Trace, n: nat, m: nat, cut: nat, left: nat, size: nat)
    requires Shaped(first.events, n, cut) && cut <= size
    requires Shaped(rest.events, m, left) && left <= size && m == n + Total(first.events).requests
    ensures Shaped(Then(first, rest).events, n, size)
  {
    ShapedGrows(first.events, n, cut, size);
    ShapedGrows(rest.events, m, left, size);
    ShapedJoins(first.events, rest.events, n, m, size);
  }

  lemma ShapedLeaf(events: seq<Event>, n: nat, batch: seq<Value>, reply: Reply)
    requires batch != [] && (reply.TooLarge? ==> |batch| == 1)
    requires
      || events == [Read(n, batch, reply)]
      || (|events| == 2 && events[0] == Read(n, batch, reply) && events[1].Isolated?)
    ensures Shaped(events, n, |batch|) && Begins(events, batch, |batch|)
  {
    assert events[..0] == [];
    forall i: nat | i < |events| ensures ShapedAt(events, i, n, |batch|) {
    }
  }

  // ---------------------------------------------------------------- splitting

  /** Everything promised of a run over `values`. */
  ghost predicate Sound(
      t: Trace, values: seq<Value>, read: (nat, seq<Value>) -> Reply, oversized: Option<Value -> Item>)
  {
    Conserves(t, values) && Faithful(t.events, read, oversized) && RaisedByLast(t, oversized)
  }

  lemma ThenSound(
      a: Trace, b: Trace, left: seq<Value>, right: seq<Value>,
      read: (nat, seq<Value>) -> Reply, oversized: Option<Value -> Item>)
    requires Sound(a, left, read, oversized) && a.raised.None? && Sound(b, right, read, oversized)
    ensures Sound(Then(a, b), left + right, read, oversized)
    ensures Total(Then(a, b).events).requests == Total(a.events).requests + Total(b.events).requests
  {
    ThenConserves(a, b, left, right);
    ThenFaithful(a, b, read, oversized);
  }

  /** A run that raised before all of `values` were served did so for a longer list too. */
  lemma RaisedEarly(
      t: Trace, values: seq<Value>, all: seq<Value>,
      read: (nat, seq<Value>) -> Reply, oversized: Option<Value -> Item>)
    requires Sound(t, values, read, oversized) && t.raised.Some? && values <= all
    ensures Sound(t, all, read, oversized)
  {
  }

  lemma FirstRequest(
      batch: seq<Value>, read: (nat, seq<Value>) -> Reply, oversized: Option<Value -> Item>, n: nat)
    requires read(n, batch).TooLarge? && |batch| > 1
    ensures var start := Trace([Read(n, batch, read(n, batch))], [], None);
            Sound(start, [], read, oversized) && Total(start.events).requests == 1
  {
    var sent := Read(n, batch, read(n, batch));
    assert [sent][..0] == [] && Total([sent]) == Count(sent);
  }

  /** The first half after the request that was too large. */
  lemma FirstHalf(
      batch: seq<Value>, middle: nat, half: Trace,
      read: (nat, seq<Value>) -> Reply, oversized: Option<Value -> Item>, n: nat)
    requires read(n, batch).TooLarge? && 0 < middle < |batch| && Sound(half, batch[..middle], read, oversized)
    ensures var left := Then(Trace([Read(n, batch, read(n, batch))], [], None), half);
            && left.raised == half.raised && Total(left.events).requests == Total(half.events).requests + 1
            && Sound(left, batch[..middle], read, oversized)
            && (left.raised.Some? ==> Sound(left, batch, read, oversized))
  {
    var start := Trace([Read(n, batch, read(n, batch))], [], None);
    FirstRequest(batch, read, oversized, n);
    ThenSound(start, half, [], batch[..middle], read, oversized);
    assert [] + batch[..middle] == batch[..middle];
    if half.raised.Some? {
      RaisedEarly(Then(start, half), batch[..middle], batch, read, oversized);
    }
  }

  lemma SecondHalf(
      batch: seq<Value>, middle: nat, left: Trace, rest: Trace,
      read: (nat, seq<Value>) -> Reply, oversized: Option<Value -> Item>)
    requires middle <= |batch| && left.raised.None?
    requires Sound(left, batch[..middle], read, oversized) && Sound(rest, batch[middle..], read, oversized)
    ensures Sound(Then(left, rest), batch, read, oversized)
    ensures Total(Then(left, rest).events).requests == Total(left.events).requests + Total(rest.events).requests
  {
    ThenSound(left, rest, batch[..middle], batch[middle..], read, oversized);
    assert batch[..middle] + batch[middle..] == batch;
  }

  /** A run that is not split, as `LeafConserves` describes it. */
  function Leaf(
      batch: seq<Value>, read: (nat, seq<Value>) -> Reply, oversized: Option<Value -> Item>, n: nat): (t: Trace)
    requires batch != [] && (read(n, batch).TooLarge? ==> |batch| == 1)
    ensures Sound(t, batch, read, oversized) && Total(t.events).requests == 1
    ensures Shaped(t.events, n, |batch|) && Begins(t.events, batch, |batch|)
  {
    var sent := Read(n, batch, read(n, batch));
    var t :=
      match read(n, batch)
      case Answered(items) => Trace([sent], items, None)
      case Failed(error) => Trace([sent], [], Some(Other(error)))
      case TooLarge =>
        if oversized.None? then Trace([sent], [], Some(Oversized))
        else Trace([sent, Isolated(batch[0], oversized.value(batch[0]))], [oversized.value(batch[0])], None);
    LeafConserves(t, batch, read, oversized, n);
    ShapedLeaf(t.events, n, batch, read(n, batch));
    t
  }

  /** One batch and, when its reply is too large, its halves. */
  function Part(
      batch: seq<Value>, read: (nat, seq<Value>) -> Reply, oversized: Option<Value -> Item>, n: nat): (t: Trace)
    requires batch != []
    ensures Sound(t, batch, read, oversized)
    ensures Total(t.events).requests <= 2 * |batch| - 1
    ensures Shaped(t.events, n, |batch|) && Begins(t.events, batch, |batch|)
    decreases |batch|
  {
    var reply := read(n, batch);
    if reply.TooLarge? && |batch| > 1 then
      var middle := |batch| / 2;
      var half := Part(batch[..middle], read, oversized, n + 1);
      FirstHalf(batch, middle, half, read, oversized, n);
      ShapedRetry(Read(n, batch, reply), half.events, n, middle);
      var left := Then(Trace([Read(n, batch, reply)], [], None), half);
      if left.raised.Some? then left
      else
        var m := n + Total(left.events).requests;
        var rest := Part(batch[middle..], read, oversized, m);
        SecondHalf(batch, middle, left, rest, read, oversized);
        ShapedRest(left, rest, n, m, |batch|, |batch[middle..]|, |batch|);
        Then(left, rest)
    else Leaf(batch, read, oversized, n)
  }

  /** Whatever the reader does, splitting neither loses, repeats nor reorders a value,
      and costs at most two requests a value. */
  function ReadBatches(
      values: seq<Value>, read: (nat, seq<Value>) -> Reply, size: nat, oversized: Option<Value -> Item>, n: nat)
    : (t: Trace)
    requires size > 0
    ensures Conserves(t, values) && Faithful(t.events, read, oversized) && RaisedByLast(t, oversized)
    ensures Total(t.events).requests <= 2 * |values|
    ensures Shaped(t.events, n, size) && (values == [] <==> t.events == [])
    ensures values != [] ==> Begins(t.events, values, if size < |values| then size else |values|)
    decreases |values|
  {
    if values == [] then Trace([], [], None)
    else
      var cut := if size < |values| then size else |values|;
      var first := Part(values[..cut], read, oversized, n);
      if first.raised.Some? then
        RaisedEarly(first, values[..cut], values, read, oversized);
        ShapedGrows(first.events, n, cut, size);
        first
      else
        var m := n + Total(first.events).requests;
        var rest := ReadBatches(values[cut..], read, size, oversized, m);
        SecondHalf(values, cut, first, rest, read, oversized);
        ShapedRest(first, rest, n, m, cut, size, size);
        Then(first, rest)
  }
}
