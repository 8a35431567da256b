/** The sign-in budget (services/app/api/auth.py): fifteen attempts on a key in each
    ten-minute window, counted by one atomic upsert. Times are microseconds. */
module AuthBudget {
  import opened Outcomes

  const SECOND := 1_000_000
  const WINDOW := 600 * SECOND
  const LIMIT := 15

  datatype Counter = Counter(count: nat, resetsAt: int)

  /** The row after an attempt at `now`: an expired or missing window starts again. */
  function Bump(row: Option<Counter>, now: int): Counter {
    if row.None? || row.value.resetsAt <= now then Counter(1, now + WINDOW)
    else Counter(row.value.count + 1, row.value.resetsAt)
  }

  predicate Admits(row: Option<Counter>, now: int) {
    Bump(row, now).count <= LIMIT
  }

  /** The least positive number of whole seconds that reaches the reset. */
  function RetryAfter(until: int, now: int): (seconds: int)
    ensures seconds >= 1 && until <= now + seconds * 1_000_000
    ensures forall other :: 1 <= other < seconds ==> now + other * 1_000_000 < until
  {
    var ceiling := (until - now + SECOND - 1) / SECOND;
    if ceiling < 1 then 1 else ceiling
  }

  class RateLimits {
    var rows: map<string, Counter>

    ghost function Row(key: string): Option<Counter>
      reads this
    {
      if key in rows then Some(rows[key]) else None
    }

    /** `now` is read before the upsert and `later` when a refusal is worded. */
    method Enforce(key: string, now: int, later: int) returns (retryAfter: Option<int>)
      modifies this
      ensures Row(key) == Some(Bump(old(Row(key)), now))
      ensures forall other :: other != key ==> Row(other) == old(Row(other))
      ensures retryAfter.None? <==> Admits(old(Row(key)), now)
      ensures retryAfter.Some? ==> retryAfter.value == RetryAfter(rows[key].resetsAt, later)
    {
      var resetsAt := now + WINDOW;
      if key !in rows {
        rows := rows[key := Counter(1, resetsAt)];
      } else {
        var expired := rows[key].resetsAt <= now;
        rows := rows[key := Counter(
          if expired then 1 else rows[key].count + 1, if expired then resetsAt else rows[key].resetsAt)];
      }
      retryAfter := if rows[key].count > LIMIT then Some(RetryAfter(rows[key].resetsAt, later)) else None;
    }
  }

  // ---------------------------------------------------------------- sequences of attempts

  predicate Ordered(times: seq<int>) {
    forall i, j :: 0 <= i < j < |times| ==> times[i] <= times[j]
  }

  function After(row: Option<Counter>, times: seq<int>): Option<Counter>
    decreases |times|
  {
    if times == [] then row else After(Some(Bump(row, times[0])), times[1..])
  }

  /** How many of the attempts are admitted with lo <= time <= hi. */
  function Admitted(row: Option<Counter>, times: seq<int>, lo: int, hi: int): nat
    decreases |times|
  {
    if times == [] then 0
    else
      (if Admits(row, times[0]) && lo <= times[0] <= hi then 1 else 0)
      + Admitted(Some(Bump(row, times[0])), times[1..], lo, hi)
  }

  function Left(row: Counter): nat {
    if row.count < LIMIT then LIMIT - row.count else 0
  }

  lemma {:induction false} NoneTooEarly(row: Option<Counter>, times: seq<int>, lo: int, hi: int)
    requires forall i :: 0 <= i < |times| ==> times[i] > hi
    ensures Admitted(row, times, lo, hi) == 0
    decreases |times|
  {
    if times != [] {
      NoneTooEarly(Some(Bump(row, times[0])), times[1..], lo, hi);
    }
  }

  /** From an open window, what is left of it plus one more window bounds what can be
      admitted up to less than a window after its end. */
  lemma {:induction false} WindowsBound(row: Counter, times: seq<int>, lo: int, hi: int)
    requires Ordered(times) && hi < row.resetsAt + WINDOW
    ensures Admitted(Some(row), times, lo, hi) <= Left(row) + if row.resetsAt <= hi then LIMIT else 0
    decreases |times|
  {
    if times != [] {
      var next := Bump(Some(row), times[0]);
      if times[0] > hi {
        NoneTooEarly(Some(row), times, lo, hi);
      } else {
        WindowsBound(next, times[1..], lo, hi);
      }
    }
  }

  /** At most fifteen attempts are admitted in each window, counted from its first. */
  lemma FifteenPerWindow(row: Option<Counter>, times: seq<int>)
    requires Ordered(times) && times != [] && (row.None? || row.value.resetsAt <= times[0])
    ensures Admitted(row, times, times[0], times[0] + 600_000_000 - 1) <= 15
  {
    WindowsBound(Bump(row, times[0]), times[1..], times[0], times[0] + 600_000_000 - 1);
  }

  /** At most thirty attempts are admitted in any ten-minute interval, ends included,
      whatever went before. */
  lemma {:induction false} ThirtyInAnyInterval(row: Option<Counter>, times: seq<int>, lo: int)
    requires Ordered(times)
    ensures Admitted(row, times, lo, lo + 600_000_000) <= 30
    decreases |times|
  {
    if times != [] {
      var next := Bump(row, times[0]);
      if times[0] < lo {
        ThirtyInAnyInterval(Some(next), times[1..], lo);
      } else if row.Some? && times[0] < row.value.resetsAt {
        WindowsBound(row.value, times, lo, lo + 600_000_000);
      } else {
        WindowsBound(next, times[1..], lo, lo + 600_000_000);
      }
    }
  }

  /** Both bounds are reached: fifteen attempts at the end of one window and fifteen at
      the start of the next are all admitted. */
  function Burst(n: nat, at: int): seq<int> {
    seq(n, _ => at)
  }

  lemma {:induction false} BurstAdmitted(row: Counter, n: nat, at: int, rest: seq<int>, lo: int, hi: int)
    requires at < row.resetsAt && row.count + n <= 15 && lo <= at <= hi
    ensures Admitted(Some(row), Burst(n, at) + rest, lo, hi)
         == n + Admitted(Some(Counter(row.count + n, row.resetsAt)), rest, lo, hi)
    decreases n
  {
    var times := Burst(n, at) + rest;
    if n == 0 {
      assert times == rest;
    } else {
      assert times[1..] == Burst(n - 1, at) + rest;
      BurstAdmitted(Counter(row.count + 1, row.resetsAt), n - 1, at, rest, lo, hi);
    }
  }

  lemma ThirtyIsReached(start: int)
    ensures var end := start + 600_000_000;
            var times := [start] + (Burst(14, end - 1) + ([end] + (Burst(14, end) + [])));
            Ordered(times) && Admitted(None, times, start, start + 600_000_000) == 30
  {
    var late := [start + 600_000_000] + (Burst(14, start + 600_000_000) + []);
    var times := [start] + (Burst(14, start + 600_000_000 - 1) + late);
    assert times[1..] == Burst(14, start + 600_000_000 - 1) + late;
    BurstAdmitted(Counter(1, start + 600_000_000), 14, start + 600_000_000 - 1, late, start, start + 600_000_000);
    assert late[1..] == Burst(14, start + 600_000_000) + [];
    BurstAdmitted(Counter(1, start + 2 * 600_000_000), 14, start + 600_000_000, [], start, start + 600_000_000);
  }

  /** Refused attempts never move the end of their window. */
  lemma {:induction false} RefusalsKeepWindow(row: Counter, times: seq<int>)
    requires forall i :: 0 <= i < |times| ==> times[i] < row.resetsAt
    ensures After(Some(row), times) == Some(Counter(row.count + |times|, row.resetsAt))
    decreases |times|
  {
    if times != [] {
      RefusalsKeepWindow(Bump(Some(row), times[0]), times[1..]);
    }
  }

  /** Waiting as long as a refusal asked, with or without further refused attempts
      meanwhile, makes the next attempt succeed. */
  lemma WaitingWorks(row: Option<Counter>, now: int, later: int, meanwhile: seq<int>, next: int)
    requires !Admits(row, now) && now <= later
    requires next >= later + RetryAfter(Bump(row, now).resetsAt, later) * 1_000_000
    requires forall i :: 0 <= i < |meanwhile| ==> meanwhile[i] < Bump(row, now).resetsAt
    ensures Admits(After(Some(Bump(row, now)), meanwhile), next)
  {
    RefusalsKeepWindow(Bump(row, now), meanwhile);
  }
}
