/** The process-tree memory count of the check runner (scripts/check.py). */
module ProcessTree {

  /** One line of the process table. */
  datatype Process = Process(pid: int, parent: int, group: int, rss: nat)

  ghost predicate Closed(rows: seq<Process>, pids: set<int>) {
    forall row :: row in rows && row.parent in pids ==> row.pid in pids
  }

  /** Everything in a tracked group and closed under "child of". */
  ghost predicate Contains(rows: seq<Process>, groups: set<int>, pids: set<int>) {
    && (forall row :: row in rows && row.group in groups ==> row.pid in pids)
    && Closed(rows, pids)
  }

  /** A chain of rows, each the child of the one before, from a tracked group. */
  ghost predicate Chain(rows: seq<Process>, groups: set<int>, chain: seq<Process>) {
    && chain != [] && (forall row :: row in chain ==> row in rows)
    && chain[0].group in groups
    && forall i :: 0 < i < |chain| ==> chain[i].parent == chain[i - 1].pid
  }

  ghost predicate Descends(rows: seq<Process>, groups: set<int>, pid: int) {
    exists chain: seq<Process> :: Chain(rows, groups, chain) && chain[|chain| - 1].pid == pid
  }

  lemma ChainExtends(rows: seq<Process>, groups: set<int>, row: Process)
    requires row in rows && Descends(rows, groups, row.parent)
    ensures Descends(rows, groups, row.pid)
  {
    var chain: seq<Process> :| Chain(rows, groups, chain) && chain[|chain| - 1].pid == row.parent;
    assert Chain(rows, groups, chain + [row]);
    assert (chain + [row])[|chain|].pid == row.pid;
  }

  lemma {:induction false} ChainsStayInside(rows: seq<Process>, groups: set<int>, pids: set<int>, chain: seq<Process>)
    requires Contains(rows, groups, pids) && Chain(rows, groups, chain)
    ensures chain[|chain| - 1].pid in pids
    decreases |chain|
  {
    var last := chain[|chain| - 1];
    assert last in chain;
    if |chain| > 1 {
      var init := chain[..|chain| - 1];
      assert Chain(rows, groups, init);
      ChainsStayInside(rows, groups, pids, init);
    }
  }

  /** The set of all descendants is the least one that contains the tracked groups
      and is closed. */
  lemma DescendantsAreLeast(rows: seq<Process>, groups: set<int>, pids: set<int>)
    requires forall pid :: pid in pids <==> Descends(rows, groups, pid)
    ensures Contains(rows, groups, pids)
    ensures forall other :: Contains(rows, groups, other) ==> pids <= other
  {
    forall row | row in rows && row.group in groups ensures row.pid in pids {
      assert Chain(rows, groups, [row]);
      assert [row][0].pid == row.pid;
    }
    forall row | row in rows && row.parent in pids ensures row.pid in pids {
      ChainExtends(rows, groups, row);
    }
    forall other, pid | Contains(rows, groups, other) && pid in pids ensures pid in other {
      var chain: seq<Process> :| Chain(rows, groups, chain) && chain[|chain| - 1].pid == pid;
      ChainsStayInside(rows, groups, other, chain);
    }
  }

  /** The memory of the rows whose process is a member, each row once. */
  function MemoryOf(rows: seq<Process>, pids: set<int>): nat {
    if rows == [] then 0
    else MemoryOf(rows[..|rows| - 1], pids) + if rows[|rows| - 1].pid in pids then rows[|rows| - 1].rss else 0
  }

  function Pids(rows: seq<Process>): set<int> {
    set row | row in rows :: row.pid
  }

  /** The least such set, as the loop finds it. */
  method Closure(rows: seq<Process>, groups: set<int>) returns (descendants: set<int>)
    ensures forall pid :: pid in descendants <==> Descends(rows, groups, pid)
    ensures Contains(rows, groups, descendants)
    ensures forall other :: Contains(rows, groups, other) ==> descendants <= other
  {
    descendants := set row | row in rows && row.group in groups :: row.pid;
    forall pid | pid in descendants ensures Descends(rows, groups, pid) {
      var row :| row in rows && row.group in groups && row.pid == pid;
      assert Chain(rows, groups, [row]);
      assert [row][0].pid == pid;
    }
    while true
      invariant descendants <= Pids(rows)
      invariant forall row :: row in rows && row.group in groups ==> row.pid in descendants
      invariant forall pid :: pid in descendants ==> Descends(rows, groups, pid)
      decreases Pids(rows) - descendants
    {
      var children := set row | row in rows && row.parent in descendants :: row.pid;
      if children <= descendants {
        break;
      }
      forall pid | pid in children ensures Descends(rows, groups, pid) {
        var row :| row in rows && row.parent in descendants && row.pid == pid;
        ChainExtends(rows, groups, row);
      }
      descendants := descendants + children;
    }
    assert Closed(rows, descendants) by {
      forall row | row in rows && row.parent in descendants ensures row.pid in descendants {
        assert row.pid in set r | r in rows && r.parent in descendants :: r.pid;
      }
    }
    forall pid | Descends(rows, groups, pid) ensures pid in descendants {
      var chain: seq<Process> :| Chain(rows, groups, chain) && chain[|chain| - 1].pid == pid;
      ChainsStayInside(rows, groups, descendants, chain);
    }
    DescendantsAreLeast(rows, groups, descendants);
  }

  /** The memory in KiB of the members, read in table order. */
  method TotalMemory(rows: seq<Process>, pids: set<int>) returns (rss: nat)
    ensures rss == MemoryOf(rows, pids)
  {
    rss := 0;
    for k := 0 to |rows|
      invariant rss == MemoryOf(rows[..k], pids)
    {
      assert rows[..k + 1][..k] == rows[..k];
      if rows[k].pid in pids {
        rss := rss + rows[k].rss;
      }
    }
    assert rows[..|rows|] == rows;
  }

  ghost function Members(rows: seq<Process>, groups: set<int>): set<int> {
    set row | row in rows && Descends(rows, groups, row.pid) :: row.pid
  }

  lemma OnlyRowsDescend(rows: seq<Process>, groups: set<int>, pid: int)
    ensures Descends(rows, groups, pid) <==> pid in Members(rows, groups)
  {
    if Descends(rows, groups, pid) {
      var chain: seq<Process> :| Chain(rows, groups, chain) && chain[|chain| - 1].pid == pid;
      assert chain[|chain| - 1] in chain;
    }
  }

  /** The set of process groups that the caller tracks. */
  class Tracker {
    var groups: set<int>

    /** The total of the whole process tree; its groups join the tracked ones. */
    method ProcessTreeRss(rows: seq<Process>) returns (rss: nat)
      modifies this
      ensures rss == MemoryOf(rows, Members(rows, old(groups)))
      ensures groups == old(groups) + set row | row in rows && row.pid in Members(rows, old(groups)) :: row.group
    {
      var descendants := Closure(rows, groups);
      forall pid ensures pid in descendants <==> pid in Members(rows, groups) {
        OnlyRowsDescend(rows, groups, pid);
      }
      assert descendants == Members(rows, groups);
      groups := groups + set row | row in rows && row.pid in descendants :: row.group;
      rss := TotalMemory(rows, descendants);
    }
  }

  /** With distinct process ids, the total is the sum over the members, each counted
      once however many parents or groups lead to it. */
  lemma {:induction false} MembersCountOnce(rows: seq<Process>, pids: set<int>, row: Process)
    requires row in rows && row.pid in pids
    requires forall i, j :: 0 <= i < j < |rows| ==> rows[i].pid != rows[j].pid
    ensures MemoryOf(rows, pids) == row.rss + MemoryOf(rows, pids - {row.pid})
  {
    var init, last := rows[..|rows| - 1], rows[|rows| - 1];
    if last == row {
      SameMemory(init, pids, row.pid);
    } else {
      MembersCountOnce(init, pids, row);
    }
  }

  lemma {:induction false} SameMemory(rows: seq<Process>, pids: set<int>, pid: int)
    requires forall i :: 0 <= i < |rows| ==> rows[i].pid != pid
    ensures MemoryOf(rows, pids) == MemoryOf(rows, pids - {pid})
  {
    if rows != [] {
      SameMemory(rows[..|rows| - 1], pids, pid);
    }
  }
}
