/** Offline backup and restore (services/app/state_bundle.py) and what a process
    finds when it starts on a database that a restore left behind at any point. */
module StateBundle {
  import opened Outcomes
  import opened Maxima
  import Q = RecoveryQueue

  type Uuid = Q.Uuid

  datatype User = User(id: Uuid, username: string, active: bool, role: string)

  /** Table contents. `queue.pendingSetting` belongs to the database, not to a dump,
      so it is overridden by the target's own setting. */
  datatype Contents = Contents(schema: string, users: set<User>, sessions: set<Uuid>, queue: Q.State)

  datatype Target = Target(pendingSetting: bool, loaded: Option<Contents>)

  /** A backup directory with what its checks came to. `keyFits` says that the saved
      key decrypts every encrypted column. */
  datatype Bundle = Bundle(valid: bool, major: int, keyFits: bool, dump: Contents, journals: seq<string>)

  const SCHEMA := "0080_member_setup"

  datatype Failure =
    | InvalidRequest | VersionMismatch | TargetExists
    | Busy | ToolFailed
    | SchemaMismatch | KeyMismatch | NoOperator | CheckpointCollision
    | Crashed

  // ---------------------------------------------------------------- restore

  function Deactivated(checkpoints: map<Uuid, bool>): map<Uuid, bool> {
    map c | c in checkpoints :: false
  }

  /** The closing transaction: sessions emptied, older checkpoints deactivated, the
      new checkpoint inserted and sealed. */
  function Fenced(loaded: Contents, c: Uuid): Contents {
    loaded.(sessions := {},
            queue := Q.Sealed(loaded.queue.(checkpoints := Deactivated(loaded.queue.checkpoints)[c := true]), c))
  }

  /** What the target holds after `stage` of the four database steps. */
  function Staged(stage: nat, dump: Contents, c: Uuid): Option<Target> {
    if stage == 0 then None
    else if stage == 1 then Some(Target(false, None))
    else if stage == 2 then Some(Target(true, None))
    else if stage == 3 then Some(Target(true, Some(dump)))
    else Some(Target(true, Some(Fenced(dump, c))))
  }

  /** The stage at which each kind of failure leaves the target. */
  ghost predicate FailsAt(error: Failure, stage: nat, crash: nat) {
    match error
    case InvalidRequest => stage == 0
    case VersionMismatch => stage == 0
    case TargetExists => stage == 0
    case Busy => stage == 2
    case ToolFailed => stage == 2
    case SchemaMismatch => stage == 3
    case KeyMismatch => stage == 3
    case NoOperator => stage == 3
    case CheckpointCollision => stage == 3
    case Crashed => stage == if crash < 4 then crash else 4
  }

  predicate IsOperator(user: User, operator: string) {
    user.username == operator && user.active && user.role == "admin"
  }

  predicate HasOperator(dump: Contents, operator: string) {
    exists user :: user in dump.users && IsOperator(user, operator)
  }

  const OUTPUT_FILES := ["app_key", "restore.env", "manifest.json"]

  class Cluster {
    const major: int
    var databases: map<string, Target>
    var output: seq<string>

    /** A restore that the operating system may stop after any step: `crash` counts
        the steps that happen before the process dies (four database steps, then one
        for each output file). `validNames` and `freshOutput` are the checks of the
        names and of the new output directory, `lockFree` and `toolRuns` the outcome
        of the maintenance lock and of pg_restore, which loads everything or nothing.
        `operator` is the lower-cased name and `c` the new random identifier. */
    method Restore(
        bundle: Bundle, name: string, operator: string, c: Uuid, crash: nat,
        validNames: bool, freshOutput: bool, lockFree: bool, toolRuns: bool)
      returns (r: Result<(), Failure>, stage: nat)
      modifies this
      ensures stage <= 4
      ensures forall other :: other != name ==>
                (other in databases <==> other in old(databases))
                && (other in databases ==> databases[other] == old(databases)[other])
      ensures name in old(databases) ==> databases == old(databases) && r.Err? && stage == 0
      ensures name !in old(databases) ==>
                (if name in databases then Some(databases[name]) else None) == Staged(stage, bundle.dump, c)
      ensures r.Err? ==> FailsAt(r.error, stage, crash)
      ensures r.Err? ==>
                match r.error
                case InvalidRequest => !bundle.valid || !validNames || !freshOutput
                case VersionMismatch => bundle.major != major
                case TargetExists => name in old(databases)
                case Busy => !lockFree
                case ToolFailed => !toolRuns
                case SchemaMismatch => bundle.dump.schema != "0080_member_setup"
                case KeyMismatch => !bundle.keyFits
                case NoOperator => forall user :: user in bundle.dump.users && user.username == operator ==>
                                     !user.active || user.role != "admin"
                case CheckpointCollision => c in bundle.dump.queue.checkpoints
                case Crashed => crash < 7 + |bundle.journals|
      ensures r.Ok? <==>
              && bundle.valid && validNames && freshOutput && bundle.major == major && name !in old(databases)
              && lockFree && toolRuns && bundle.dump.schema == "0080_member_setup" && bundle.keyFits
              && (exists user :: user in bundle.dump.users && user.username == operator && user.active
                                 && user.role == "admin")
              && c !in bundle.dump.queue.checkpoints
              && 7 + |bundle.journals| <= crash
      ensures r.Ok? ==> stage == 4 && output == ["app_key", "restore.env", "manifest.json"] + bundle.journals
    {
      stage := 0;
      if !bundle.valid || !validNames || !freshOutput {
        return Err(InvalidRequest), stage;
      }
      if major != bundle.major {
        return Err(VersionMismatch), stage;
      }
      if name in databases {
        return Err(TargetExists), stage;
      }
      if crash == 0 {
        return Err(Crashed), stage;
      }
      databases, stage := databases[name := Target(false, None)], 1;
      if crash == 1 {
        return Err(Crashed), stage;
      }
      databases, stage := databases[name := Target(true, None)], 2;
      if crash == 2 {
        return Err(Crashed), stage;
      }
      if !lockFree {
        return Err(Busy), stage;
      }
      if !toolRuns {
        return Err(ToolFailed), stage;
      }
      databases, stage := databases[name := Target(true, Some(bundle.dump))], 3;
      if crash == 3 {
        return Err(Crashed), stage;
      }
      if bundle.dump.schema != SCHEMA {
        return Err(SchemaMismatch), stage;
      }
      if !bundle.keyFits {
        return Err(KeyMismatch), stage;
      }
      if !HasOperator(bundle.dump, operator) {
        return Err(NoOperator), stage;
      }
      if c in bundle.dump.queue.checkpoints {
        return Err(CheckpointCollision), stage;
      }
      var loaded := CloseRestore(bundle.dump, c);
      databases, stage := databases[name := Target(true, Some(loaded))], 4;
      var finished := WriteOutput(OUTPUT_FILES + bundle.journals, crash - 4);
      r := if finished then Ok(()) else Err(Crashed);
    }

    /** The statements of the closing transaction, which become visible together: no
        session is left, the new checkpoint is the only active one, every other part of
        the contents is as loaded, and unless it was fenced before, all that was loaded is
        sealed under it. */
    method CloseRestore(loaded: Contents, c: Uuid) returns (next: Contents)
      ensures next == Fenced(loaded, c)
      ensures next.sessions == {} && next.users == loaded.users && next.schema == loaded.schema
      ensures forall k :: Q.IsActive(next.queue, k) <==> k == c
      ensures next.queue.checkpoints.Keys == loaded.queue.checkpoints.Keys + {c}
      ensures next.queue.rows == loaded.queue.rows && next.queue.jobs == loaded.queue.jobs
      ensures c !in loaded.queue.fences ==>
                && next.queue.fences.Keys == loaded.queue.fences.Keys + {c}
                && IsMaxOrZero(next.queue.fences[c].jobIdThrough, loaded.queue.jobs)
                && Q.SealedUnder(next.queue, c) == Q.SealedUnder(loaded.queue, c) + Q.Subjects(loaded.queue.rows)
      ensures forall k :: k in loaded.queue.fences ==>
                k in next.queue.fences && next.queue.fences[k] == loaded.queue.fences[k]
    {
      next := loaded.(sessions := {});
      var queue := next.queue;
      queue := queue.(checkpoints := Deactivated(queue.checkpoints));
      queue := queue.(checkpoints := queue.checkpoints[c := true]);
      Q.SealCapturesPresent(queue, c);
      assert c !in queue.fences ==> Q.SealedUnder(queue, c) == Q.SealedUnder(loaded.queue, c);
      queue := Q.Sealed(queue, c);
      next := next.(queue := queue);
    }

    method WriteOutput(files: seq<string>, budget: nat) returns (finished: bool)
      modifies this`output
      ensures finished <==> |files| <= budget
      ensures finished ==> output == files
      ensures !finished ==> output == files[..budget]
    {
      output := [];
      for k := 0 to |files|
        invariant output == files[..k]
        invariant k <= budget
      {
        if k == budget {
          return false;
        }
        output := output + [files[k]];
      }
      finished := true;
    }
  }

  // ---------------------------------------------------------------- what starts

  /** The queue's view of a target that has tables. */
  function View(t: Target): Q.State
    requires t.loaded.Some?
  {
    t.loaded.value.queue.(pendingSetting := t.pendingSetting)
  }

  datatype Start = Locked | Refused | ReviewOnly | Ordinary

  /** API startup. Without tables the first query fails. */
  ghost function ApiStart(t: Target, maintenance: bool): Start {
    if maintenance then Locked
    else if t.loaded.None? then Refused
    else if !Q.RestorePending(View(t)) then Ordinary
    else if exists c :: Q.IsActive(View(t), c) then ReviewOnly
    else Refused
  }

  ghost function WorkerStart(t: Target, maintenance: bool, recoveryMode: bool, recoveryOnly: bool): Start {
    if recoveryMode && !recoveryOnly then Refused
    else if maintenance then Locked
    else if t.loaded.None? then Refused
    else if recoveryOnly then if exists c :: Q.IsActive(View(t), c) then ReviewOnly else Refused
    else if Q.RestorePending(View(t)) then Refused
    else Ordinary
  }

  /** Foreign keys of the dumped database: every fence belongs to a checkpoint. */
  predicate Keyed(dump: Contents) {
    dump.queue.fences.Keys <= dump.queue.checkpoints.Keys
  }

  /** However far a restore got, restored rows are never seen without the pending
      mark: no process starts ordinarily and no ordinary job is admitted. */
  lemma EveryCrashPointIsFenced(stage: nat, dump: Contents, c: Uuid, t: Target)
    requires Staged(stage, dump, c) == Some(t)
    ensures t.loaded.Some? ==> Q.RestorePending(View(t))
    ensures forall maintenance :: ApiStart(t, maintenance) != Ordinary
    ensures forall maintenance, mode, only :: WorkerStart(t, maintenance, mode, only) != Ordinary
    ensures t.loaded.Some? ==>
              forall mode, job: Q.Job, parse :: !Q.IsRecovery(job.task) ==> !Q.Admits(View(t), mode, job, parse)
  {
  }

  /** Which interrupted restores are refused outright. Before the rows are loaded nothing
      can be served. Between loading them and the closing transaction, a dump that itself
      holds an active checkpoint opens for review, with the sessions and the boundary of
      the backup; any other is refused. */
  lemma InterruptedStarts(stage: nat, dump: Contents, c: Uuid, t: Target)
    requires Staged(stage, dump, c) == Some(t) && stage < 4
    ensures ApiStart(t, false)
         == if stage == 3 && exists k :: Q.IsActive(dump.queue, k) then ReviewOnly else Refused
    ensures t.loaded.Some? ==> stage == 3 && t.loaded.value.sessions == dump.sessions
                               && View(t).fences == dump.queue.fences && View(t).seals == dump.queue.seals
  {
    if stage == 3 {
      assert forall k :: Q.IsActive(View(t), k) <==> Q.IsActive(dump.queue, k);
    }
  }

  /** The new checkpoint is never visible without everything that goes with it. */
  lemma CheckpointAppearsComplete(stage: nat, dump: Contents, c: Uuid, t: Target)
    requires Staged(stage, dump, c) == Some(t) && t.loaded.Some?
    requires Keyed(dump) && c !in dump.queue.checkpoints
    ensures c in View(t).checkpoints ==>
              && stage >= 4
              && t.loaded.value.sessions == {}
              && (forall k :: Q.IsActive(View(t), k) <==> k == c)
              && View(t).checkpoints.Keys == dump.queue.checkpoints.Keys + {c}
              && c in View(t).fences && View(t).fences[c].approvalVersion == 1
              && Q.AllBelow(dump.queue.jobs, View(t).fences[c].jobIdThrough + 1)
              && Q.Subjects(dump.queue.rows) <= Q.SealedUnder(View(t), c)
              && (forall k :: k in dump.queue.fences ==>
                   k in View(t).fences && View(t).fences[k] == dump.queue.fences[k])
              && ApiStart(t, false) == ReviewOnly
    ensures c !in View(t).checkpoints ==> t.loaded.value == dump
  {
    if stage >= 4 {
      var marked := dump.queue.(checkpoints := Deactivated(dump.queue.checkpoints)[c := true]);
      Q.SealCapturesPresent(marked, c);
      assert Q.IsActive(View(t), c);
      assert View(t).seals == Q.Sealed(marked, c).seals;
      assert Q.SealedUnder(View(t), c) == Q.SealedUnder(Q.Sealed(marked, c), c);
    }
  }

  /** What starts, case by case. */
  lemma StartsSpelled(t: Target, maintenance: bool, mode: bool, only: bool)
    ensures ApiStart(t, maintenance) == Locked <==> maintenance
    ensures ApiStart(t, maintenance) == ReviewOnly <==> !maintenance && InReview(t)
    ensures ApiStart(t, maintenance) == Ordinary <==>
            !maintenance && t.loaded.Some? && !t.pendingSetting && !InReview(t)
    ensures WorkerStart(t, maintenance, mode, only) == Locked <==> maintenance && (mode ==> only)
    ensures WorkerStart(t, maintenance, mode, only) == ReviewOnly <==> !maintenance && only && InReview(t)
    ensures WorkerStart(t, maintenance, mode, only) == Ordinary <==>
            !maintenance && !mode && !only && t.loaded.Some? && !t.pendingSetting && !InReview(t)
  {
    if t.loaded.Some? {
      assert forall c :: Q.IsActive(View(t), c) <==> Holds(t.loaded.value, c);
    }
  }

  /** The contents mark this checkpoint as active. */
  ghost predicate Holds(loaded: Contents, c: Uuid) {
    c in loaded.queue.checkpoints && loaded.queue.checkpoints[c]
  }

  ghost predicate InReview(t: Target) {
    t.loaded.Some? && exists c :: Holds(t.loaded.value, c)
  }

  /** End to end: after a completed restore, whatever happens later (including leaving
      review), ordinary work never runs a job of the backup and is never given the
      identifier of one of its records. */
  lemma RestoredWorkStaysFenced(
      dump: Contents, c: Uuid, steps: seq<Q.Step>, recoveryMode: bool, job: Q.Job, parse: string -> Option<Uuid>)
    requires Keyed(dump) && c !in dump.queue.checkpoints
    requires !Q.IsRecovery(job.task)
    requires Q.Admits(Q.Run(View(Staged(4, dump, c).value), steps), recoveryMode, job, parse)
    ensures job.id.Some? && forall id :: id in dump.queue.jobs ==> id < job.id.value
    ensures forall row :: row in dump.queue.rows ==> !Q.Reaches(job, row, parse)
  {
    var marked := dump.queue.(
      checkpoints := Deactivated(dump.queue.checkpoints)[c := true], pendingSetting := true);
    assert View(Staged(4, dump, c).value) == Q.Sealed(marked, c);
    Q.RestoredWorkNeverRuns(marked, c, steps, recoveryMode, job, parse);
    forall row | row in dump.queue.rows ensures !Q.Reaches(job, row, parse) {
      Q.RestoredRowsAreOutOfReach(marked, c, steps, recoveryMode, job, parse, row);
    }
  }
}
