/** The durable restore boundary (services/app/recovery_queue.py): sealing a
    checkpoint, the admission decision every queued job passes through, and what
    the boundary means over whole runs of the system. */
module RecoveryQueue {
  import opened Outcomes
  import opened Maxima

  type Uuid = nat

  /** A row of any ordinary table; `kind` is the operation kind and is only read
      for table "operations". */
  datatype Row = Row(table: string, id: Uuid, kind: string)

  /** What a job argument can address: a kind of record and its identifier. */
  datatype Subject = Subject(kind: string, id: Uuid)

  datatype Seal = Seal(checkpoint: Uuid, subject: Subject)

  datatype Fence = Fence(jobIdThrough: nat, jobCount: nat, subjectCounts: map<string, nat>, approvalVersion: int)

  datatype Value = Text(text: string) | Items(items: seq<Value>) | Other

  datatype Job = Job(id: Option<int>, task: string, kwargs: seq<(string, Value)>)

  /** The stored state: the per-database pending setting, checkpoints with their
      active flag, fences and seals, ordinary rows and the ids in the job table. */
  datatype State = State(
    pendingSetting: bool,
    checkpoints: map<Uuid, bool>,
    fences: map<Uuid, Fence>,
    seals: set<Seal>,
    rows: set<Row>,
    jobs: set<nat>)

  datatype Reason =
    | NoActiveCheckpoint
    | Paused
    | Unsealed
    | Incomplete
    | Held
    | RestoredJob
    | HistoryCleanup
    | InvalidReference
    | UnsupportedReference
    | RestoredReference

  const SUBJECT_ARGUMENTS: map<string, string> := map[
    "operation_id" := "operation",
    "search_id" := "operation",
    "attempt_id" := "download-attempt",
    "recovery_id" := "download-recovery",
    "automatic_id" := "automatic-import",
    "continuation_id" := "import-continuation",
    "work_id" := "work"
  ]

  const ACTOR_ARGUMENTS: set<string> := {"user_id"}

  const HELD_TASKS: set<string> := {"discovery.refresh", "organization.ebook-companions"}

  const RECOVERY_TASKS: set<string> := {
    "recovery.scan", "recovery.reconcile", "recovery.inventory", "recovery.publication",
    "recovery.lists", "recovery.outbound", "recovery.commands", "recovery.access",
    "recovery.connections", "recovery.sources", "recovery.source-test"
  }

  /** The sealed tables and the subject kind each one is recorded under. */
  const SEALED_TABLES: map<string, string> := map[
    "operations" := "operation",
    "download_attempts" := "download-attempt",
    "download_recoveries" := "download-recovery",
    "automatic_imports" := "automatic-import",
    "automatic_import_continuations" := "import-continuation",
    "works" := "work",
    "acquisition_selections" := "selection",
    "frozen_import_plans" := "import-plan",
    "list_csv_imports" := "csv-preview"
  ]

  predicate StartsWith(text: string, prefix: string) {
    prefix <= text
  }

  predicate EndsWith(text: string, suffix: string) {
    |suffix| <= |text| && text[|text| - |suffix|..] == suffix
  }

  // ---------------------------------------------------------------- sealing

  predicate IsActive(s: State, c: Uuid) {
    c in s.checkpoints && s.checkpoints[c]
  }

  ghost predicate RestorePending(s: State) {
    s.pendingSetting || exists c :: IsActive(s, c)
  }

  predicate Sealable(row: Row) {
    && row.table in SEALED_TABLES
    && !(row.table == "operations" && StartsWith(row.kind, "recovery."))
  }

  function SubjectOf(row: Row): Subject
    requires row.table in SEALED_TABLES
  {
    Subject(SEALED_TABLES[row.table], row.id)
  }

  /** The records a seal would capture now. */
  function Subjects(rows: set<Row>): set<Subject> {
    set row | row in rows && Sealable(row) :: SubjectOf(row)
  }

  function KindsOf(inserted: set<Seal>): set<string> {
    set x | x in inserted :: x.subject.kind
  }

  function CountsByKind(inserted: set<Seal>): map<string, nat> {
    map k | k in KindsOf(inserted) :: |set x | x in inserted && x.subject.kind == k|
  }

  /** The one sealing statement: it reads one snapshot and inserts the subjects and
      the fence together, or nothing when the checkpoint is inactive or unknown. */
  function Sealed(s: State, c: Uuid): State {
    if !IsActive(s, c) then s else
    var inserted :=
      if c in s.fences then {}
      else (set x | x in Subjects(s.rows) :: Seal(c, x)) - s.seals;
    s.(seals := s.seals + inserted,
       fences := if c in s.fences then s.fences
                 else s.fences[c := Fence(MaxOrZero(s.jobs), |s.jobs|, CountsByKind(inserted), 1)])
  }

  // ---------------------------------------------------------------- admission

  /** A well-formed identifier naming a record that no checkpoint has sealed.
      `parse` is the standard library's UUID constructor. */
  ghost predicate FreshReference(s: State, kind: string, value: Value, parse: string -> Option<Uuid>) {
    && value.Text?
    && parse(value.text).Some?
    && forall x :: x in s.seals ==> x.subject != Subject(kind, parse(value.text).value)
  }

  predicate BatchArgument(task: string, value: Value) {
    task == "organization.confirm-batch" && value.Items? && 1 <= |value.items| <= 20
  }

  predicate Addresses(name: string) {
    EndsWith(name, "_id") && name !in ACTOR_ARGUMENTS
  }

  ghost predicate ArgumentAdmitted(s: State, task: string, arg: (string, Value), parse: string -> Option<Uuid>) {
    if arg.0 == "operation_ids" then
      BatchArgument(task, arg.1) && forall v :: v in arg.1.items ==> FreshReference(s, "operation", v, parse)
    else
      Addresses(arg.0) ==>
        arg.0 in SUBJECT_ARGUMENTS && FreshReference(s, SUBJECT_ARGUMENTS[arg.0], arg.1, parse)
  }

  ghost predicate Quiet(s: State, recoveryMode: bool) {
    !recoveryMode && !RestorePending(s)
  }

  ghost predicate AllSealed(s: State) {
    && (forall c :: c in s.checkpoints ==> c in s.fences)
    && (forall c :: c in s.fences ==> s.fences[c].approvalVersion == 1)
  }

  predicate IsCleanup(task: string) {
    StartsWith(task, "procrastinate.") || StartsWith(task, "builtin:")
  }

  ghost predicate AboveEveryCeiling(s: State, job: Job) {
    job.id.Some? && forall c :: c in s.fences ==> s.fences[c].jobIdThrough < job.id.value
  }

  /** When a job may run, said without reference to the order of the checks. */
  ghost predicate Admits(s: State, recoveryMode: bool, job: Job, parse: string -> Option<Uuid>) {
    if job.task in RECOVERY_TASKS then
      exists c :: IsActive(s, c)
    else
      && Quiet(s, recoveryMode)
      && AllSealed(s)
      && (s.fences != map[] ==>
            && job.task !in HELD_TASKS
            && AboveEveryCeiling(s, job)
            && !IsCleanup(job.task)
            && forall i :: 0 <= i < |job.kwargs| ==> ArgumentAdmitted(s, job.task, job.kwargs[i], parse))
  }

  /** The references one argument contributes, and whether it is acceptable at all. */
  function ReferencesOf(arg: (string, Value)): seq<(string, Value)> {
    if arg.0 == "operation_ids" then
      if arg.1.Items?
      then seq(|arg.1.items|, i requires 0 <= i < |arg.1.items| => ("operation", arg.1.items[i]))
      else []
    else if Addresses(arg.0) && arg.0 in SUBJECT_ARGUMENTS then [(SUBJECT_ARGUMENTS[arg.0], arg.1)]
    else []
  }

  predicate Resolvable(task: string, arg: (string, Value)) {
    if arg.0 == "operation_ids" then BatchArgument(task, arg.1)
    else Addresses(arg.0) ==> arg.0 in SUBJECT_ARGUMENTS
  }

  lemma ArgumentAdmittedByReferences(s: State, task: string, arg: (string, Value), parse: string -> Option<Uuid>)
    requires Resolvable(task, arg)
    ensures ArgumentAdmitted(s, task, arg, parse) <==>
            forall r :: r in ReferencesOf(arg) ==> FreshReference(s, r.0, r.1, parse)
  {
    if arg.0 == "operation_ids" {
      var refs := ReferencesOf(arg);
      forall v | v in arg.1.items ensures ("operation", v) in refs {
        var i :| 0 <= i < |arg.1.items| && arg.1.items[i] == v;
        assert refs[i] == ("operation", v);
      }
      forall r | r in refs ensures r.0 == "operation" && r.1 in arg.1.items {
        var i :| 0 <= i < |refs| && refs[i] == r;
      }
    } else if Addresses(arg.0) {
      assert ReferencesOf(arg)[0] == (SUBJECT_ARGUMENTS[arg.0], arg.1);
    }
  }

  /** A reference that names a sealed record. */
  ghost predicate IsSealedName(s: State, r: (string, Value), parse: string -> Option<Uuid>) {
    exists x :: x in s.seals && r.1.Text? && parse(r.1.text) == Some(x.subject.id) && x.subject.kind == r.0
  }

  ghost predicate Contributes(job: Job, r: (string, Value)) {
    exists i :: 0 <= i < |job.kwargs| && r in ReferencesOf(job.kwargs[i])
  }

  ghost predicate NamesSealed(s: State, job: Job, parse: string -> Option<Uuid>) {
    exists r :: Contributes(job, r) && IsSealedName(s, r, parse)
  }

  ghost predicate NamesUnreadable(job: Job, parse: string -> Option<Uuid>) {
    exists r :: Contributes(job, r) && !(r.1.Text? && parse(r.1.text).Some?)
  }

  ghost predicate AllResolvable(job: Job) {
    forall i :: 0 <= i < |job.kwargs| ==> Resolvable(job.task, job.kwargs[i])
  }

  /** The refusal of the first argument that cannot be resolved. */
  ghost predicate Unresolved(job: Job, reason: Option<Reason>) {
    exists k :: && 0 <= k < |job.kwargs| && !Resolvable(job.task, job.kwargs[k])
                && (forall i :: 0 <= i < k ==> Resolvable(job.task, job.kwargs[i]))
                && reason == Some(if job.kwargs[k].0 == "operation_ids" then InvalidReference else UnsupportedReference)
  }

  /** The first loop: every reference that the arguments contribute, or the refusal of
      the first argument that cannot be resolved. */
  method CollectReferences(job: Job) returns (reason: Option<Reason>, references: seq<(string, Value)>)
    ensures reason.None? ==> AllResolvable(job) && forall r :: r in references <==> Contributes(job, r)
    ensures reason.Some? ==> Unresolved(job, reason)
  {
    references := [];
    for k := 0 to |job.kwargs|
      invariant forall i :: 0 <= i < k ==> Resolvable(job.task, job.kwargs[i])
      invariant forall r :: r in references <==> exists i :: 0 <= i < k && r in ReferencesOf(job.kwargs[i])
    {
      var (name, value) := job.kwargs[k];
      assert (name, value) == job.kwargs[k];
      if name == "operation_ids" {
        if job.task != "organization.confirm-batch" || !value.Items? || !(1 <= |value.items| <= 20) {
          assert !Resolvable(job.task, job.kwargs[k]);
          return Some(InvalidReference), [];
        }
      } else if Addresses(name) && name !in SUBJECT_ARGUMENTS {
        assert !Resolvable(job.task, job.kwargs[k]);
        return Some(UnsupportedReference), [];
      }
      references := references + ReferencesOf(job.kwargs[k]);
    }
    return None, references;
  }

  /** The first argument that cannot be resolved decides the reason; only when all
      can be resolved are the references looked up. */
  ghost predicate ReferencesExplain(s: State, job: Job, parse: string -> Option<Uuid>, reason: Option<Reason>) {
    && (reason.None? <==>
          forall i :: 0 <= i < |job.kwargs| ==> ArgumentAdmitted(s, job.task, job.kwargs[i], parse))
    && (if !AllResolvable(job) then Unresolved(job, reason)
        else
          || reason.None?
          || (reason.value == RestoredReference && NamesSealed(s, job, parse))
          || (reason.value == InvalidReference && NamesUnreadable(job, parse)))
  }

  lemma UnresolvedExplains(s: State, job: Job, parse: string -> Option<Uuid>, reason: Option<Reason>)
    requires Unresolved(job, reason)
    ensures ReferencesExplain(s, job, parse, reason)
  {
  }

  /** Looking up exactly the contributed references decides every argument. */
  lemma LookedUp(s: State, job: Job, references: seq<(string, Value)>, parse: string -> Option<Uuid>,
      reason: Option<Reason>)
    requires AllResolvable(job) && forall r :: r in references <==> Contributes(job, r)
    requires reason == None || reason == Some(InvalidReference) || reason == Some(RestoredReference)
    requires reason.None? ==> forall r :: r in references ==> FreshReference(s, r.0, r.1, parse)
    requires reason == Some(InvalidReference) ==> exists r :: r in references && !(r.1.Text? && parse(r.1.text).Some?)
    requires reason == Some(RestoredReference) ==> exists r :: r in references && IsSealedName(s, r, parse)
    ensures ReferencesExplain(s, job, parse, reason)
  {
    if reason.None? {
      forall i | 0 <= i < |job.kwargs| ensures ArgumentAdmitted(s, job.task, job.kwargs[i], parse) {
        ArgumentAdmittedByReferences(s, job.task, job.kwargs[i], parse);
      }
    } else {
      var r :| r in references && !FreshReference(s, r.0, r.1, parse);
      var i :| 0 <= i < |job.kwargs| && r in ReferencesOf(job.kwargs[i]);
      ArgumentAdmittedByReferences(s, job.task, job.kwargs[i], parse);
    }
  }

  /** Which refusal is given. */
  ghost predicate Explains(
      s: State, recoveryMode: bool, job: Job, parse: string -> Option<Uuid>, reason: Option<Reason>) {
    && (reason.None? <==> Admits(s, recoveryMode, job, parse))
    && if job.task in RECOVERY_TASKS then reason.None? || reason.value == NoActiveCheckpoint
       else if !Quiet(s, recoveryMode) then reason == Some(Paused)
       else if exists c :: c in s.checkpoints && c !in s.fences then reason == Some(Unsealed)
       else if !AllSealed(s) then reason == Some(Incomplete)
       else if s.fences == map[] then reason.None?
       else if job.task in HELD_TASKS then reason == Some(Held)
       else if !AboveEveryCeiling(s, job) then reason == Some(RestoredJob)
       else if IsCleanup(job.task) then reason == Some(HistoryCleanup)
       else ReferencesExplain(s, job, parse, reason)
  }

  datatype Blocked = Blocked(jobId: Option<int>, task: string, reason: Reason)

  /** The restorable database as the running service sees it. */
  class Database {
    var pendingSetting: bool
    var checkpoints: map<Uuid, bool>
    var fences: map<Uuid, Fence>
    var seals: set<Seal>
    var rows: set<Row>
    var jobs: set<nat>
    var audit: seq<Blocked>

    ghost function View(): State
      reads this
    {
      State(pendingSetting, checkpoints, fences, seals, rows, jobs)
    }

    /** One checkpoint flagged active, if there is one. */
    method ActiveRestore() returns (c: Option<Uuid>)
      ensures c.Some? ==> IsActive(View(), c.value)
      ensures c.None? ==> forall k :: !IsActive(View(), k)
    {
      var active := set k | k in checkpoints && checkpoints[k];
      if active == {} {
        forall k ensures !IsActive(View(), k) { assert k !in active; }
        return None;
      }
      var k :| k in active;
      c := Some(k);
    }

    method SealCheckpoint(c: Uuid)
      modifies this
      ensures View() == Sealed(old(View()), c)
      ensures audit == old(audit)
    {
      if c in checkpoints && checkpoints[c] && c !in fences {
        var inserted := (set x | x in Subjects(rows) :: Seal(c, x)) - seals;
        seals := seals + inserted;
        fences := fences[c := Fence(MaxOrZero(jobs), |jobs|, CountsByKind(inserted), 1)];
      }
    }

    method Denial(recoveryMode: bool, job: Job, parse: string -> Option<Uuid>) returns (reason: Option<Reason>)
      ensures Explains(View(), recoveryMode, job, parse, reason)
    {
      var checkpoint := ActiveRestore();
      var paused := recoveryMode || pendingSetting || checkpoint.Some?;
      assert paused <==> !Quiet(View(), recoveryMode);
      if job.task in RECOVERY_TASKS {
        return if checkpoint.Some? then None else Some(NoActiveCheckpoint);
      }
      if paused {
        return Some(Paused);
      }
      if exists c :: c in checkpoints && c !in fences {
        return Some(Unsealed);
      }
      if exists c :: c in fences && fences[c].approvalVersion != 1 {
        return Some(Incomplete);
      }
      assert AllSealed(View());
      if fences == map[] {
        return None;
      }
      if job.task in HELD_TASKS {
        return Some(Held);
      }
      var ceilings := set c | c in fences :: fences[c].jobIdThrough;
      assert ceilings != {} by {
        var c :| c in fences;
        assert fences[c].jobIdThrough in ceilings;
      }
      var ceiling := MaxOrZero(ceilings);
      if job.id.None? || job.id.value <= ceiling {
        if job.id.Some? {
          var c :| c in fences && fences[c].jobIdThrough == ceiling;
        }
        return Some(RestoredJob);
      }
      assert AboveEveryCeiling(View(), job) by {
        forall c | c in fences ensures fences[c].jobIdThrough < job.id.value {
          assert fences[c].jobIdThrough in ceilings;
        }
      }
      if IsCleanup(job.task) {
        return Some(HistoryCleanup);
      }
      reason := CheckReferences(job, parse);
    }

    /** The two loops at the end of the decision: collect every reference, then look
        each one up among the sealed subjects. */
    method CheckReferences(job: Job, parse: string -> Option<Uuid>) returns (reason: Option<Reason>)
      ensures ReferencesExplain(View(), job, parse, reason)
    {
      var references: seq<(string, Value)>;
      reason, references := CollectReferences(job);
      if reason.None? {
        reason := LookUp(references, parse);
        LookedUp(View(), job, references, parse, reason);
      } else {
        UnresolvedExplains(View(), job, parse, reason);
      }
    }

    method LookUp(references: seq<(string, Value)>, parse: string -> Option<Uuid>) returns (reason: Option<Reason>)
      ensures reason == None || reason == Some(InvalidReference) || reason == Some(RestoredReference)
      ensures reason.None? ==> forall r :: r in references ==> FreshReference(View(), r.0, r.1, parse)
      ensures reason == Some(InvalidReference) ==> exists r :: r in references && !(r.1.Text? && parse(r.1.text).Some?)
      ensures reason == Some(RestoredReference) ==> exists r :: r in references && IsSealedName(View(), r, parse)
    {
      for j := 0 to |references|
        invariant forall i :: 0 <= i < j ==> FreshReference(View(), references[i].0, references[i].1, parse)
      {
        var (kind, value) := references[j];
        assert references[j] in references;
        var identifier := if value.Text? then parse(value.text) else None;
        if identifier.None? {
          return Some(InvalidReference);
        }
        if Subject(kind, identifier.value) in (set x | x in seals :: x.subject) {
          return Some(RestoredReference);
        }
      }
      return None;
    }

    /** The worker middleware: with no refusal the body of its task runs, otherwise the job
        is aborted. An audit entry carries the id, the task name and the reason, never
        the arguments. */
    method GuardJob(recoveryMode: bool, job: Job, parse: string -> Option<Uuid>) returns (aborted: Option<Reason>)
      modifies this`audit
      ensures Explains(View(), recoveryMode, job, parse, aborted)
      ensures audit == old(audit) + if aborted.None? then [] else [Blocked(job.id, job.task, aborted.value)]
    {
      aborted := Denial(recoveryMode, job, parse);
      if aborted.Some? {
        audit := audit + [Blocked(job.id, job.task, aborted.value)];
      }
    }
  }

  // ---------------------------------------------------------------- runs

  /** Everything that happens to the stored state between two decisions. Unique
      checkpoint ids and the one-active-checkpoint index are the database's. */
  datatype Step =
    | SealStep(c: Uuid)
    | OpenCheckpoint(c: Uuid)
    | SetActive(c: Uuid, active: bool)
    | StoreRow(row: Row)
    | DeleteRow(row: Row)
    | Enqueue(id: nat)
    | DeleteJob(id: nat)
    | SetPending(pending: bool)

  ghost predicate Enabled(s: State, step: Step) {
    match step
    case OpenCheckpoint(c) => c !in s.checkpoints && forall k :: !IsActive(s, k)
    case SetActive(c, active) => c in s.checkpoints && (active ==> forall k :: IsActive(s, k) ==> k == c)
    case _ => true
  }

  function Next(s: State, step: Step): State {
    match step
    case SealStep(c) => Sealed(s, c)
    case OpenCheckpoint(c) => s.(checkpoints := s.checkpoints[c := true])
    case SetActive(c, active) => s.(checkpoints := s.checkpoints[c := active])
    case StoreRow(row) => s.(rows := s.rows + {row})
    case DeleteRow(row) => s.(rows := s.rows - {row})
    case Enqueue(id) => s.(jobs := s.jobs + {id})
    case DeleteJob(id) => s.(jobs := s.jobs - {id})
    case SetPending(pending) => s.(pendingSetting := pending)
  }

  function Run(s: State, steps: seq<Step>): State
    decreases |steps|
  {
    if steps == [] then s else Run(Next(s, steps[0]), steps[1..])
  }

  ghost predicate EnabledRun(s: State, steps: seq<Step>)
    decreases |steps|
  {
    steps == [] || (Enabled(s, steps[0]) && EnabledRun(Next(s, steps[0]), steps[1..]))
  }

  function SealedUnder(s: State, c: Uuid): set<Subject> {
    set x | x in s.seals && x.checkpoint == c :: x.subject
  }

  /** A seal on an active, unsealed checkpoint captures exactly the records and the
      highest job id present; on any other checkpoint it does nothing. */
  lemma SealCapturesPresent(s: State, c: Uuid)
    ensures IsActive(s, c) && c !in s.fences ==>
              && var t := Sealed(s, c);
              && SealedUnder(t, c) == SealedUnder(s, c) + Subjects(s.rows)
              && c in t.fences && IsMaxOrZero(t.fences[c].jobIdThrough, s.jobs)
              && t.fences[c].jobCount == |s.jobs| && t.fences[c].approvalVersion == 1
              && (forall k :: k != c ==> SealedUnder(t, k) == SealedUnder(s, k))
              && t.checkpoints == s.checkpoints && t.rows == s.rows && t.jobs == s.jobs
              && t.pendingSetting == s.pendingSetting
    ensures !IsActive(s, c) || c in s.fences ==> Sealed(s, c) == s
  {
    if IsActive(s, c) && c !in s.fences {
      var t := Sealed(s, c);
      assert forall x :: x in Subjects(s.rows) ==> Seal(c, x) in t.seals;
      forall x | x in SealedUnder(s, c) + Subjects(s.rows) ensures x in SealedUnder(t, c) {
        assert Seal(c, x) in t.seals;
      }
      forall k | k != c ensures SealedUnder(t, k) == SealedUnder(s, k) {
        assert forall x :: x in t.seals && x.checkpoint == k ==> x in s.seals;
      }
    }
  }

  /** Once a checkpoint has a fence, no run changes its ceiling or its subjects, not
      even by sealing it again. */
  lemma {:induction false} BoundaryIsImmutable(s: State, steps: seq<Step>, c: Uuid)
    requires c in s.fences
    ensures c in Run(s, steps).fences && Run(s, steps).fences[c] == s.fences[c]
    ensures SealedUnder(Run(s, steps), c) == SealedUnder(s, c)
    decreases |steps|
  {
    if steps != [] {
      if steps[0].SealStep? {
        SealCapturesPresent(s, steps[0].c);
      }
      BoundaryIsImmutable(Next(s, steps[0]), steps[1..], c);
    }
  }

  /** `job` addresses `subject` through one of its arguments. */
  ghost predicate Names(job: Job, subject: Subject, parse: string -> Option<Uuid>) {
    exists i, r :: 0 <= i < |job.kwargs| && r in ReferencesOf(job.kwargs[i])
                   && r.1.Text? && r.0 == subject.kind && parse(r.1.text) == Some(subject.id)
  }

  lemma AdmittedNamesNothingSealed(s: State, recoveryMode: bool, job: Job, x: Seal, parse: string -> Option<Uuid>)
    requires Admits(s, recoveryMode, job, parse) && job.task !in RECOVERY_TASKS
    requires s.fences != map[] && x in s.seals
    ensures !Names(job, x.subject, parse)
  {
    if Names(job, x.subject, parse) {
      var i, r :| 0 <= i < |job.kwargs| && r in ReferencesOf(job.kwargs[i])
                  && r.1.Text? && r.0 == x.subject.kind && parse(r.1.text) == Some(x.subject.id);
      ArgumentAdmittedByReferences(s, job.task, job.kwargs[i], parse);
    }
  }

  ghost predicate AllBelow(ids: set<nat>, id: int) {
    forall j :: j in ids ==> j < id
  }

  /** Safety over every run: whatever was queued or stored when a checkpoint was
      sealed is never run and never addressed by ordinary work afterwards, whatever
      is enqueued, deleted, resealed, activated or deactivated in between. */
  lemma RestoredWorkNeverRuns(
      s: State, c: Uuid, steps: seq<Step>, recoveryMode: bool, job: Job, parse: string -> Option<Uuid>)
    requires IsActive(s, c) && c !in s.fences
    requires job.task !in RECOVERY_TASKS
    requires Admits(Run(Sealed(s, c), steps), recoveryMode, job, parse)
    ensures job.id.Some? && AllBelow(s.jobs, job.id.value)
    ensures forall row :: row in s.rows && Sealable(row) ==> !Names(job, SubjectOf(row), parse)
  {
    var sealed := Sealed(s, c);
    var last := Run(sealed, steps);
    SealCapturesPresent(s, c);
    BoundaryIsImmutable(sealed, steps, c);
    assert last.fences[c].jobIdThrough < job.id.value;
    forall row | row in s.rows && Sealable(row) ensures !Names(job, SubjectOf(row), parse) {
      assert SubjectOf(row) in SealedUnder(last, c);
      var x :| x in last.seals && x.checkpoint == c && x.subject == SubjectOf(row);
      AdmittedNamesNothingSealed(last, recoveryMode, job, x, parse);
    }
  }

  // ---------------------------------------------------------------- histories

  predicate TakesSeal(s: State, step: Step) {
    step.SealStep? && IsActive(s, step.c) && step.c !in s.fences
  }

  /** Every job id that was in the queue at some moment a checkpoint was sealed. */
  function QueuedAtSeals(s: State, steps: seq<Step>): set<nat>
    decreases |steps|
  {
    if steps == [] then {}
    else (if TakesSeal(s, steps[0]) then s.jobs else {}) + QueuedAtSeals(Next(s, steps[0]), steps[1..])
  }

  /** Every record that existed at some moment a checkpoint was sealed. */
  function StoredAtSeals(s: State, steps: seq<Step>): set<Subject>
    decreases |steps|
  {
    if steps == [] then {}
    else (if TakesSeal(s, steps[0]) then Subjects(s.rows) else {}) + StoredAtSeals(Next(s, steps[0]), steps[1..])
  }

  /** A database no restore has touched. */
  ghost predicate Pristine(s: State) {
    s.checkpoints == map[] && s.fences == map[] && s.seals == {}
  }

  ghost predicate Consistent(s: State) {
    forall c :: c in s.fences ==> c in s.checkpoints && s.fences[c].approvalVersion == 1
  }

  ghost predicate AboveCeilings(s: State, id: int) {
    forall c :: c in s.fences ==> s.fences[c].jobIdThrough < id
  }

  lemma SealRaisesCeiling(s: State, c: Uuid, id: int)
    requires Consistent(s) && TakesSeal(s, SealStep(c))
    ensures AboveCeilings(Sealed(s, c), id) <==>
            AboveCeilings(s, id) && 0 < id && AllBelow(s.jobs, id)
    ensures forall x: Subject :: (exists k :: Seal(k, x) in Sealed(s, c).seals) <==>
            (exists k :: Seal(k, x) in s.seals) || x in Subjects(s.rows)
  {
    SealCapturesPresent(s, c);
    var t := Sealed(s, c);
    assert t.fences.Keys == s.fences.Keys + {c};
    assert forall k :: k in s.fences ==> t.fences[k] == s.fences[k];
    if AboveCeilings(t, id) {
      assert t.fences[c].jobIdThrough < id;
      forall k | k in s.fences ensures s.fences[k].jobIdThrough < id {
        assert t.fences[k].jobIdThrough < id;
      }
    }
    forall x: Subject
      ensures (exists k :: Seal(k, x) in t.seals) <==> (exists k :: Seal(k, x) in s.seals) || x in Subjects(s.rows)
    {
      if x in Subjects(s.rows) {
        assert x in SealedUnder(t, c);
        assert Seal(c, x) in t.seals;
      }
      if k :| Seal(k, x) in t.seals && k != c {
        assert Seal(k, x) in s.seals;
      }
      if k :| Seal(k, x) in s.seals {
        assert Seal(k, x) in t.seals;
      }
    }
  }

  /** No step touches a boundary except a seal that takes effect. */
  lemma StepKeepsBoundary(s: State, step: Step)
    requires Consistent(s) && Enabled(s, step)
    ensures Consistent(Next(s, step))
    ensures s.fences.Keys <= Next(s, step).fences.Keys
    ensures !TakesSeal(s, step) ==> Next(s, step).fences == s.fences && Next(s, step).seals == s.seals
    ensures TakesSeal(s, step) ==>
              && Next(s, step) == Sealed(s, step.c)
              && Next(s, step).fences.Keys == s.fences.Keys + {step.c}
  {
  }

  /** The ceilings are exactly the history of what was queued at the seals. */
  lemma {:induction false} CeilingsAreHistory(s: State, steps: seq<Step>, id: int)
    requires Consistent(s) && EnabledRun(s, steps)
    ensures Consistent(Run(s, steps)) && s.fences.Keys <= Run(s, steps).fences.Keys
    ensures AboveCeilings(Run(s, steps), id) <==>
            && AboveCeilings(s, id)
            && (Run(s, steps).fences.Keys != s.fences.Keys ==> 0 < id)
            && AllBelow(QueuedAtSeals(s, steps), id)
    decreases |steps|
  {
    if steps != [] {
      var t := Next(s, steps[0]);
      StepKeepsBoundary(s, steps[0]);
      CeilingsAreHistory(t, steps[1..], id);
      if TakesSeal(s, steps[0]) {
        SealRaisesCeiling(s, steps[0].c, id);
        assert steps[0].c in Run(t, steps[1..]).fences.Keys && steps[0].c !in s.fences.Keys;
      } else {
        assert QueuedAtSeals(s, steps) == QueuedAtSeals(t, steps[1..]);
      }
    }
  }

  /** The sealed subjects are exactly the history of what was stored at the seals. */
  lemma {:induction false} SubjectsAreHistory(s: State, steps: seq<Step>, x: Subject)
    requires Consistent(s) && EnabledRun(s, steps)
    ensures (exists k :: Seal(k, x) in Run(s, steps).seals) <==>
            (exists k :: Seal(k, x) in s.seals) || x in StoredAtSeals(s, steps)
    decreases |steps|
  {
    if steps != [] {
      StepKeepsBoundary(s, steps[0]);
      if TakesSeal(s, steps[0]) {
        SealRaisesCeiling(s, steps[0].c, 0);
      }
      SubjectsAreHistory(Next(s, steps[0]), steps[1..], x);
    }
  }

  /** Admission read off the history: starting from a database no restore has
      touched, an ordinary job is admitted exactly when nothing is pending, every
      checkpoint opened was sealed, and (once there is a checkpoint) its task is
      neither held nor cleanup, its id is above everything queued at any seal, and
      each of its references is well formed and names nothing stored at any seal. */
  lemma AdmissionIsHistory(
      s: State, steps: seq<Step>, recoveryMode: bool, job: Job, parse: string -> Option<Uuid>)
    requires Pristine(s) && EnabledRun(s, steps) && job.task !in RECOVERY_TASKS
    ensures var last := Run(s, steps);
            Admits(last, recoveryMode, job, parse) <==>
            && Quiet(last, recoveryMode)
            && (forall c :: c in last.checkpoints ==> c in last.fences)
            && (last.checkpoints != map[] ==>
                  && job.task !in HELD_TASKS && !IsCleanup(job.task)
                  && job.id.Some? && 0 < job.id.value
                  && AllBelow(QueuedAtSeals(s, steps), job.id.value)
                  && forall i :: 0 <= i < |job.kwargs| ==>
                       && Resolvable(job.task, job.kwargs[i])
                       && forall r :: r in ReferencesOf(job.kwargs[i]) ==>
                            && r.1.Text? && parse(r.1.text).Some?
                            && Subject(r.0, parse(r.1.text).value) !in StoredAtSeals(s, steps))
  {
    var last := Run(s, steps);
    var id := if job.id.Some? then job.id.value else 0;
    CeilingsAreHistory(s, steps, id);
    if (forall c :: c in last.checkpoints ==> c in last.fences) {
      if last.checkpoints != map[] {
        var c :| c in last.checkpoints;
        assert c in last.fences;
      }
      if last.fences != map[] {
        var c :| c in last.fences;
        assert c in last.checkpoints;
      }
      assert last.fences != map[] <==> last.checkpoints != map[];
    }
    forall i, r | 0 <= i < |job.kwargs| && r in ReferencesOf(job.kwargs[i])
      ensures FreshReference(last, r.0, r.1, parse) <==>
              r.1.Text? && parse(r.1.text).Some? && Subject(r.0, parse(r.1.text).value) !in StoredAtSeals(s, steps)
    {
      if r.1.Text? && parse(r.1.text).Some? {
        var x := Subject(r.0, parse(r.1.text).value);
        SubjectsAreHistory(s, steps, x);
        if k :| Seal(k, x) in last.seals {
          assert Seal(k, x).subject == x;
        }
        if y :| y in last.seals && y.subject == x {
          assert Seal(y.checkpoint, x) in last.seals;
        }
      }
    }
    forall i | 0 <= i < |job.kwargs| && Resolvable(job.task, job.kwargs[i])
      ensures ArgumentAdmitted(last, job.task, job.kwargs[i], parse) <==>
              forall r :: r in ReferencesOf(job.kwargs[i]) ==> FreshReference(last, r.0, r.1, parse)
    {
      ArgumentAdmittedByReferences(last, job.task, job.kwargs[i], parse);
    }
  }

  // ---------------------------------------------------------------- in the words of the tables

  /** Some argument of that name is a text that reads as `id`. */
  ghost predicate Passes(job: Job, name: string, id: Uuid, parse: string -> Option<Uuid>) {
    exists i, text :: 0 <= i < |job.kwargs| && job.kwargs[i] == (name, Text(text)) && parse(text) == Some(id)
  }

  /** Some item of a list argument of that name is a text that reads as `id`. */
  ghost predicate Lists(job: Job, name: string, id: Uuid, parse: string -> Option<Uuid>) {
    exists i, text :: 0 <= i < |job.kwargs| && job.kwargs[i].0 == name && job.kwargs[i].1.Items?
                      && Text(text) in job.kwargs[i].1.items && parse(text) == Some(id)
  }

  /** The job is given the identifier of this row by one of the arguments that the tasks
      use for rows of its table. */
  ghost predicate Reaches(job: Job, row: Row, parse: string -> Option<Uuid>) {
    || (row.table == "operations" && !("recovery." <= row.kind)
        && (Passes(job, "operation_id", row.id, parse) || Passes(job, "search_id", row.id, parse)
            || Lists(job, "operation_ids", row.id, parse)))
    || (row.table == "download_attempts" && Passes(job, "attempt_id", row.id, parse))
    || (row.table == "download_recoveries" && Passes(job, "recovery_id", row.id, parse))
    || (row.table == "automatic_imports" && Passes(job, "automatic_id", row.id, parse))
    || (row.table == "automatic_import_continuations" && Passes(job, "continuation_id", row.id, parse))
    || (row.table == "works" && Passes(job, "work_id", row.id, parse))
  }

  lemma PassedIsNamed(job: Job, name: string, kind: string, id: Uuid, parse: string -> Option<Uuid>)
    requires Passes(job, name, id, parse) && name != "operation_ids"
    requires Addresses(name) && name in SUBJECT_ARGUMENTS && SUBJECT_ARGUMENTS[name] == kind
    ensures Names(job, Subject(kind, id), parse)
  {
    var i, text :| 0 <= i < |job.kwargs| && job.kwargs[i] == (name, Text(text)) && parse(text) == Some(id);
    assert ReferencesOf(job.kwargs[i])[0] == (kind, Text(text));
    assert (kind, Text(text)) in ReferencesOf(job.kwargs[i]);
  }

  lemma ListedIsNamed(job: Job, id: Uuid, parse: string -> Option<Uuid>)
    requires Lists(job, "operation_ids", id, parse)
    ensures Names(job, Subject("operation", id), parse)
  {
    var i, text :| 0 <= i < |job.kwargs| && job.kwargs[i].0 == "operation_ids" && job.kwargs[i].1.Items?
                   && Text(text) in job.kwargs[i].1.items && parse(text) == Some(id);
    var items := job.kwargs[i].1.items;
    var k :| 0 <= k < |items| && items[k] == Text(text);
    assert ReferencesOf(job.kwargs[i])[k] == ("operation", Text(text));
    assert ("operation", Text(text)) in ReferencesOf(job.kwargs[i]);
  }

  lemma SubjectNamesAddress(name: string)
    requires name in {
               "operation_id", "search_id", "attempt_id", "recovery_id", "automatic_id", "continuation_id", "work_id"}
    ensures Addresses(name) && name != "operation_ids"
  {
    assert EndsWith("operation_id", "_id") && EndsWith("search_id", "_id") && EndsWith("attempt_id", "_id");
    assert EndsWith("recovery_id", "_id") && EndsWith("automatic_id", "_id") && EndsWith("continuation_id", "_id");
    assert EndsWith("work_id", "_id");
  }

  /** The tables that tasks address, and the kinds their rows are sealed under. */
  lemma AddressedTables(row: Row)
    ensures row.table == "operations" ==>
              (Sealable(row) <==> !("recovery." <= row.kind)) && SubjectOf(row).kind == "operation"
    ensures row.table == "download_attempts" ==> Sealable(row) && SubjectOf(row).kind == "download-attempt"
    ensures row.table == "download_recoveries" ==> Sealable(row) && SubjectOf(row).kind == "download-recovery"
    ensures row.table == "automatic_imports" ==> Sealable(row) && SubjectOf(row).kind == "automatic-import"
    ensures row.table == "automatic_import_continuations" ==>
              Sealable(row) && SubjectOf(row).kind == "import-continuation"
    ensures row.table == "works" ==> Sealable(row) && SubjectOf(row).kind == "work"
  {
  }

  lemma OperationIsNamed(job: Job, id: Uuid, parse: string -> Option<Uuid>)
    requires Passes(job, "operation_id", id, parse) || Passes(job, "search_id", id, parse)
             || Lists(job, "operation_ids", id, parse)
    ensures Names(job, Subject("operation", id), parse)
  {
    SubjectNamesAddress("operation_id");
    SubjectNamesAddress("search_id");
    if Lists(job, "operation_ids", id, parse) {
      ListedIsNamed(job, id, parse);
    } else if Passes(job, "operation_id", id, parse) {
      PassedIsNamed(job, "operation_id", "operation", id, parse);
    } else {
      PassedIsNamed(job, "search_id", "operation", id, parse);
    }
  }

  lemma RecordIsNamed(job: Job, name: string, kind: string, id: Uuid, parse: string -> Option<Uuid>)
    requires Passes(job, name, id, parse) && (name, kind) in {
               ("attempt_id", "download-attempt"), ("recovery_id", "download-recovery"),
               ("automatic_id", "automatic-import"), ("continuation_id", "import-continuation"), ("work_id", "work")}
    ensures Names(job, Subject(kind, id), parse)
  {
    SubjectNamesAddress(name);
    PassedIsNamed(job, name, kind, id, parse);
  }

  lemma ReachedIsNamed(job: Job, row: Row, parse: string -> Option<Uuid>)
    requires Reaches(job, row, parse)
    ensures Sealable(row) && Names(job, SubjectOf(row), parse)
  {
    AddressedTables(row);
    if row.table == "operations" {
      OperationIsNamed(job, row.id, parse);
    } else {
      var name := if row.table == "download_attempts" then "attempt_id"
                  else if row.table == "download_recoveries" then "recovery_id"
                  else if row.table == "automatic_imports" then "automatic_id"
                  else if row.table == "automatic_import_continuations" then "continuation_id" else "work_id";
      RecordIsNamed(job, name, SubjectOf(row).kind, row.id, parse);
    }
  }

  /** The safety of a restore in the words of the tables and the tasks' arguments: after
      a seal and any run, no ordinary job that is admitted is given the identifier of a
      row that was stored at the seal, by the argument its task uses for that table. */
  lemma RestoredRowsAreOutOfReach(
      s: State, c: Uuid, steps: seq<Step>, recoveryMode: bool, job: Job, parse: string -> Option<Uuid>, row: Row)
    requires c in s.checkpoints && s.checkpoints[c] && c !in s.fences && !IsRecovery(job.task)
    requires Admits(Run(Sealed(s, c), steps), recoveryMode, job, parse) && row in s.rows
    ensures !Reaches(job, row, parse)
  {
    RestoredWorkNeverRuns(s, c, steps, recoveryMode, job, parse);
    if Reaches(job, row, parse) {
      ReachedIsNamed(job, row, parse);
    }
  }

  /** Under which kind a row of a table is sealed, and which rows are not. */
  ghost predicate SealedAs(row: Row, kind: string) {
    || (row.table == "operations" && !("recovery." <= row.kind) && kind == "operation")
    || (row.table == "download_attempts" && kind == "download-attempt")
    || (row.table == "download_recoveries" && kind == "download-recovery")
    || (row.table == "automatic_imports" && kind == "automatic-import")
    || (row.table == "automatic_import_continuations" && kind == "import-continuation")
    || (row.table == "works" && kind == "work")
    || (row.table == "acquisition_selections" && kind == "selection")
    || (row.table == "frozen_import_plans" && kind == "import-plan")
    || (row.table == "list_csv_imports" && kind == "csv-preview")
  }

  lemma SealedAsItsSubject(row: Row, kind: string)
    ensures SealedAs(row, kind) <==> Sealable(row) && SubjectOf(row).kind == kind
  {
  }

  /** The first seal of an active checkpoint, table by table. */
  lemma SealReadsTables(s: State, c: Uuid, x: Subject)
    requires IsActive(s, c) && c !in s.fences
    ensures Seal(c, x) in Sealed(s, c).seals <==>
            Seal(c, x) in s.seals || exists row :: row in s.rows && SealedAs(row, x.kind) && row.id == x.id
  {
    forall row | row in s.rows
      ensures SealedAs(row, x.kind) && row.id == x.id <==> Sealable(row) && SubjectOf(row) == x
    {
      SealedAsItsSubject(row, x.kind);
    }
  }

  /** The fence records how many records of each kind its seal added. */
  lemma SealCountsKinds(s: State, c: Uuid, kind: string)
    requires IsActive(s, c) && c !in s.fences
    ensures var t := Sealed(s, c);
            var added := set x | x in t.seals && x !in s.seals && x.subject.kind == kind;
            && (kind in t.fences[c].subjectCounts <==> added != {})
            && (added != {} ==> t.fences[c].subjectCounts[kind] == |added|)
  {
    var inserted := (set x | x in Subjects(s.rows) :: Seal(c, x)) - s.seals;
    var t := Sealed(s, c);
    assert t.seals - s.seals == inserted;
    var added := set x | x in t.seals && x !in s.seals && x.subject.kind == kind;
    assert added == set x | x in inserted && x.subject.kind == kind;
    if kind in KindsOf(inserted) {
      var x :| x in inserted && x.subject.kind == kind;
      assert x in added;
    }
    if x :| x in added {
      assert x in inserted;
    }
  }

  /** A text that reads as an identifier of that kind which nothing has sealed. */
  ghost predicate NeverSealed(s: State, kind: string, value: Value, parse: string -> Option<Uuid>) {
    && value.Text? && parse(value.text).Some?
    && forall c :: Seal(c, Subject(kind, parse(value.text).value)) !in s.seals
  }

  /** What the fence asks of one argument, name by name. */
  ghost predicate Harmless(s: State, task: string, arg: (string, Value), parse: string -> Option<Uuid>) {
    var (name, value) := arg;
    if name == "operation_ids" then
      && task == "organization.confirm-batch" && value.Items? && 1 <= |value.items| <= 20
      && forall item :: item in value.items ==> NeverSealed(s, "operation", item, parse)
    else if name == "operation_id" || name == "search_id" then NeverSealed(s, "operation", value, parse)
    else if name == "attempt_id" then NeverSealed(s, "download-attempt", value, parse)
    else if name == "recovery_id" then NeverSealed(s, "download-recovery", value, parse)
    else if name == "automatic_id" then NeverSealed(s, "automatic-import", value, parse)
    else if name == "continuation_id" then NeverSealed(s, "import-continuation", value, parse)
    else if name == "work_id" then NeverSealed(s, "work", value, parse)
    else name == "user_id" || |name| < 3 || name[|name| - 3..] != "_id"
  }

  lemma NeverSealedIsFresh(s: State, kind: string, value: Value, parse: string -> Option<Uuid>)
    ensures NeverSealed(s, kind, value, parse) <==> FreshReference(s, kind, value, parse)
  {
    if value.Text? && parse(value.text).Some? {
      var x := Subject(kind, parse(value.text).value);
      if y :| y in s.seals && y.subject == x {
        assert Seal(y.checkpoint, x) == y;
      }
      if c :| Seal(c, x) in s.seals {
        assert Seal(c, x).subject == x;
      }
    }
  }

  lemma ArgumentsSpelled(s: State, task: string, arg: (string, Value), parse: string -> Option<Uuid>)
    ensures ArgumentAdmitted(s, task, arg, parse) <==> Harmless(s, task, arg, parse)
  {
    forall kind, value ensures NeverSealed(s, kind, value, parse) <==> FreshReference(s, kind, value, parse) {
      NeverSealedIsFresh(s, kind, value, parse);
    }
    if arg.0 in SUBJECT_ARGUMENTS {
      SubjectNamesAddress(arg.0);
    }
  }

  /** Tasks of the restore itself, by name. */
  ghost predicate IsRecovery(task: string) {
    || task == "recovery.scan" || task == "recovery.reconcile" || task == "recovery.inventory"
    || task == "recovery.publication" || task == "recovery.lists" || task == "recovery.outbound"
    || task == "recovery.commands" || task == "recovery.access" || task == "recovery.connections"
    || task == "recovery.sources" || task == "recovery.source-test"
  }

  /** Once something was sealed, the whole decision in literal terms: which tasks, which
      job ids and which arguments pass. */
  lemma DecisionSpelled(s: State, recoveryMode: bool, job: Job, parse: string -> Option<Uuid>)
    ensures IsRecovery(job.task) ==>
              (Admits(s, recoveryMode, job, parse) <==> exists c :: c in s.checkpoints && s.checkpoints[c])
    ensures !IsRecovery(job.task) && s.fences != map[] ==>
              (Admits(s, recoveryMode, job, parse) <==>
                && !recoveryMode && !s.pendingSetting
                && (forall c :: c in s.checkpoints ==> !s.checkpoints[c] && c in s.fences)
                && (forall c :: c in s.fences ==> s.fences[c].approvalVersion == 1)
                && job.task != "discovery.refresh" && job.task != "organization.ebook-companions"
                && !("procrastinate." <= job.task) && !("builtin:" <= job.task)
                && job.id.Some? && (forall c :: c in s.fences ==> s.fences[c].jobIdThrough < job.id.value)
                && forall i :: 0 <= i < |job.kwargs| ==> Harmless(s, job.task, job.kwargs[i], parse))
    ensures !IsRecovery(job.task) && s.fences == map[] ==>
              (Admits(s, recoveryMode, job, parse) <==> !recoveryMode && !s.pendingSetting && s.checkpoints == map[])
  {
    assert IsRecovery(job.task) <==> job.task in RECOVERY_TASKS;
    forall i | 0 <= i < |job.kwargs|
      ensures ArgumentAdmitted(s, job.task, job.kwargs[i], parse) <==> Harmless(s, job.task, job.kwargs[i], parse)
    {
      ArgumentsSpelled(s, job.task, job.kwargs[i], parse);
    }
    if c :| c in s.checkpoints && s.checkpoints[c] {
      assert IsActive(s, c);
    }
  }

  /** What the other steps do to the stored state: each touches its own table. */
  lemma StepsSpelled(s: State, id: nat, row: Row, c: Uuid, active: bool)
    ensures forall j :: j in Next(s, Enqueue(id)).jobs <==> j == id || j in s.jobs
    ensures forall j :: j in Next(s, DeleteJob(id)).jobs <==> j != id && j in s.jobs
    ensures forall r :: r in Next(s, StoreRow(row)).rows <==> r == row || r in s.rows
    ensures forall r :: r in Next(s, DeleteRow(row)).rows <==> r != row && r in s.rows
    ensures forall k :: IsActive(Next(s, SetActive(c, active)), k) <==> if k == c then active else IsActive(s, k)
    ensures Next(s, OpenCheckpoint(c)) == Next(s, SetActive(c, true))
    ensures forall step :: step in [Enqueue(id), DeleteJob(id), StoreRow(row), DeleteRow(row), SetPending(active)] ==>
              Next(s, step).(jobs := s.jobs, rows := s.rows, pendingSetting := s.pendingSetting) == s
  {
  }
}
