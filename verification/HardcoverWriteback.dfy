/** Narrow list write-back (services/app/adapters/hardcover_writeback.py): the
    decision taken from two observations, the reading of a mutation reply, and the
    protocol they form with the caller (services/app/domain/list_writeback.py) and a
    server that may lose requests or act on them late. */
module HardcoverWriteback {
  import opened Outcomes

  datatype Membership = Membership(id: int, listId: int, bookId: int, edition: Option<int>)

  datatype Observation = Observation(listId: int, ownerId: int, bookId: int, memberships: seq<Membership>)

  datatype Decision = Confirmed | Add | Remove(entry: int) | Conflict | Reconcile

  const MAX_MEMBERSHIPS := 100

  predicate Ascending(ms: seq<Membership>) {
    forall i, j :: 0 <= i < j < |ms| ==> ms[i].id < ms[j].id
  }

  predicate HasId(ms: seq<Membership>, id: int) {
    exists m :: m in ms && m.id == id
  }

  predicate Coherent(o: Observation) {
    && |o.memberships| <= 100
    && Ascending(o.memberships)
    && forall m :: m in o.memberships ==> m.listId == o.listId && m.bookId == o.bookId
  }

  predicate SameTarget(a: Observation, b: Observation) {
    a.listId == b.listId && a.ownerId == b.ownerId && a.bookId == b.bookId
  }

  /** One narrow effect from two complete observations. With coherent observations,
      looking an id up in the base and comparing is membership in the base. */
  function Decide(base: Observation, current: Observation, desired: bool, uncertain: bool): (d: Decision)
    ensures d.Add? <==>
              && desired && !uncertain
              && base.listId == current.listId && base.ownerId == current.ownerId && base.bookId == current.bookId
              && base.memberships == [] == current.memberships
    ensures d.Remove? <==>
              && !desired && !uncertain && current.memberships != []
              && base.listId == current.listId && base.ownerId == current.ownerId && base.bookId == current.bookId
              && forall m :: m in current.memberships ==> m in base.memberships
    ensures d.Remove? && Ascending(current.memberships) ==>
              && (exists m :: m in current.memberships && m.id == d.entry)
              && forall m :: m in current.memberships ==> d.entry <= m.id
    ensures d == Reconcile <==>
              && uncertain && (desired <==> current.memberships == [])
              && base.listId == current.listId && base.ownerId == current.ownerId && base.bookId == current.bookId
              && forall m :: m in current.memberships ==> m in base.memberships
    ensures d == Confirmed <==>
              && (desired <==> current.memberships != [])
              && base.listId == current.listId && base.ownerId == current.ownerId && base.bookId == current.bookId
  {
    if !SameTarget(base, current) then Conflict
    else if desired && current.memberships != [] then Confirmed
    else if !desired && current.memberships == [] then Confirmed
    else if exists m :: m in current.memberships && m !in base.memberships then Conflict
    else if uncertain then Reconcile
    else if desired then if base.memberships != [] then Conflict else Add
    else Remove(current.memberships[0].id)
  }

  // ---------------------------------------------------------------- replies

  datatype Errors = NoErrors | Coded(codes: seq<Option<string>>) | Unreadable

  /** The field of the reply that belongs to the operation. */
  datatype Outcome = Missing | Record(id: Option<int>, listId: Option<int>, entry: Option<Membership>) | Malformed

  datatype Reply =
    | Refused(mayHaveApplied: bool)
    | TransportFailed
    | NotAnObject
    | Answer(errors: Errors, otherError: bool, outcome: Outcome)

  datatype Sent = Acknowledged(id: int) | Rejected | Uncertain

  const DENIALS: set<string> := {"access-denied", "permission-error", "insufficient_scope"}

  predicate Positive(id: Option<int>) {
    id.Some? && 1 <= id.value <= 2147483647
  }

  predicate Plannable(o: Observation, d: Decision) {
    (d.Add? && o.memberships == []) || (d.Remove? && HasId(o.memberships, d.entry))
  }

  /** Errors that all say that permission is missing. */
  predicate Denied(errors: Errors) {
    errors.Coded? && errors.codes != []
    && forall c :: c in errors.codes ==> c.Some? && c.value in DENIALS
  }

  /** A reply that says for certain that nothing was done: the transport knows that
      nothing was sent, or there is no result and every one of the errors says that
      permission is missing. */
  predicate Declines(reply: Reply) {
    || reply == Refused(false)
    || (reply.Answer? && reply.outcome.Missing? && reply.errors.Coded? && |reply.errors.codes| > 0
        && forall i :: 0 <= i < |reply.errors.codes| ==>
             || reply.errors.codes[i] == Some("access-denied")
             || reply.errors.codes[i] == Some("permission-error")
             || reply.errors.codes[i] == Some("insufficient_scope"))
  }

  /** A reply without any error that names exactly what was asked for. */
  predicate Confirms(o: Observation, d: Decision, reply: Reply, id: int) {
    && reply.Answer? && (reply.errors.NoErrors? || reply.errors == Coded([])) && !reply.otherError
    && reply.outcome.Record? && reply.outcome.id == Some(id) && 1 <= id <= 2147483647
    && if d.Add? then
         reply.outcome.entry.Some?
         && var e := reply.outcome.entry.value; e.id == id && e.listId == o.listId && e.bookId == o.bookId
       else d == Remove(id) && reply.outcome.listId == Some(o.listId) && 1 <= o.listId <= 2147483647
  }

  function ReadReply(o: Observation, d: Decision, reply: Reply): Sent
    requires Plannable(o, d)
  {
    match reply
    case Refused(may) => if may then Uncertain else Rejected
    case TransportFailed => Uncertain
    case NotAnObject => Uncertain
    case Answer(errors, otherError, outcome) =>
      if outcome.Missing? && Denied(errors) then Rejected
      else if errors.Unreadable? || (errors.Coded? && errors.codes != []) || otherError then Uncertain
      else if !outcome.Record? || !Positive(outcome.id) then Uncertain
      else if d.Add? then
        if outcome.entry.Some? && outcome.entry.value.id == outcome.id.value
           && outcome.entry.value.listId == o.listId && outcome.entry.value.bookId == o.bookId
        then Acknowledged(outcome.id.value) else Uncertain
      else if outcome.id.value == d.entry && Positive(outcome.listId) && outcome.listId.value == o.listId
      then Acknowledged(outcome.id.value) else Uncertain
  }

  /** The reply a correct server gives after applying `d`, for any assigned id. */
  function Confirmation(o: Observation, d: Decision, id: int): Reply
    requires Plannable(o, d)
  {
    if d.Add? then
      Answer(NoErrors, false, Record(Some(id), None, Some(Membership(id, o.listId, o.bookId, None))))
    else Answer(NoErrors, false, Record(Some(d.entry), Some(o.listId), None))
  }

  /** A correct confirmation is acknowledged, and a reply is acknowledged exactly when
      it confirms the planned change, rejected exactly when it declines it, and left
      uncertain otherwise: any other error, and any doubt about what was changed. */
  lemma RepliesAreReadStrictly(o: Observation, d: Decision, reply: Reply, id: int)
    requires Plannable(o, d)
    ensures ReadReply(o, d, reply) == Acknowledged(id) <==> Confirms(o, d, reply, id)
    ensures ReadReply(o, d, reply) == Rejected <==> Declines(reply)
    ensures 1 <= o.listId <= 2147483647 && 1 <= (if d.Add? then id else d.entry) <= 2147483647 ==>
              ReadReply(o, d, Confirmation(o, d, id)) == Acknowledged(if d.Add? then id else d.entry)
    ensures !Declines(Confirmation(o, d, id))
  {
    if reply.Answer? && reply.errors.Coded? {
      DenialSpelled(reply.errors.codes);
    }
  }

  /** Every error must be a denial: one other error, or one without a code, is a doubt. */
  lemma DenialSpelled(codes: seq<Option<string>>)
    ensures Denied(Coded(codes)) <==>
            |codes| > 0 && forall i :: 0 <= i < |codes| ==>
              codes[i] in {Some("access-denied"), Some("permission-error"), Some("insufficient_scope")}
  {
    if Denied(Coded(codes)) {
      assert forall i :: 0 <= i < |codes| ==> codes[i] in codes;
    }
  }

  // ---------------------------------------------------------------- protocol

  datatype Request = AddBook | RemoveEntry(entry: Membership)

  /** `remote` is the server's table in id order; `nextId` is above every id it ever
      assigned. `inflight` holds requests the server has not acted on. `added` and
      `removed` record the effects of this command's own requests. */
  datatype Protocol = Protocol(
    base: Observation, desired: bool,
    pending: Option<Request>, finished: bool, sent: seq<Request>,
    remote: seq<Membership>, owner: int, nextId: int,
    inflight: multiset<Request>, added: nat, removed: seq<int>)

  datatype Step =
    | Look
    | Act(request: Request)
    | Lose(request: Request)
    | Answered(request: Request, reply: Reply)
    | InsertOther(m: Membership)
    | DeleteOther(id: int)
    | Rebind(id: int, edition: Option<int>)
    | ChangeOwner(owner: int)

  function Matching(ms: seq<Membership>, listId: int, bookId: int): seq<Membership> {
    if ms == [] then []
    else (if ms[0].listId == listId && ms[0].bookId == bookId then [ms[0]] else []) + Matching(ms[1..], listId, bookId)
  }

  function Without(ms: seq<Membership>, id: int): seq<Membership> {
    if ms == [] then [] else (if ms[0].id == id then [] else [ms[0]]) + Without(ms[1..], id)
  }

  function Rebound(ms: seq<Membership>, id: int, edition: Option<int>): seq<Membership> {
    seq(|ms|, i requires 0 <= i < |ms| => if ms[i].id == id then ms[i].(edition := edition) else ms[i])
  }

  function Observed(s: Protocol): Observation {
    Observation(s.base.listId, s.owner, s.base.bookId, Matching(s.remote, s.base.listId, s.base.bookId))
  }

  /** An observed deletion of the attempted row settles a removal. */
  function Settled(s: Protocol): Option<Request> {
    if s.pending.Some? && s.pending.value.RemoveEntry? && !HasId(Observed(s).memberships, s.pending.value.entry.id)
    then None else s.pending
  }

  function Send(s: Protocol, request: Request): Protocol {
    s.(pending := Some(request), sent := s.sent + [request], inflight := s.inflight + multiset{request})
  }

  /** The caller's turn: read, settle, decide, persist the attempt and send. */
  function Looked(s: Protocol): Protocol {
    var current := Observed(s);
    match Decide(s.base, current, s.desired, Settled(s).Some?)
    case Confirmed => s.(finished := true, pending := None)
    case Add => Send(s, AddBook)
    case Remove(_) => Send(s, RemoveEntry(current.memberships[0]))
    case _ => s.(pending := Settled(s))
  }

  /** The server performs a request it holds. */
  function Acted(s: Protocol, request: Request): Protocol {
    var rest := s.inflight - multiset{request};
    match request
    case AddBook =>
      s.(inflight := rest, added := s.added + 1, nextId := s.nextId + 1,
         remote := s.remote + [Membership(s.nextId, s.base.listId, s.base.bookId, None)])
    case RemoveEntry(e) =>
      if HasId(s.remote, e.id)
      then s.(inflight := rest, remote := Without(s.remote, e.id), removed := s.removed + [e.id])
      else s.(inflight := rest)
  }

  /** What a request was planned on, as far as reading its reply looks at it. */
  function Planned(s: Protocol, request: Request): (plan: (Observation, Decision))
    ensures Plannable(plan.0, plan.1)
  {
    match request
    case AddBook => (Observation(s.base.listId, s.owner, s.base.bookId, []), Add)
    case RemoveEntry(e) =>
      assert e in [e];
      (Observation(s.base.listId, s.owner, s.base.bookId, [e]), Remove(e.id))
  }

  /** The server's side of a reply: a request that it declines it never performs. */
  function Discarded(s: Protocol, request: Request, reply: Reply): Protocol {
    if Declines(reply) then s.(inflight := s.inflight - multiset{request}) else s
  }

  /** The caller's side: the attempt is given up only when the reply is read as a
      definite rejection. */
  function Heard(s: Protocol, request: Request, reply: Reply): Protocol {
    var (o, d) := Planned(s, request);
    if ReadReply(o, d, reply).Rejected? then s.(pending := None) else s
  }

  /** The server is honest about declining: it declines only what it holds and has not
      performed. Any other reply may come at any time, whatever was done. */
  predicate Enabled(s: Protocol, step: Step) {
    match step
    case Look => !s.finished && |Observed(s).memberships| <= MAX_MEMBERSHIPS
    case Act(r) => r in s.inflight
    case Lose(r) => r in s.inflight
    case Answered(r, reply) => s.pending == Some(r) && (Declines(reply) ==> r in s.inflight)
    case InsertOther(m) => m.id == s.nextId
    case DeleteOther(id) => true
    case Rebind(id, edition) => true
    case ChangeOwner(owner) => true
  }

  function Next(s: Protocol, step: Step): Protocol
    requires Enabled(s, step)
  {
    match step
    case Look => Looked(s)
    case Act(r) => Acted(s, r)
    case Lose(r) => s.(inflight := s.inflight - multiset{r})
    case Answered(r, reply) => Heard(Discarded(s, r, reply), r, reply)
    case InsertOther(m) => s.(remote := s.remote + [m], nextId := s.nextId + 1)
    case DeleteOther(id) => s.(remote := Without(s.remote, id))
    case Rebind(id, edition) => s.(remote := Rebound(s.remote, id, edition))
    case ChangeOwner(owner) => s.(owner := owner)
  }

  ghost predicate Reaches(s: Protocol, steps: seq<Step>, t: Protocol)
    decreases |steps|
  {
    if steps == [] then s == t else Enabled(s, steps[0]) && Reaches(Next(s, steps[0]), steps[1..], t)
  }

  /** A command just begun on an observation of the server's table. */
  ghost predicate Begins(s: Protocol) {
    && Coherent(s.base) && Ascending(s.remote) && SameRows(s.base, s.remote)
    && (forall m :: m in s.remote ==> m.id < s.nextId)
    && (forall m :: m in s.base.memberships ==> m.id < s.nextId)
    && s.pending.None? && !s.finished && s.sent == [] && s.inflight == multiset{} && s.added == 0 && s.removed == []
  }

  /** Ids are never reused, so a row with the id of a base entry is that entry, with
      at most its edition changed. */
  ghost predicate SameRows(base: Observation, remote: seq<Membership>) {
    forall b, m :: b in base.memberships && m in remote && b.id == m.id ==> b.listId == m.listId && b.bookId == m.bookId
  }

  /** The request can no longer have an effect: its row is gone for good. */
  ghost predicate Dead(s: Protocol, r: Request) {
    r.RemoveEntry? && r.entry.id < s.nextId && !HasId(s.remote, r.entry.id)
  }

  ghost predicate TableOk(s: Protocol) {
    && Coherent(s.base) && Ascending(s.remote) && SameRows(s.base, s.remote)
    && (forall m :: m in s.remote ==> m.id < s.nextId)
    && (forall m :: m in s.base.memberships ==> m.id < s.nextId)
    && (forall i, j :: 0 <= i < j < |s.removed| ==> s.removed[i] != s.removed[j])
    && (forall id :: id in s.removed ==> HasId(s.base.memberships, id) && !HasId(s.remote, id))
  }

  ghost predicate RequestOk(s: Protocol, r: Request) {
    match r
    case AddBook => s.desired && s.base.memberships == []
    case RemoveEntry(e) => !s.desired && e in s.base.memberships
  }

  ghost predicate FlightOk(s: Protocol) {
    && (forall r :: r in s.sent ==> RequestOk(s, r))
    && (forall r :: r in s.inflight ==> r in s.sent)
    && (s.pending.Some? ==> s.pending.value in s.sent)
    && s.added + s.inflight[AddBook] <= 1
    && (!s.finished && s.pending != Some(AddBook) ==> s.added + s.inflight[AddBook] == 0)
    && (!s.finished ==> forall r :: r in s.inflight && s.pending != Some(r) ==> Dead(s, r))
    && (s.pending.Some? ==> s.inflight[s.pending.value] <= 1)
  }

  ghost predicate Invariant(s: Protocol) {
    TableOk(s) && FlightOk(s)
  }

  /** No row of `later` is new: each is a row of `earlier` up to its edition. */
  ghost predicate Descends(earlier: seq<Membership>, later: seq<Membership>) {
    && (Ascending(earlier) ==> Ascending(later))
    && forall m :: m in later ==>
         exists k :: k in earlier && k.id == m.id && k.listId == m.listId && k.bookId == m.bookId
  }

  lemma {:induction false} MatchingFacts(ms: seq<Membership>, listId: int, bookId: int)
    ensures forall m :: m in Matching(ms, listId, bookId) <==> m in ms && m.listId == listId && m.bookId == bookId
    ensures Ascending(ms) ==> Ascending(Matching(ms, listId, bookId))
  {
    if ms != [] {
      MatchingFacts(ms[1..], listId, bookId);
      assert forall m :: m in ms <==> m == ms[0] || m in ms[1..];
    }
  }

  lemma {:induction false} WithoutFacts(ms: seq<Membership>, id: int)
    ensures forall m :: m in Without(ms, id) <==> m in ms && m.id != id
    ensures Ascending(ms) ==> Ascending(Without(ms, id))
  {
    if ms != [] {
      WithoutFacts(ms[1..], id);
      assert forall m :: m in ms <==> m == ms[0] || m in ms[1..];
    }
  }

  lemma SettleKeeps(s: Protocol)
    requires Invariant(s) && !s.finished
    ensures Invariant(s.(pending := Settled(s)))
  {
    if Settled(s) != s.pending {
      var e := s.pending.value.entry;
      MatchingFacts(s.remote, s.base.listId, s.base.bookId);
      assert RequestOk(s, s.pending.value);
      assert forall m :: m in s.remote && m.id == e.id ==> m in Observed(s).memberships;
      assert Dead(s, s.pending.value);
    }
  }

  lemma SendKeeps(s: Protocol, r: Request)
    requires Invariant(s) && !s.finished && s.pending.None?
    requires RequestOk(s, r) && !Dead(s, r)
    ensures Invariant(Send(s, r))
  {
    assert s.inflight[r] == 0;
    var t := Send(s, r);
    assert forall q :: q in t.inflight ==> q in s.inflight || q == r;
    assert forall q :: q in t.sent ==> q in s.sent || q == r;
    forall q | q in t.inflight && t.pending != Some(q) ensures Dead(t, q) {
      assert q in s.inflight;
    }
  }

  lemma LookKeeps(s: Protocol)
    requires Invariant(s) && Enabled(s, Look)
    ensures Invariant(Looked(s))
  {
    var current := Observed(s).memberships;
    MatchingFacts(s.remote, s.base.listId, s.base.bookId);
    SettleKeeps(s);
    var settled := s.(pending := Settled(s));
    match Decide(s.base, Observed(s), s.desired, Settled(s).Some?)
    case Confirmed =>
    case Add => SendKeeps(settled, AddBook);
    case Remove(_) =>
      assert current[0] in current && HasId(s.remote, current[0].id);
      SendKeeps(settled, RemoveEntry(current[0]));
    case _ =>
  }

  lemma DeadStaysDead(s: Protocol, t: Protocol, r: Request)
    requires Dead(s, r) && s.nextId <= t.nextId
    requires Descends(s.remote, t.remote)
      || (s.nextId < t.nextId && exists m: Membership :: m.id == s.nextId && t.remote == s.remote + [m])
    ensures Dead(t, r)
  {
    assert !HasId(s.remote, r.entry.id);
  }

  lemma TableDescends(s: Protocol, t: Protocol)
    requires TableOk(s) && t.base == s.base && t.nextId == s.nextId && Descends(s.remote, t.remote)
    requires t.removed == s.removed
      || exists id :: t.removed == s.removed + [id] && HasId(s.base.memberships, id) && HasId(s.remote, id)
           && !HasId(t.remote, id)
    ensures TableOk(t)
  {
    forall id | id in s.removed ensures !HasId(t.remote, id) {
      assert !HasId(s.remote, id);
    }
  }

  lemma TableGrows(s: Protocol, t: Protocol, m: Membership)
    requires TableOk(s) && t.base == s.base && t.removed == s.removed
    requires m.id == s.nextId && t.nextId == s.nextId + 1 && t.remote == s.remote + [m]
    ensures TableOk(t)
  {
    forall id | id in s.removed ensures !HasId(t.remote, id) {
      assert !HasId(s.remote, id) && HasId(s.base.memberships, id);
    }
  }

  lemma WithoutDescends(ms: seq<Membership>, id: int)
    ensures Descends(ms, Without(ms, id)) && !HasId(Without(ms, id), id)
  {
    WithoutFacts(ms, id);
  }

  lemma ReboundDescends(ms: seq<Membership>, id: int, edition: Option<int>)
    ensures Descends(ms, Rebound(ms, id, edition))
  {
    var later := Rebound(ms, id, edition);
    forall m | m in later ensures exists k :: k in ms && k.id == m.id && k.listId == m.listId && k.bookId == m.bookId {
      var i :| 0 <= i < |later| && later[i] == m;
      assert ms[i] in ms;
    }
  }

  /** Fewer requests in flight, and none more alive than before. */
  lemma FlightShrinks(s: Protocol, t: Protocol)
    requires FlightOk(s)
    requires t.base == s.base && t.desired == s.desired && t.finished == s.finished && t.sent == s.sent
    requires t.inflight <= s.inflight && s.added <= t.added
    requires t.added + t.inflight[AddBook] <= s.added + s.inflight[AddBook]
    requires t.pending == s.pending
      || (t.pending.None? && s.pending.Some? && t.inflight[s.pending.value] == 0
          && (s.pending == Some(AddBook) ==> t.added == 0))
    requires forall r :: Dead(s, r) ==> Dead(t, r)
    ensures FlightOk(t)
  {
  }

  lemma AddKeeps(s: Protocol)
    requires Invariant(s) && AddBook in s.inflight
    ensures Invariant(Acted(s, AddBook))
  {
    var t := Acted(s, AddBook);
    TableGrows(s, t, Membership(s.nextId, s.base.listId, s.base.bookId, None));
    forall q | Dead(s, q) ensures Dead(t, q) { DeadStaysDead(s, t, q); }
    FlightShrinks(s, t);
  }

  lemma RemoveTable(s: Protocol, e: Membership)
    requires Invariant(s) && RemoveEntry(e) in s.inflight
    ensures TableOk(Acted(s, RemoveEntry(e))) && Descends(s.remote, Acted(s, RemoveEntry(e)).remote)
  {
    assert RequestOk(s, RemoveEntry(e));
    WithoutDescends(s.remote, e.id);
    TableDescends(s, Acted(s, RemoveEntry(e)));
  }

  lemma RemoveKeeps(s: Protocol, e: Membership)
    requires Invariant(s) && RemoveEntry(e) in s.inflight
    ensures Invariant(Acted(s, RemoveEntry(e)))
  {
    var t := Acted(s, RemoveEntry(e));
    RemoveTable(s, e);
    forall q | Dead(s, q) ensures Dead(t, q) { DeadStaysDead(s, t, q); }
    FlightShrinks(s, t);
  }

  lemma ActKeeps(s: Protocol, r: Request)
    requires Invariant(s) && r in s.inflight
    ensures Invariant(Acted(s, r))
  {
    if r.AddBook? {
      AddKeeps(s);
    } else {
      RemoveKeeps(s, r.entry);
    }
  }

  /** The reading of replies matters here: were anything but a declined request given
      up, it could still be live when the next one is sent. */
  lemma AnsweredKeeps(s: Protocol, r: Request, reply: Reply)
    requires Invariant(s) && Enabled(s, Answered(r, reply))
    ensures Invariant(Next(s, Answered(r, reply)))
  {
    var t := Next(s, Answered(r, reply));
    var (o, d) := Planned(s, r);
    RepliesAreReadStrictly(o, d, reply, 0);
    if Declines(reply) {
      TableStays(s, t);
      FlightShrinks(s, t);
    } else {
      assert t == s;
    }
  }

  lemma TableStays(s: Protocol, t: Protocol)
    requires TableOk(s) && t.base == s.base && t.remote == s.remote && t.nextId == s.nextId && t.removed == s.removed
    ensures TableOk(t) && forall r :: Dead(s, r) ==> Dead(t, r)
  {
  }

  lemma OtherKeeps(s: Protocol, step: Step)
    requires Invariant(s) && Enabled(s, step) && !step.Look? && !step.Act? && !step.Answered?
    ensures Invariant(Next(s, step))
  {
    var t := Next(s, step);
    if step.InsertOther? {
      TableGrows(s, t, step.m);
    } else {
      if step.DeleteOther? {
        WithoutDescends(s.remote, step.id);
      } else if step.Rebind? {
        ReboundDescends(s.remote, step.id, step.edition);
      }
      assert Descends(s.remote, t.remote);
      TableDescends(s, t);
    }
    forall q | Dead(s, q) ensures Dead(t, q) { DeadStaysDead(s, t, q); }
    FlightShrinks(s, t);
  }

  /** Over every run: the book is added at most once, each deletion had an effect at
      most once and only on an entry of the base, and every request sent repeated an
      entry exactly as the base observed it. */
  lemma {:induction false} EffectsHappenAtMostOnce(s: Protocol, steps: seq<Step>, t: Protocol)
    requires Invariant(s) && Reaches(s, steps, t)
    ensures Invariant(t)
    ensures t.added <= 1
    ensures forall i, j :: 0 <= i < j < |t.removed| ==> t.removed[i] != t.removed[j]
    ensures forall id :: id in t.removed ==> HasId(t.base.memberships, id)
    ensures forall r :: r in t.sent ==>
              if t.desired then r == AddBook else r.RemoveEntry? && r.entry in t.base.memberships
    decreases |steps|
  {
    if steps != [] {
      var step := steps[0];
      if step.Look? {
        LookKeeps(s);
      } else if step.Act? {
        ActKeeps(s, step.request);
      } else if step.Answered? {
        AnsweredKeeps(s, step.request, step.reply);
      } else {
        OtherKeeps(s, step);
      }
      EffectsHappenAtMostOnce(Next(s, step), steps[1..], t);
    }
  }

  lemma BeginningIsSound(s: Protocol)
    requires Begins(s)
    ensures Invariant(s)
  {
  }

  /** Never a second send beside a live one: when a look sends, no earlier request
      that the server still holds can change anything any more. */
  lemma SendsOnlyWhenNothingIsLive(s: Protocol, r: Request)
    requires Invariant(s) && Enabled(s, Look) && Looked(s).sent != s.sent
    requires r in s.inflight
    ensures Settled(s).None?
    ensures Dead(s, r)
    ensures Acted(s, r).remote == s.remote && Acted(s, r).added == s.added && Acted(s, r).removed == s.removed
    ensures s.added == 0
  {
    SettleKeeps(s);
  }

  // ---------------------------------------------------------------- completion

  /** One undisturbed round: the caller looks, and the server acts on what it sent. */
  function Round(s: Protocol): Protocol {
    var looked := Looked(s);
    if looked.sent == s.sent then looked else Acted(looked, looked.sent[|looked.sent| - 1])
  }

  ghost predicate IteratesAt(step: Protocol -> Protocol, trace: seq<Protocol>, i: nat)
    requires i + 1 < |trace|
  {
    trace[i + 1] == step(trace[i])
  }

  ghost predicate Iterates(step: Protocol -> Protocol, trace: seq<Protocol>) {
    trace != [] && forall i: nat :: i + 1 < |trace| ==> IteratesAt(step, trace, i)
  }

  lemma IteratesPrepend(step: Protocol -> Protocol, s: Protocol, rest: seq<Protocol>)
    requires Iterates(step, rest) && rest[0] == step(s)
    ensures Iterates(step, [s] + rest)
  {
    forall i: nat | i + 1 < |[s] + rest| ensures IteratesAt(step, [s] + rest, i) {
      assert i > 0 ==> IteratesAt(step, rest, i - 1);
    }
  }

  lemma IteratesAppend(step: Protocol -> Protocol, trace: seq<Protocol>)
    requires Iterates(step, trace)
    ensures Iterates(step, trace + [step(trace[|trace| - 1])])
  {
    var whole := trace + [step(trace[|trace| - 1])];
    forall i: nat | i + 1 < |whole| ensures IteratesAt(step, whole, i) {
      assert i + 1 < |trace| ==> IteratesAt(step, trace, i);
    }
  }

  /** The states between consecutive undisturbed rounds. */
  ghost predicate Rounds(trace: seq<Protocol>) {
    Iterates(Round, trace)
  }

  /** The base minus the rows removed so far, in a table that holds nothing else of
      this book and list. */
  ghost predicate Draining(s: Protocol, k: nat) {
    && k <= |s.base.memberships|
    && Coherent(s.base) && !s.desired && !s.finished && s.owner == s.base.ownerId
    && Matching(s.remote, s.base.listId, s.base.bookId) == s.base.memberships[k..]
    && Ascending(s.remote)
    && (s.pending.Some? ==> s.pending.value.RemoveEntry? && !HasId(s.base.memberships[k..], s.pending.value.entry.id))
  }

  lemma {:induction false} MatchingWithout(ms: seq<Membership>, listId: int, bookId: int, id: int)
    ensures Matching(Without(ms, id), listId, bookId) == Without(Matching(ms, listId, bookId), id)
  {
    if ms != [] {
      MatchingWithout(ms[1..], listId, bookId, id);
      var rest := Without(ms[1..], id);
      var head := if ms[0].listId == listId && ms[0].bookId == bookId then [ms[0]] else [];
      assert Matching(ms, listId, bookId) == head + Matching(ms[1..], listId, bookId);
      if ms[0].id == id {
        assert Without(ms, id) == rest;
      } else {
        assert Without(ms, id) == [ms[0]] + rest && ([ms[0]] + rest)[1..] == rest;
        assert Matching([ms[0]] + rest, listId, bookId) == head + Matching(rest, listId, bookId);
      }
      var tail := Matching(ms[1..], listId, bookId);
      if head == [] {
        assert head + tail == tail && head + Matching(rest, listId, bookId) == Matching(rest, listId, bookId);
      } else {
        assert (head + tail)[1..] == tail && (head + tail)[0] == ms[0];
      }
    }
  }

  lemma WithoutHead(ms: seq<Membership>)
    requires ms != [] && Ascending(ms)
    ensures Without(ms, ms[0].id) == ms[1..]
  {
    WithoutAbsent(ms[1..], ms[0].id);
  }

  lemma {:induction false} WithoutAbsent(ms: seq<Membership>, id: int)
    requires forall i :: 0 <= i < |ms| ==> ms[i].id != id
    ensures Without(ms, id) == ms
  {
    if ms != [] {
      WithoutAbsent(ms[1..], id);
    }
  }

  /** What the caller does in a round: it sends the removal of the least entry left. */
  lemma LookSendsNext(s: Protocol, k: nat)
    requires Draining(s, k) && k < |s.base.memberships|
    ensures Looked(s) == Send(s, RemoveEntry(s.base.memberships[k]))
    ensures HasId(s.remote, s.base.memberships[k].id)
  {
    var rest := s.base.memberships[k..];
    assert Observed(s).memberships == rest && Settled(s).None?;
    assert forall m :: m in rest ==> m in s.base.memberships;
    MatchingFacts(s.remote, s.base.listId, s.base.bookId);
    assert rest[0] in rest;
  }

  /** What the server does in it: one row less of this book and list. */
  lemma ServedMatching(s: Protocol, k: nat)
    requires Draining(s, k) && k < |s.base.memberships|
    ensures var left := Without(s.remote, s.base.memberships[k].id);
            Matching(left, s.base.listId, s.base.bookId) == s.base.memberships[k + 1..]
  {
    var rest := s.base.memberships[k..];
    MatchingWithout(s.remote, s.base.listId, s.base.bookId, rest[0].id);
    WithoutHead(rest);
    assert rest[1..] == s.base.memberships[k + 1..];
  }

  lemma RoundIs(s: Protocol, k: nat)
    requires Draining(s, k) && k < |s.base.memberships|
    ensures var r := RemoveEntry(s.base.memberships[k]);
            Round(s) == Acted(Send(s, r), r)
  {
    LookSendsNext(s, k);
    var r := RemoveEntry(s.base.memberships[k]);
    assert Send(s, r).sent[|s.sent|] == r;
  }

  lemma RoundRemovesNext(s: Protocol, k: nat) returns (t: Protocol)
    requires Draining(s, k) && k < |s.base.memberships|
    ensures t == Round(s) && Draining(t, k + 1) && t.base == s.base
    ensures t.removed == s.removed + [s.base.memberships[k].id]
  {
    t := Round(s);
    RoundIs(s, k);
    LookSendsNext(s, k);
    ServedMatching(s, k);
    WithoutFacts(s.remote, s.base.memberships[k].id);
  }

  function Ids(ms: seq<Membership>): seq<int> {
    seq(|ms|, i requires 0 <= i < |ms| => ms[i].id)
  }

  /** From `s` to `t` the base entries from `k` on were removed, `n` of them, in order. */
  ghost predicate Drained(s: Protocol, t: Protocol, k: nat, n: nat) {
    && k + n <= |s.base.memberships|
    && Draining(t, k + n) && t.base == s.base
    && t.removed == s.removed + Ids(s.base.memberships[k..k + n])
  }

  lemma DrainedOneMore(s: Protocol, next: Protocol, t: Protocol, k: nat, n: nat)
    requires k < |s.base.memberships| && next.base == s.base
    requires next.removed == s.removed + [s.base.memberships[k].id]
    requires Drained(next, t, k + 1, n)
    ensures Drained(s, t, k, n + 1)
  {
    HeadId(s.base.memberships[..k + 1 + n], k);
    assert s.base.memberships[..k + 1 + n][k..] == s.base.memberships[k..k + 1 + n];
    assert s.base.memberships[..k + 1 + n][k + 1..] == s.base.memberships[k + 1..k + 1 + n];
  }

  lemma {:induction false} RoundsDrain(s: Protocol, k: nat, n: nat) returns (trace: seq<Protocol>)
    requires Draining(s, k) && n <= |s.base.memberships| - k
    ensures Rounds(trace) && |trace| == n + 1 && trace[0] == s && Drained(s, trace[n], k, n)
    decreases n
  {
    if n > 0 {
      var next := RoundRemovesNext(s, k);
      var rest := RoundsDrain(next, k + 1, n - 1);
      DrainedOneMore(s, next, rest[n - 1], k, n - 1);
      IteratesPrepend(Round, s, rest);
      trace := [s] + rest;
    } else {
      NoneDrained(s, k);
      trace := [s];
    }
  }

  lemma NoneDrained(s: Protocol, k: nat)
    requires Draining(s, k)
    ensures Drained(s, s, k, 0)
  {
    assert s.removed + Ids(s.base.memberships[k..k]) == s.removed;
  }

  lemma HeadId(ms: seq<Membership>, k: nat)
    requires k < |ms|
    ensures Ids(ms[k..]) == [ms[k].id] + Ids(ms[k + 1..])
  {
  }

  /** Each round deletes one entry of the base, in ascending id order, and the round
      after the last deletion confirms without sending anything. */
  ghost predicate RemovesAll(trace: seq<Protocol>) {
    && Rounds(trace) && |trace| == |trace[0].base.memberships| + 2
    && var last, end := trace[|trace| - 2], trace[|trace| - 1];
       && last.removed == Ids(trace[0].base.memberships) && !last.finished
       && end.finished && end.removed == last.removed && end.sent == last.sent
  }

  /** With no outside edits and every request served, a removal deletes each entry of
      the base once, in ascending id order, and is confirmed after exactly as many
      deletions as the base has entries. */
  lemma RemovalCompletes(s: Protocol)
    requires Draining(s, 0) && s.removed == []
    ensures exists trace :: Rounds(trace) && trace[0] == s && RemovesAll(trace)
  {
    var n := |s.base.memberships|;
    var trace := RoundsDrain(s, 0, n);
    assert s.base.memberships[0..n] == s.base.memberships;
    var whole := ConfirmingRound(trace);
    assert RemovesAll(whole);
  }

  /** One more round, after the last deletion, confirms. */
  lemma ConfirmingRound(trace: seq<Protocol>) returns (whole: seq<Protocol>)
    requires Rounds(trace)
    requires var last := trace[|trace| - 1]; Draining(last, |last.base.memberships|)
    ensures Rounds(whole) && |whole| == |trace| + 1 && whole[..|trace|] == trace
    ensures var last, end := trace[|trace| - 1], whole[|trace|];
            !last.finished && end.finished && end.removed == last.removed && end.sent == last.sent
  {
    EmptyConfirms(trace[|trace| - 1]);
    IteratesAppend(Round, trace);
    whole := trace + [Round(trace[|trace| - 1])];
  }

  lemma EmptyConfirms(t: Protocol)
    requires Draining(t, |t.base.memberships|)
    ensures Round(t).finished && Round(t).removed == t.removed && Round(t).sent == t.sent && !t.finished
  {
    assert Observed(t).memberships == [];
  }

  // ---------------------------------------------------------------- single runs, spelled out

  /** What others do to the table, row by row. */
  lemma OthersSpelled(s: Protocol, m: Membership, id: int, edition: Option<int>, owner: int)
    ensures m in Next(s, DeleteOther(id)).remote <==> m in s.remote && m.id != id
    ensures m in Next(s, Rebind(id, edition)).remote <==>
            (m in s.remote && m.id != id) || exists k :: k in s.remote && k.id == id && m == k.(edition := edition)
    ensures m.id == s.nextId ==>
              Next(s, InsertOther(m)) == s.(remote := s.remote + [m], nextId := s.nextId + 1)
    ensures Next(s, ChangeOwner(owner)) == s.(owner := owner)
    ensures Next(s, DeleteOther(id)) == s.(remote := Next(s, DeleteOther(id)).remote)
    ensures Next(s, Rebind(id, edition)) == s.(remote := Next(s, Rebind(id, edition)).remote)
  {
    WithoutFacts(s.remote, id);
    var later := Rebound(s.remote, id, edition);
    if m in later {
      var i :| 0 <= i < |later| && later[i] == m;
      assert s.remote[i] in s.remote;
    }
    if k :| k in s.remote && (if k.id == id then m == k.(edition := edition) else m == k) {
      var i :| 0 <= i < |s.remote| && s.remote[i] == k;
      assert later[i] == m;
    }
  }

  /** Sending puts exactly one more copy of the request in flight, marks it and lists it. */
  lemma SendSpelled(s: Protocol, r: Request, q: Request)
    ensures Send(s, r).inflight[q] == s.inflight[q] + (if q == r then 1 else 0)
    ensures Send(s, r).sent == s.sent + [r] && Send(s, r).pending == Some(r)
    ensures Send(s, r).remote == s.remote && Send(s, r).added == s.added && Send(s, r).removed == s.removed
  {
  }

  /** The server may act on a request, or lose it, exactly while it is in flight, and the
      caller looks as long as there are at most a hundred entries. */
  lemma FlightSpelled(s: Protocol, r: Request)
    ensures Enabled(s, Act(r)) <==> s.inflight[r] > 0
    ensures Enabled(s, Lose(r)) <==> s.inflight[r] > 0
    ensures Enabled(s, Look) <==> !s.finished && |Observed(s).memberships| <= 100
    ensures s.inflight[r] > 0 ==>
              && Next(s, Lose(r)).inflight[r] == s.inflight[r] - 1
              && Next(s, Act(r)).inflight[r] == s.inflight[r] - 1
              && Next(s, Lose(r)) == s.(inflight := Next(s, Lose(r)).inflight)
  {
  }

  /** The book is wanted, the list has never held it and nothing was sent. */
  ghost predicate Wanting(s: Protocol) {
    && s.desired && !s.finished && s.pending.None? && s.owner == s.base.ownerId && s.base.memberships == []
    && Observed(s).memberships == []
  }

  lemma WantingSends(s: Protocol)
    requires Wanting(s)
    ensures Enabled(s, Look) && Next(s, Look) == Send(s, AddBook)
  {
  }

  lemma {:induction false} MatchingLast(ms: seq<Membership>, m: Membership, listId: int, bookId: int)
    ensures Matching(ms + [m], listId, bookId)
         == Matching(ms, listId, bookId) + if m.listId == listId && m.bookId == bookId then [m] else []
  {
    if ms == [] {
      assert [] + [m] == [m] && [m][1..] == [];
    } else {
      MatchingLast(ms[1..], m, listId, bookId);
      assert (ms + [m])[1..] == ms[1..] + [m];
    }
  }

  /** An addition that the server performs is observed and confirmed, with one request. */
  lemma AdditionCompletes(s: Protocol)
    requires Wanting(s)
    ensures exists t :: Reaches(s, [Look, Act(AddBook), Look], t) && t.finished && t.pending.None?
                        && t.added == s.added + 1 && t.sent == s.sent + [AddBook]
  {
    WantingSends(s);
    var sent := Send(s, AddBook);
    var acted := Acted(sent, AddBook);
    MatchingLast(s.remote, Membership(s.nextId, s.base.listId, s.base.bookId, None), s.base.listId, s.base.bookId);
    assert Observed(acted).memberships == [Membership(s.nextId, s.base.listId, s.base.bookId, None)];
    var t := Looked(acted);
    assert t.finished;
    ReachesThree(s, Look, Act(AddBook), Look);
  }

  lemma ReachesThree(s: Protocol, a: Step, b: Step, c: Step)
    requires Enabled(s, a) && Enabled(Next(s, a), b) && Enabled(Next(Next(s, a), b), c)
    ensures Reaches(s, [a, b, c], Next(Next(Next(s, a), b), c))
  {
    var t := Next(Next(Next(s, a), b), c);
    assert [a, b, c][1..] == [b, c] && [b, c][1..] == [c] && [c][1..] == [];
    assert Reaches(Next(Next(Next(s, a), b), c), [], t);
    assert Reaches(Next(Next(s, a), b), [c], t);
    assert Reaches(Next(s, a), [b, c], t);
  }

  /** A lost or late addition is never sent again: however often the caller looks, it
      stays uncertain until the book is seen. */
  lemma LostAdditionWaits(s: Protocol)
    requires Wanting(s.(pending := None)) && s.pending == Some(AddBook)
    ensures Enabled(s, Look) && Next(s, Look) == s
  {
    assert Observed(s) == Observed(s.(pending := None));
  }

  /** A declined one is sent again. */
  lemma DeclinedAdditionRepeats(s: Protocol, reply: Reply)
    requires Wanting(s) && Declines(reply)
    ensures Reaches(s, [Look, Answered(AddBook, reply), Look], Send(s.(sent := s.sent + [AddBook]), AddBook))
  {
    WantingSends(s);
    var sent := Send(s, AddBook);
    var (o, d) := Planned(sent, AddBook);
    RepliesAreReadStrictly(o, d, reply, 0);
    var back := Next(sent, Answered(AddBook, reply));
    assert back == s.(sent := s.sent + [AddBook]) by {
      assert sent.inflight - multiset{AddBook} == s.inflight;
    }
    assert Observed(back) == Observed(s);
    WantingSends(back);
    ReachesThree(s, Look, Answered(AddBook, reply), Look);
  }

  /** Nothing is removed once an entry was rebound to another edition, was added by
      somebody else, or the list changed hands. */
  lemma ChangesStopRemoval(s: Protocol)
    requires !s.desired && !s.finished
    requires s.owner != s.base.ownerId || exists m :: m in Observed(s).memberships && m !in s.base.memberships
    ensures Looked(s).sent == s.sent && Looked(s).inflight == s.inflight && !Looked(s).finished
  {
  }

  /** A round of a removal is a run of two steps. */
  lemma RoundRuns(s: Protocol, k: nat)
    requires Draining(s, k) && k < |s.base.memberships|
    ensures Reaches(s, [Look, Act(RemoveEntry(s.base.memberships[k]))], Round(s))
  {
    var r := RemoveEntry(s.base.memberships[k]);
    LookSendsNext(s, k);
    RoundIs(s, k);
    assert |Observed(s).memberships| == |s.base.memberships[k..]| <= MAX_MEMBERSHIPS;
    assert r in Looked(s).inflight;
    var t := Round(s);
    assert [Look, Act(r)][1..] == [Act(r)] && [Act(r)][1..] == [];
    assert Reaches(Next(Next(s, Look), Act(r)), [], t);
    assert Reaches(Next(s, Look), [Act(r)], t);
  }
}
