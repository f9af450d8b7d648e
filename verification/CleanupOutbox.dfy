/**
 The resource cleanup outbox: one row per external resource, identified by its
 kind and key.  Re-enqueueing a resource advances the row's generation, which
 together with the lease owner fences late completions.
 */
module CleanupOutbox {
  import opened Nullable
  import opened Powers
  import opened Counting
  import H = LeaseHorizon

  datatype Kind = UploadBlob | PresentationImage | PresentationItem
  datatype Status = Pending | Processing | Failed

  datatype Row = Row(
    id: nat,
    kind: Kind,
    workspace: nat,
    storageBytes: nat,
    generation: nat,
    deleteFencedAt: Option<int>,
    status: Status,
    attemptCount: nat,
    nextAttemptAt: int,
    leaseUntil: Option<int>,
    lockedBy: Option<nat>)

  const MAX_ATTEMPTS := 20

  function MaxNat(a: nat, b: nat): nat {
    if a < b then b else a
  }

  // ----- statements on one row -------------------------------------------------

  function InsertedRow(id: nat, kind: Kind, workspace: nat, bytes: nat, notBefore: int): Row {
    Row(id, kind, workspace, bytes, 1, None, Pending, 0, notBefore, None, None)
  }

  /** The fence survives a re-enqueue; the lease does not, but its horizon does. */
  function RequeuedRow(r: Row, workspace: nat, bytes: nat, notBefore: int, now: int): Row {
    r.(workspace := if workspace > 0 then workspace else r.workspace,
       storageBytes := MaxNat(r.storageBytes, bytes),
       generation := r.generation + 1,
       status := Pending,
       attemptCount := 0,
       nextAttemptAt := H.Max(notBefore, r.leaseUntil.GetOr(now)),
       leaseUntil := None,
       lockedBy := None)
  }

  predicate Claimable(r: Row, now: int) {
    || (r.status == Pending && r.nextAttemptAt <= now)
    || (r.status == Processing && r.leaseUntil.Some? && r.leaseUntil.value < now && r.attemptCount < MAX_ATTEMPTS)
  }

  predicate Exhausted(r: Row, now: int) {
    r.status == Processing && r.leaseUntil.Some? && r.leaseUntil.value < now && r.attemptCount >= MAX_ATTEMPTS
  }

  predicate HeldBy(r: Row, id: nat, generation: nat, token: nat) {
    r.id == id && r.generation == generation && r.status == Processing && r.lockedBy == Some(token)
  }

  function ClaimedRow(r: Row, token: nat, leaseUntil: int): Row {
    r.(status := Processing, attemptCount := r.attemptCount + 1, leaseUntil := Some(leaseUntil), lockedBy := Some(token))
  }

  function RetriedRow(r: Row, next: int): Row {
    r.(status := if r.kind == UploadBlob then Pending else if r.attemptCount >= MAX_ATTEMPTS then Failed else Pending,
       nextAttemptAt := next, leaseUntil := None, lockedBy := None)
  }

  function SweptRow(r: Row, now: int): Row {
    if Exhausted(r, now) then
      r.(status := if r.kind == UploadBlob then Pending else Failed,
         nextAttemptAt := if r.kind == UploadBlob then now + H.HOUR else r.nextAttemptAt,
         leaseUntil := None, lockedBy := None)
    else r
  }

  function FencedRow(r: Row, now: int): Row {
    r.(deleteFencedAt := Some(r.deleteFencedAt.GetOr(now)))
  }

  /** Resizing a staged upload grows its size and puts it off; it never shrinks or hastens it. */
  function ResizedRow(r: Row, workspace: nat, bytes: nat, notBefore: int): Row {
    r.(workspace := workspace, storageBytes := MaxNat(r.storageBytes, bytes), nextAttemptAt := H.Max(r.nextAttemptAt, notBefore))
  }

  /**
   ON DUPLICATE KEY UPDATE, column by column in the statement's order: the lease is
   read before it is cleared.
   */
  method AssignColumns(row: Row, workspace: nat, bytes: nat, notBefore: int, now: int) returns (r: Row)
    ensures r == RequeuedRow(row, workspace, bytes, notBefore, now)
  {
    r := row;
    r := r.(workspace := if workspace > 0 then workspace else r.workspace);
    r := r.(storageBytes := MaxNat(r.storageBytes, bytes));
    r := r.(generation := r.generation + 1);
    r := r.(status := Pending);
    r := r.(attemptCount := 0);
    r := r.(nextAttemptAt := H.Max(notBefore, r.leaseUntil.GetOr(now)));
    r := r.(leaseUntil := None);
    r := r.(lockedBy := None);
  }

  /** WHERE clauses of the two completion statements. */
  predicate PlainCompletes(r: Row, id: nat, generation: nat, token: nat) {
    HeldBy(r, id, generation, token) && (r.kind != UploadBlob || r.deleteFencedAt.None?)
  }

  predicate FencedCompletes(r: Row, id: nat, generation: nat, token: nat) {
    HeldBy(r, id, generation, token) && r.kind == UploadBlob && r.deleteFencedAt.Some?
  }

  // ----- runs on one resource ------------------------------------------------------

  datatype State = State(
    now: int,
    kind: Kind,
    row: Option<Row>,
    inFlight: map<nat, int>,
    nextToken: nat,
    nextId: nat,
    claimed: seq<(nat, nat)>)

  function Start(kind: Kind): State {
    State(0, kind, None, map[], 0, 1, [])
  }

  datatype Event =
    | Tick(to: int)
    /** `id` is what AUTO_INCREMENT would assign: never below `nextId`. */
    | Upsert(id: nat, workspace: nat, bytes: nat, notBefore: int)
    | Sweep
    | Claim(token: nat, leaseUntil: int)
    | Answer(token: nat)
    | Retry(id: nat, generation: nat, token: nat, next: int)
    | Complete(id: nat, generation: nat, token: nat, fenced: bool)
    | Fence(id: nat, generation: nat, token: nat)
    | Resize(workspace: nat, bytes: nat, notBefore: int)
    | Drop

  predicate Holds(s: State, id: nat, generation: nat, token: nat) {
    s.row.Some? && HeldBy(s.row.value, id, generation, token)
  }

  /** A worker completes only after success, which is an answer. */
  predicate Completes(s: State, id: nat, generation: nat, token: nat, fenced: bool) {
    && token !in s.inFlight && Holds(s, id, generation, token)
    && (if fenced then FencedCompletes(s.row.value, id, generation, token)
        else PlainCompletes(s.row.value, id, generation, token))
  }

  /** Lease tokens are never used twice. */
  predicate Claims(s: State, token: nat) {
    s.row.Some? && Claimable(s.row.value, s.now) && token >= s.nextToken
  }

  function Step(s: State, e: Event): State {
    match e
    case Tick(to) => s.(now := H.Max(s.now, to))
    case Upsert(id, workspace, bytes, notBefore) =>
      if s.row.None? then
        if id < s.nextId then s
        else s.(row := Some(InsertedRow(id, s.kind, workspace, bytes, notBefore)), nextId := id + 1)
      else s.(row := Some(RequeuedRow(s.row.value, workspace, bytes, notBefore, s.now)))
    case Sweep => if s.row.Some? then s.(row := Some(SweptRow(s.row.value, s.now))) else s
    case Claim(token, leaseUntil) =>
      if Claims(s, token) then
        s.(row := Some(ClaimedRow(s.row.value, token, leaseUntil)),
           inFlight := s.inFlight[token := leaseUntil], nextToken := token + 1,
           claimed := s.claimed + [(s.row.value.id, s.row.value.generation)])
      else s
    case Answer(token) => s.(inFlight := s.inFlight - {token})
    case Retry(id, generation, token, next) =>
      if Holds(s, id, generation, token) then s.(row := Some(RetriedRow(s.row.value, next))) else s
    case Complete(id, generation, token, fenced) =>
      if Completes(s, id, generation, token, fenced) then s.(row := None) else s
    case Fence(id, generation, token) =>
      if Holds(s, id, generation, token) && s.kind == UploadBlob
      then s.(row := Some(FencedRow(s.row.value, s.now))) else s
    case Resize(workspace, bytes, notBefore) =>
      if s.row.Some? && s.kind == UploadBlob
      then s.(row := Some(ResizedRow(s.row.value, workspace, bytes, notBefore))) else s
    case Drop => s.(row := None)
  }

  function Exec(kind: Kind, es: seq<Event>): State {
    if es == [] then Start(kind) else Step(Exec(kind, es[..|es| - 1]), es[|es| - 1])
  }

  predicate WellFormed(s: State) {
    s.row.Some? ==>
      && s.row.value.kind == s.kind
      && s.row.value.id < s.nextId
      && (s.row.value.status == Processing <==> s.row.value.leaseUntil.Some?)
      && (s.row.value.status == Processing <==> s.row.value.lockedBy.Some?)
  }

  function AbstractRow(r: Row): H.Row {
    var phase :=
      match r.status
      case Pending => H.Waiting(r.nextAttemptAt)
      case Processing => H.Busy(r.lockedBy.GetOr(0), r.leaseUntil.GetOr(0))
      case Failed => H.Parked;
    H.Row(phase, r.attemptCount, MAX_ATTEMPTS, r.kind == UploadBlob)
  }

  function Abstract(s: State): H.State {
    H.State(s.now, if s.row.Some? then Some(AbstractRow(s.row.value)) else None, s.inFlight, s.nextToken)
  }

  function AbstractEvent(s: State, e: Event): H.Event {
    match e
    case Tick(to) => H.Tick(to)
    case Upsert(id, _, _, notBefore) =>
      if s.row.None? && id < s.nextId then H.Idle else H.Enqueue(notBefore, MAX_ATTEMPTS, s.kind == UploadBlob)
    case Sweep => H.FailExhausted
    case Claim(token, leaseUntil) => H.Claim(token, leaseUntil)
    case Answer(token) => H.Answer(token)
    case Retry(id, generation, token, next) => if Holds(s, id, generation, token) then H.Retry(token, next) else H.Idle
    case Complete(id, generation, token, fenced) =>
      if Completes(s, id, generation, token, fenced) then H.Complete(token) else H.Idle
    case Fence(_, _, _) => H.Idle
    case Resize(_, _, notBefore) => if s.kind == UploadBlob then H.Postpone(notBefore) else H.Idle
    case Drop => H.Remove
  }

  lemma StepRefines(s: State, e: Event)
    requires WellFormed(s)
    ensures WellFormed(Step(s, e))
    ensures Abstract(Step(s, e)) == H.Step(Abstract(s), AbstractEvent(s, e))
  {
  }

  /** The lease machine's run that a run of the outbox performs. */
  function Abstracted(kind: Kind, es: seq<Event>): (hs: seq<H.Event>)
    ensures |hs| == |es|
  {
    if es == [] then []
    else Abstracted(kind, es[..|es| - 1]) + [AbstractEvent(Exec(kind, es[..|es| - 1]), es[|es| - 1])]
  }

  lemma {:induction false} RunRefines(kind: Kind, es: seq<Event>)
    ensures WellFormed(Exec(kind, es)) && Abstract(Exec(kind, es)) == H.Exec(Abstracted(kind, es))
    decreases |es|
  {
    if es != [] {
      RunRefines(kind, es[..|es| - 1]);
      StepRefines(Exec(kind, es[..|es| - 1]), es[|es| - 1]);
      assert Abstracted(kind, es)[..|es| - 1] == Abstracted(kind, es[..|es| - 1]);
    }
  }

  lemma {:induction false} AbstractedAt(kind: Kind, es: seq<Event>, j: nat)
    requires j <= |es|
    ensures Abstracted(kind, es)[..j] == Abstracted(kind, es[..j])
    ensures j < |es| ==> Abstracted(kind, es)[j] == AbstractEvent(Exec(kind, es[..j]), es[j])
    decreases |es|
  {
    if j == |es| {
      assert es[..j] == es && Abstracted(kind, es)[..j] == Abstracted(kind, es);
    } else {
      var front := es[..|es| - 1];
      AbstractedAt(kind, front, j);
      assert front[..j] == es[..j] && Abstracted(kind, es)[..j] == Abstracted(kind, front)[..j];
      if j == |es| - 1 { assert front == es[..j]; }
    }
  }

  predicate ClaimsAt(kind: Kind, es: seq<Event>, c: nat) {
    c < |es| && es[c].Claim? && Claims(Exec(kind, es[..c]), es[c].token)
  }

  predicate RetriesAt(kind: Kind, es: seq<Event>, j: nat) {
    j < |es| && es[j].Retry? && Holds(Exec(kind, es[..j]), es[j].id, es[j].generation, es[j].token)
  }

  /** When the row falls due, or goes away, by event `e`. */
  function DueBy(s: State, e: Event): int {
    match e
    case Upsert(_, _, _, notBefore) => H.Max(notBefore, s.now)
    case Retry(_, _, _, next) => if s.row.Some? && H.Parks(AbstractRow(s.row.value)) then s.now else H.Max(next, s.now)
    case _ => s.now
  }

  /** By event `j` the deletion claimed at `c` is answered, or its lease ends before the row falls due or goes away. */
  predicate HorizonPassed(kind: Kind, es: seq<Event>, c: nat, j: nat)
    requires ClaimsAt(kind, es, c) && j < |es|
  {
    var s := Exec(kind, es[..j]);
    es[c].token !in s.inFlight || es[c].leaseUntil <= DueBy(s, es[j])
  }

  /**
   After a deletion was claimed and its lease dropped from the row, by a re-enqueue or
   by its worker, the resource is re-enqueued only once the deletion is over; its row is
   not dropped before then either.
   */
  predicate SupersededAtMostOnce(kind: Kind, es: seq<Event>) {
    && (forall c, i, j ::
          0 <= c < i < j < |es| && ClaimsAt(kind, es, c) && (es[i].Upsert? || RetriesAt(kind, es, i)) && es[j].Upsert? ==>
            HorizonPassed(kind, es, c, j))
    && (forall c, j :: 0 <= c < j < |es| && ClaimsAt(kind, es, c) && es[j].Drop? ==> HorizonPassed(kind, es, c, j))
  }

  /** A worker gives its row back only with its answer, or to a time after its lease. */
  predicate RetriedInTime(kind: Kind, es: seq<Event>) {
    forall c, j :: 0 <= c < j < |es| && ClaimsAt(kind, es, c) && RetriesAt(kind, es, j) && es[j].token == es[c].token ==>
      HorizonPassed(kind, es, c, j)
  }

  lemma SameEvent(s: State, e: Event)
    requires WellFormed(s)
    ensures var h := AbstractEvent(s, e);
      && (h.Claim? && H.Claims(Abstract(s), h.token) ==> e.Claim? && Claims(s, e.token) && e.token == h.token && e.leaseUntil == h.leaseUntil)
      && (h.Enqueue? ==> e.Upsert?) && (h.Remove? ==> e.Drop?)
      && (h.Retry? ==> e.Retry? && Holds(s, e.id, e.generation, e.token) && h.token == e.token)
      && (h.Enqueue? || h.Retry? || h.Remove? ==> H.DueBy(Abstract(s), h) == DueBy(s, e))
  {
  }

  /** Event `j` of the lease machine's run, in terms of the outbox. */
  lemma EventRefines(kind: Kind, es: seq<Event>, j: nat)
    requires j < |es|
    ensures
      var hs := Abstracted(kind, es);
      H.Exec(hs[..j]) == Abstract(Exec(kind, es[..j])) && hs[j] == AbstractEvent(Exec(kind, es[..j]), es[j])
    ensures var h := Abstracted(kind, es)[j];
      && (H.ClaimsAt(Abstracted(kind, es), j) ==> ClaimsAt(kind, es, j) && es[j].token == h.token && es[j].leaseUntil == h.leaseUntil)
      && (h.Enqueue? ==> es[j].Upsert?) && (h.Remove? ==> es[j].Drop?)
      && (h.Retry? ==> RetriesAt(kind, es, j) && h.token == es[j].token)
      && (h.Enqueue? || h.Retry? || h.Remove? ==> H.DueBy(Abstract(Exec(kind, es[..j])), h) == DueBy(Exec(kind, es[..j]), es[j]))
  {
    AbstractedAt(kind, es, j);
    RunRefines(kind, es[..j]);
    SameEvent(Exec(kind, es[..j]), es[j]);
  }

  lemma HorizonRefines(kind: Kind, es: seq<Event>, c: nat, j: nat)
    requires c < |es| && j < |es| && H.ClaimsAt(Abstracted(kind, es), c)
    requires var h := Abstracted(kind, es)[j]; h.Enqueue? || h.Retry? || h.Remove?
    ensures ClaimsAt(kind, es, c) && (H.HorizonPassed(Abstracted(kind, es), c, j) <==> HorizonPassed(kind, es, c, j))
  {
    EventRefines(kind, es, c);
    EventRefines(kind, es, j);
  }

  lemma OnceRefines(kind: Kind, es: seq<Event>)
    requires SupersededAtMostOnce(kind, es)
    ensures H.SupersededAtMostOnce(Abstracted(kind, es))
  {
    var hs := Abstracted(kind, es);
    forall c, i, j | 0 <= c < i < j < |hs| && H.ClaimsAt(hs, c) && H.ReleasesAt(hs, i) && hs[j].Enqueue?
      ensures H.HorizonPassed(hs, c, j)
    {
      HorizonRefines(kind, es, c, j);
      EventRefines(kind, es, i);
      EventRefines(kind, es, j);
    }
    forall c, j | 0 <= c < j < |hs| && H.ClaimsAt(hs, c) && hs[j].Remove? ensures H.HorizonPassed(hs, c, j) {
      HorizonRefines(kind, es, c, j);
      EventRefines(kind, es, j);
    }
  }

  lemma InTimeRefines(kind: Kind, es: seq<Event>)
    requires RetriedInTime(kind, es)
    ensures H.RetriedInTime(Abstracted(kind, es))
  {
    var hs := Abstracted(kind, es);
    forall c, j | 0 <= c < j < |hs| && H.ClaimsAt(hs, c) && H.RetriesAt(hs, j) && hs[j].token == hs[c].token
      ensures H.HorizonPassed(hs, c, j)
    {
      HorizonRefines(kind, es, c, j);
      EventRefines(kind, es, c);
      EventRefines(kind, es, j);
    }
  }

  /**
   Remote deletions of one resource never overlap in a run that supersedes at most once
   per lease horizon and retries in time.
   */
  lemma DeletionsNeverOverlap(kind: Kind, es: seq<Event>, token: nat)
    requires SupersededAtMostOnce(kind, es) && RetriedInTime(kind, es) && Claims(Exec(kind, es), token)
    ensures forall t :: t in Exec(kind, es).inFlight ==> Exec(kind, es).inFlight[t] <= Exec(kind, es).now
  {
    OnceRefines(kind, es);
    InTimeRefines(kind, es);
    RunRefines(kind, es);
    H.WindowsNeverOverlap(Abstracted(kind, es), token);
    forall t | t in Exec(kind, es).inFlight ensures Exec(kind, es).inFlight[t] <= Exec(kind, es).now {
      assert !(t in H.Exec(Abstracted(kind, es)).inFlight && H.Exec(Abstracted(kind, es)).inFlight[t] > Exec(kind, es).now);
    }
  }

  // ----- what the worker does ----------------------------------------------------------

  const LEASE := 90

  /** One second after the first attempt, doubling up to an hour. */
  function RetryDelay(attempt: nat): nat {
    var delay := Pow2((if attempt < 1 then 1 else if attempt > 13 then 13 else attempt) - 1);
    if delay > H.HOUR then H.HOUR else delay
  }

  /** The first deletion is given up after `elapsed` seconds, without an answer. */
  function TimedOut(workspace: nat, bytes: nat, elapsed: nat): seq<Event> {
    [Upsert(1, workspace, bytes, 0), Claim(0, LEASE), Tick(elapsed), Retry(1, 1, 0, elapsed + RetryDelay(1)), Tick(elapsed + RetryDelay(1))]
  }

  lemma TimedOutRuns(kind: Kind, workspace: nat, bytes: nat, elapsed: nat)
    ensures
      var s := Exec(kind, TimedOut(workspace, bytes, elapsed));
      && s.now == elapsed + 1 && s.inFlight == map[0 := LEASE] && s.nextToken == 1
      && s.row == Some(RetriedRow(ClaimedRow(InsertedRow(1, kind, workspace, bytes, 0), 0, LEASE), elapsed + 1))
  {
    var e1, e2 := [Upsert(1, workspace, bytes, 0)], [Upsert(1, workspace, bytes, 0)] + [Claim(0, LEASE)];
    var retry := Retry(1, 1, 0, elapsed + RetryDelay(1));
    ExecStep(kind, [], Upsert(1, workspace, bytes, 0));
    assert [] + e1 == e1;
    ExecStep(kind, e1, Claim(0, LEASE));
    ExecStep(kind, e2, Tick(elapsed));
    ExecStep(kind, e2 + [Tick(elapsed)], retry);
    ExecStep(kind, e2 + [Tick(elapsed)] + [retry], Tick(elapsed + RetryDelay(1)));
    assert e2 + [Tick(elapsed)] + [retry] + [Tick(elapsed + RetryDelay(1))] == TimedOut(workspace, bytes, elapsed);
  }

  /**
   When that first retry falls due, a second deletion may start beside the first
   exactly when it was given up before second 89 of its 90 second lease.  The worker
   always gives up by second 75.
   */
  lemma TimedOutDeletionOverlapsExactly(kind: Kind, workspace: nat, bytes: nat, elapsed: nat)
    ensures
      var s := Exec(kind, TimedOut(workspace, bytes, elapsed));
      Claims(s, 1) && ((exists t :: t in s.inFlight && s.inFlight[t] > s.now) <==> elapsed + RetryDelay(1) < LEASE)
  {
    TimedOutRuns(kind, workspace, bytes, elapsed);
    var s := Exec(kind, TimedOut(workspace, bytes, elapsed));
    assert 0 in s.inFlight;
  }

  // ----- attempts, for every run -----------------------------------------------------

  /** `x` names a generation that no claim has seen yet. */
  predicate Future(s: State, x: (nat, nat)) {
    x.0 >= s.nextId || (s.row.Some? && x.0 == s.row.value.id && x.1 > s.row.value.generation)
  }

  predicate Tracked(s: State, x: (nat, nat)) {
    && WellFormed(s)
    && (Future(s, x) ==> Count(s.claimed, x) == 0)
    && (s.row.Some? && x == (s.row.value.id, s.row.value.generation) ==> Count(s.claimed, x) == s.row.value.attemptCount)
    && (s.kind != UploadBlob ==> Count(s.claimed, x) <= MAX_ATTEMPTS && H.Budgeted(Abstract(s)))
    && (s.kind == UploadBlob && s.row.Some? ==> s.row.value.status != Failed)
  }

  lemma StepTracked(s: State, e: Event, x: (nat, nat))
    requires Tracked(s, x)
    ensures Tracked(Step(s, e), x)
  {
    StepRefines(s, e);
    if s.kind == UploadBlob { H.EndlessNeverParks(Abstract(s), AbstractEvent(s, e)); }
    else { H.StepKeepsBudget(Abstract(s), AbstractEvent(s, e)); }
    match e
    case Claim(_, _) =>
      if s.row.Some? { CountAppend(s.claimed, (s.row.value.id, s.row.value.generation), x); }
    case _ =>
  }

  /**
   For every run: no generation of a presentation resource is claimed more than
   max_attempts times, and an upload row is never failed.
   */
  lemma {:induction false} ClaimsBounded(kind: Kind, es: seq<Event>, x: (nat, nat))
    ensures Tracked(Exec(kind, es), x)
    ensures kind != UploadBlob ==> Count(Exec(kind, es).claimed, x) <= MAX_ATTEMPTS
    ensures kind == UploadBlob && Exec(kind, es).row.Some? ==> Exec(kind, es).row.value.status != Failed
    decreases |es|
  {
    KindKept(kind, es);
    if es != [] {
      ClaimsBounded(kind, es[..|es| - 1], x);
      StepTracked(Exec(kind, es[..|es| - 1]), es[|es| - 1], x);
    }
  }

  lemma {:induction false} KindKept(kind: Kind, es: seq<Event>)
    ensures Exec(kind, es).kind == kind
    decreases |es|
  {
    if es != [] { KindKept(kind, es[..|es| - 1]); }
  }

  /**
   An upload row left alone always comes due again, however many attempts have
   failed: after its lease, or an hour later if the sweep found it exhausted.
   */
  lemma UploadAlwaysComesDue(es: seq<Event>)
    requires Exec(UploadBlob, es).row.Some?
    ensures
      var s := Exec(UploadBlob, es);
      var expired := Step(Step(s, Tick(s.row.value.leaseUntil.GetOr(s.now - 1) + 1)), Sweep);
      var ripe := Step(expired, Tick(H.RipeAt(AbstractRow(s.row.value), s.now)));
      ripe.row.Some? && Claimable(ripe.row.value, ripe.now)
  {
    KindKept(UploadBlob, es);
    ClaimsBounded(UploadBlob, es, (0, 0));
    var s := Exec(UploadBlob, es);
    var tick := Tick(s.row.value.leaseUntil.GetOr(s.now - 1) + 1);
    var later := Tick(H.RipeAt(AbstractRow(s.row.value), s.now));
    StepRefines(s, tick);
    StepRefines(Step(s, tick), Sweep);
    StepRefines(Step(Step(s, tick), Sweep), later);
    H.EndlessBecomesClaimable(Abstract(s));
  }

  // ----- which completion ----------------------------------------------------------------------

  /** An effective Fence on the row that is there. */
  predicate Fences(s: State, e: Event) {
    e.Fence? && s.kind == UploadBlob && Holds(s, e.id, e.generation, e.token)
  }

  lemma StepFences(s: State, e: Event)
    requires WellFormed(s) && Step(s, e).row.Some? && Step(s, e).row.value.deleteFencedAt.Some?
    ensures s.row.Some? && s.row.value.id == Step(s, e).row.value.id
    ensures Fences(s, e) || s.row.value.deleteFencedAt == Step(s, e).row.value.deleteFencedAt
  {
  }

  /** Where a row got its fence: some holder of that very row set it. */
  lemma {:induction false} FenceOrigin(kind: Kind, es: seq<Event>) returns (j: nat)
    requires var s := Exec(kind, es); s.row.Some? && s.row.value.deleteFencedAt.Some?
    ensures j < |es| && Fences(Exec(kind, es[..j]), es[j]) && Exec(kind, es[..j]).row.value.id == Exec(kind, es).row.value.id
    decreases |es|
  {
    var n := |es| - 1;
    RunRefines(kind, es[..n]);
    StepFences(Exec(kind, es[..n]), es[n]);
    if Fences(Exec(kind, es[..n]), es[n]) {
      j := n;
    } else {
      j := FenceOrigin(kind, es[..n]);
      assert es[..n][..j] == es[..j];
    }
  }

  /**
   In every run exactly one of the two completion statements removes the row of a
   worker that has its answer: the fenced one if a holder of the row has fenced it,
   the plain one otherwise.
   */
  lemma ExactlyOneCompletion(kind: Kind, es: seq<Event>, id: nat, generation: nat, token: nat)
    requires Holds(Exec(kind, es), id, generation, token) && token !in Exec(kind, es).inFlight
    ensures Step(Exec(kind, es), Complete(id, generation, token, true)).row.None?
       <==> Step(Exec(kind, es), Complete(id, generation, token, false)).row.Some?
    ensures Step(Exec(kind, es), Complete(id, generation, token, true)).row.None?
        ==> exists j :: 0 <= j < |es| && Fences(Exec(kind, es[..j]), es[j]) && Exec(kind, es[..j]).row.value.id == id
  {
    var s := Exec(kind, es);
    if s.row.value.deleteFencedAt.Some? { var j := FenceOrigin(kind, es); }
  }

  lemma ExecStep(kind: Kind, es: seq<Event>, e: Event)
    ensures Exec(kind, es + [e]) == Step(Exec(kind, es), e)
  {
    assert (es + [e])[..|es|] == es;
  }
}
