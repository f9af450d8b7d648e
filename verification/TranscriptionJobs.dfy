/**
 The transcription queue: the rows of `transcription_jobs` and
 `transcription_job_attempts`, and what each store transaction does to them.

 A transaction is one event.  `Step` gives the committed state, or the state
 unchanged when a guard matches no row and the transaction rolls back.  Time
 moves only by `Tick`, which never moves it back.
 */
module TranscriptionJobs {
  import opened Nullable
  import opened Powers

  type Token = s: string | s != "" witness "worker"

  datatype Status = Pending | Running | Completed | Failed | Canceled | Superseded

  datatype Job = Job(
    inputRevision: nat,
    status: Status,
    attemptCount: nat,
    maxAttempts: nat,
    retryAfter: Option<int>,
    leaseUntil: Option<int>,
    lockedBy: Option<Token>,
    totalSegments: int,
    completedSegments: int,
    failedSegments: int,
    currentAnnotation: Option<string>,
    lastResult: Option<string>,
    errorMessage: Option<string>,
    createdAt: int)

  datatype Outcome =
    InProgress | Succeeded | RetryableFailed | TerminallyFailed | Abandoned | Replaced | LeaseExpired

  datatype Attempt = Attempt(
    inputRevision: nat,
    leaseToken: Token,
    outcome: Outcome,
    resultRevision: Option<nat>,
    startedAt: int,
    finishedAt: Option<int>)

  /** What a worker must present with every write. */
  datatype Fence = Fence(job: nat, attempt: nat, revision: nat, token: Token)

  datatype Db = Db(now: int, nextId: nat, jobs: map<nat, Job>, attempts: map<(nat, nat), Attempt>)

  const Empty := Db(0, 1, map[], map[])

  predicate Unfinished(j: Job) {
    j.status == Pending || j.status == Running
  }

  /** The fence is the one written on the row, whatever the clock says. */
  predicate Held(j: Job, f: Fence) {
    && j.status == Running
    && j.attemptCount == f.attempt
    && j.inputRevision == f.revision
    && j.lockedBy == Some(f.token)
  }

  predicate Leased(j: Job, now: int) {
    j.leaseUntil.Some? && j.leaseUntil.value > now
  }

  predicate Expired(j: Job, now: int) {
    j.status == Running && j.leaseUntil.Some? && j.leaseUntil.value < now
  }

  predicate Due(j: Job, now: int) {
    && j.status == Pending
    && (j.retryAfter.None? || j.retryAfter.value <= now)
    && j.attemptCount < j.maxAttempts
  }

  /** The WHERE clause shared by the three claim queries. */
  predicate Claimable(j: Job, now: int) {
    Due(j, now) || Expired(j, now)
  }

  /** The WHERE clause of MarkTranscriptionJobLeased, apart from the compare-and-set columns. */
  predicate Leasable(j: Job, now: int) {
    Due(j, now) || (Expired(j, now) && j.attemptCount < j.maxAttempts)
  }

  predicate Exhausted(j: Job, now: int) {
    Expired(j, now) && j.attemptCount >= j.maxAttempts
  }

  /** The WHERE clause of every statement a worker issues. */
  predicate Active(s: Db, f: Fence) {
    f.job in s.jobs && Held(s.jobs[f.job], f) && Leased(s.jobs[f.job], s.now)
  }

  // ----- row rewrites, one per UPDATE ------------------------------------

  function Unlocked(j: Job, status: Status): Job {
    j.(status := status, currentAnnotation := None, leaseUntil := None, lockedBy := None)
  }

  function CompletedRow(j: Job): Job {
    Unlocked(j, Completed).(lastResult := None)
  }

  function FailedRow(j: Job, message: string): Job {
    Unlocked(j, Failed).(retryAfter := None, errorMessage := Some(message), lastResult := None)
  }

  function DeferredRow(j: Job, retryAfter: int, message: string): Job {
    Unlocked(j, Pending).(retryAfter := Some(retryAfter), errorMessage := Some(message), lastResult := None)
  }

  function Backoff(attempt: nat): nat {
    var wait := Pow2(attempt) * 10;
    if wait < 300 then wait else 300
  }

  /** RetryOrFail keeps last_result_annotation_json, unlike every other closing statement. */
  function RetriedRow(j: Job, now: int, message: string): Job {
    if j.attemptCount < j.maxAttempts then
      Unlocked(j, Pending).(retryAfter := Some(now + Backoff(j.attemptCount)), errorMessage := Some(message))
    else
      Unlocked(j, Failed).(retryAfter := None, errorMessage := Some(message))
  }

  function LeasedRow(j: Job, token: Token, leaseUntil: int): Job {
    j.(status := Running, attemptCount := j.attemptCount + 1, totalSegments := 0, completedSegments := 0,
       failedSegments := 0, currentAnnotation := None, lastResult := None, leaseUntil := Some(leaseUntil),
       lockedBy := Some(token), retryAfter := None, errorMessage := None)
  }

  function EndedRow(j: Job, status: Status, message: string): Job {
    Unlocked(j, status).(retryAfter := None, errorMessage := Some(message), lastResult := None)
  }

  /** The joint batch cancellation leaves retry_after and the current annotation in place. */
  function BatchCanceledRow(j: Job): Job {
    j.(status := Canceled, leaseUntil := None, lockedBy := None,
       errorMessage := Some("canceled with upload batch"), lastResult := None)
  }

  function Finished(a: Attempt, outcome: Outcome, result: Option<nat>, now: int): Attempt {
    a.(outcome := outcome, resultRevision := result,
       finishedAt := Some(if a.startedAt > now then a.startedAt else now))
  }

  /** The WHERE clause of FinishTranscriptionJobAttempt. */
  predicate Finishable(s: Db, f: Fence) {
    && (f.job, f.attempt) in s.attempts
    && var a := s.attempts[(f.job, f.attempt)];
       a.inputRevision == f.revision && a.leaseToken == f.token && a.outcome == InProgress
  }

  predicate TokenUsed(s: Db, token: Token) {
    exists k :: k in s.attempts && s.attempts[k].leaseToken == token
  }

  // ----- transactions ----------------------------------------------------

  datatype Event =
    | Tick(to: int)
    | Create(revision: nat, maxAttempts: nat)
    | Claim(id: nat, token: Token, leaseUntil: int)
    | Extend(fence: Fence, until: int)
    | SetTotal(fence: Fence, total: int)
    | Progress(fence: Fence, completed: int, failed: int, current: Option<string>, last: Option<string>)
    | Complete(fence: Fence, result: nat)
    | Fail(fence: Fence, message: string, permanent: bool, retryAfter: Option<int>)
    | Cancel(id: nat)
    | Supersede(id: nat, message: string)
    | CancelBatch(ids: set<nat>)
    | Purge(id: nat)
    /** The jobs of a deleted item or image, whatever their status. */
    | DeleteWithItem(ids: set<nat>)

  /** Events a worker issues under its fence; the last two close the attempt. */
  predicate WorkerEvent(e: Event) {
    e.Extend? || e.SetTotal? || e.Progress? || Closing(e)
  }

  predicate Closing(e: Event) {
    e.Complete? || e.Fail?
  }

  /** The holder named on a running row. */
  function Holder(id: nat, j: Job): (f: Fence)
    requires j.lockedBy.Some?
  {
    Fence(id, j.attemptCount, j.inputRevision, j.lockedBy.value)
  }

  function WithRow(s: Db, id: nat, j: Job): Db {
    s.(jobs := s.jobs[id := j])
  }

  /** Close the attempt and rewrite the job, or roll back when the attempt row does not match. */
  function CloseTx(s: Db, f: Fence, outcome: Outcome, result: Option<nat>, j: Job): Db {
    if Finishable(s, f) then
      s.(jobs := s.jobs[f.job := j],
         attempts := s.attempts[(f.job, f.attempt) := Finished(s.attempts[(f.job, f.attempt)], outcome, result, s.now)])
    else s
  }

  function ClaimTx(s: Db, id: nat, token: Token, leaseUntil: int): Db {
    if id !in s.jobs || !Claimable(s.jobs[id], s.now) then s else
    var j := s.jobs[id];
    if j.status == Running then
      if j.lockedBy.None? || !Finishable(s, Holder(id, j)) then s else
      if j.attemptCount >= j.maxAttempts then
        CloseTx(s, Holder(id, j), LeaseExpired, None, FailedRow(j, "worker lease expired after maximum attempts"))
      else
        LeaseTx(CloseTx(s, Holder(id, j), LeaseExpired, None, j), s, id, token, leaseUntil)
    else
      LeaseTx(s, s, id, token, leaseUntil)
  }

  /** MarkLeased and the attempt insert; a duplicate token or attempt key rolls back to `before`. */
  function LeaseTx(s: Db, before: Db, id: nat, token: Token, leaseUntil: int): Db
    requires id in s.jobs
  {
    var j := s.jobs[id];
    if TokenUsed(s, token) || (id, j.attemptCount + 1) in s.attempts then before else
    s.(jobs := s.jobs[id := LeasedRow(j, token, leaseUntil)],
       attempts := s.attempts[(id, j.attemptCount + 1) := Attempt(j.inputRevision, token, InProgress, None, s.now, None)])
  }

  function FailTx(s: Db, f: Fence, message: string, permanent: bool, retryAfter: Option<int>): Db {
    if !Active(s, f) then s else
    var j := s.jobs[f.job];
    var terminal := permanent || j.attemptCount >= j.maxAttempts;
    var outcome := if terminal then TerminallyFailed else RetryableFailed;
    var row :=
      if permanent || (terminal && retryAfter.Some?) then FailedRow(j, message)
      else if retryAfter.Some? then DeferredRow(j, retryAfter.value, message)
      else RetriedRow(j, s.now, message);
    CloseTx(s, f, outcome, None, row)
  }

  function EndTx(s: Db, id: nat, status: Status, outcome: Outcome, message: string): Db {
    if id !in s.jobs || !Unfinished(s.jobs[id]) then s else
    var j := s.jobs[id];
    if j.status == Pending then WithRow(s, id, EndedRow(j, status, message))
    else if j.lockedBy.None? then s
    else CloseTx(s, Holder(id, j), outcome, None, EndedRow(j, status, message))
  }

  /** The LEFT JOIN condition of the joint batch update. */
  predicate BatchJoined(s: Db, ids: set<nat>, k: (nat, nat))
    requires k in s.attempts
  {
    && k.0 in ids && k.0 in s.jobs && Unfinished(s.jobs[k.0])
    && k.1 == s.jobs[k.0].attemptCount
    && s.attempts[k].inputRevision == s.jobs[k.0].inputRevision
    && s.jobs[k.0].lockedBy == Some(s.attempts[k].leaseToken)
    && s.attempts[k].outcome == InProgress
  }

  function CancelBatchTx(s: Db, ids: set<nat>): Db {
    s.(jobs := map id | id in s.jobs ::
         if id in ids && Unfinished(s.jobs[id]) then BatchCanceledRow(s.jobs[id]) else s.jobs[id],
       attempts := map k | k in s.attempts ::
         if BatchJoined(s, ids, k) then Finished(s.attempts[k], Abandoned, None, s.now) else s.attempts[k])
  }

  /** Attempt rows first, then the jobs. */
  function RemoveTx(s: Db, ids: set<nat>): Db {
    s.(jobs := s.jobs - ids, attempts := map k | k in s.attempts && !(k.0 in ids && k.0 in s.jobs) :: s.attempts[k])
  }

  function PurgeTx(s: Db, id: nat): Db {
    if id in s.jobs && !Unfinished(s.jobs[id]) then RemoveTx(s, {id}) else s
  }

  function NewJob(revision: nat, maxAttempts: nat, now: int): Job {
    Job(revision, Pending, 0, maxAttempts, None, None, None, 0, 0, 0, None, None, None, now)
  }

  function Step(s: Db, e: Event): Db {
    match e
    case Tick(to) => if to > s.now then s.(now := to) else s
    case Create(revision, max) =>
      // CHECK constraints: input_revision > 0 and max_attempts > 0
      if revision == 0 || max == 0 then s
      else s.(nextId := s.nextId + 1, jobs := s.jobs[s.nextId := NewJob(revision, max, s.now)])
    case Claim(id, token, leaseUntil) => ClaimTx(s, id, token, leaseUntil)
    case Extend(f, until) =>
      if Active(s, f) then WithRow(s, f.job, s.jobs[f.job].(leaseUntil := Some(until))) else s
    case SetTotal(f, total) =>
      if Active(s, f) then WithRow(s, f.job, s.jobs[f.job].(totalSegments := total)) else s
    case Progress(f, completed, failed, current, last) =>
      if Active(s, f) then
        WithRow(s, f.job, s.jobs[f.job].(completedSegments := completed, failedSegments := failed,
                                         currentAnnotation := current, lastResult := last))
      else s
    case Complete(f, result) =>
      if Active(s, f) then CloseTx(s, f, Succeeded, Some(result), CompletedRow(s.jobs[f.job])) else s
    case Fail(f, message, permanent, retryAfter) => FailTx(s, f, message, permanent, retryAfter)
    case Cancel(id) => EndTx(s, id, Canceled, Abandoned, "canceled by user")
    case Supersede(id, message) => EndTx(s, id, Superseded, Replaced, message)
    case CancelBatch(ids) => CancelBatchTx(s, ids)
    case Purge(id) => PurgeTx(s, id)
    case DeleteWithItem(ids) => RemoveTx(s, ids)
  }

  function Exec(s: Db, es: seq<Event>): Db {
    if es == [] then s else Step(Exec(s, es[..|es| - 1]), es[|es| - 1])
  }

  // ----- what every transaction keeps ------------------------------------

  /** CHECK constraints of the table, and that a pending job always has an attempt left. */
  predicate RowOk(j: Job) {
    && j.inputRevision > 0
    && j.maxAttempts > 0
    && j.attemptCount <= j.maxAttempts
    && (j.status == Running <==> j.leaseUntil.Some?)
    && (j.status == Running <==> j.lockedBy.Some?)
    && (j.status == Running ==> j.attemptCount > 0)
    && (j.status == Pending ==> j.attemptCount < j.maxAttempts)
  }

  /** How a job that stopped at this status must have left its last attempt. */
  predicate Explains(status: Status, last: Outcome) {
    match status
    case Running => last == InProgress
    case Pending => last == RetryableFailed
    case Completed => last == Succeeded
    case Failed => last == TerminallyFailed || last == LeaseExpired
    case Canceled => last == Abandoned || last == RetryableFailed
    case Superseded => last == Replaced || last == RetryableFailed
  }

  /** An attempt that another one followed was retried or ran out of its lease. */
  predicate Bygone(o: Outcome) {
    o == RetryableFailed || o == LeaseExpired
  }

  /** The attempt rows of one job: numbered 1..attempt_count, and only the last can explain the status. */
  predicate LedgerOk(j: Job, id: nat, attempts: map<(nat, nat), Attempt>) {
    && (forall n :: 1 <= n <= j.attemptCount ==> (id, n) in attempts)
    && (forall n :: 1 <= n <= j.attemptCount ==>
          && attempts[(id, n)].inputRevision == j.inputRevision
          && (n < j.attemptCount ==> Bygone(attempts[(id, n)].outcome))
          && (n == j.attemptCount ==> Explains(j.status, attempts[(id, n)].outcome)))
    && (j.status == Running && j.attemptCount > 0 ==>
          j.lockedBy == Some(attempts[(id, j.attemptCount)].leaseToken))
  }

  predicate AttemptOk(a: Attempt) {
    && (a.outcome == InProgress <==> a.finishedAt.None?)
    && (a.outcome == Succeeded <==> a.resultRevision.Some?)
    && (a.finishedAt.Some? ==> a.startedAt <= a.finishedAt.value)
  }

  predicate JobsOk(s: Db) {
    forall id :: id in s.jobs ==> id < s.nextId && RowOk(s.jobs[id]) && LedgerOk(s.jobs[id], id, s.attempts)
  }

  predicate AttemptsOk(s: Db) {
    forall k :: k in s.attempts ==> k.0 in s.jobs && 1 <= k.1 <= s.jobs[k.0].attemptCount && AttemptOk(s.attempts[k])
  }

  predicate SameToken(s: Db, k: (nat, nat), l: (nat, nat)) {
    k in s.attempts && l in s.attempts && s.attempts[k].leaseToken == s.attempts[l].leaseToken
  }

  ghost predicate TokensUnique(s: Db) {
    forall k, l :: SameToken(s, k, l) ==> k == l
  }

  ghost predicate Consistent(s: Db) {
    JobsOk(s) && AttemptsOk(s) && TokensUnique(s)
  }

  /** On a consistent state the current holder's attempt row always matches the job row. */
  lemma HolderFinishable(s: Db, id: nat)
    requires Consistent(s) && id in s.jobs && s.jobs[id].status == Running
    ensures s.jobs[id].lockedBy.Some? && Finishable(s, Holder(id, s.jobs[id]))
  {
    var j := s.jobs[id];
    assert RowOk(j) && LedgerOk(j, id, s.attempts);
    assert (id, j.attemptCount) in s.attempts;
  }

  lemma ActiveFinishable(s: Db, f: Fence)
    requires Consistent(s) && Active(s, f)
    ensures Finishable(s, f) && f == Holder(f.job, s.jobs[f.job])
  {
    HolderFinishable(s, f.job);
  }

  /** Attempt rows keep their tokens for life. */
  lemma TokensKept(s: Db, t: Db)
    requires TokensUnique(s)
    requires forall k :: k in t.attempts ==> k in s.attempts && t.attempts[k].leaseToken == s.attempts[k].leaseToken
    ensures TokensUnique(t)
  {
    forall k, l | SameToken(t, k, l) ensures k == l {
      assert SameToken(s, k, l);
    }
  }

  /** Rewriting one row without touching the ledger. */
  lemma RewriteKeeps(s: Db, id: nat, j: Job)
    requires Consistent(s) && id in s.jobs
    requires RowOk(j) && LedgerOk(j, id, s.attempts) && j.attemptCount == s.jobs[id].attemptCount
    ensures Consistent(WithRow(s, id, j))
  {
    TokensKept(s, WithRow(s, id, j));
  }

  lemma CloseKeepsLedger(s: Db, f: Fence, outcome: Outcome, result: Option<nat>, j: Job, id: nat)
    requires id in s.jobs && LedgerOk(s.jobs[id], id, s.attempts)
    requires f.job in s.jobs && Held(s.jobs[f.job], f) && f.attempt > 0 && Finishable(s, f)
    requires j.status != Running && j.attemptCount == f.attempt && j.inputRevision == f.revision
    requires Explains(j.status, outcome)
    ensures var t := CloseTx(s, f, outcome, result, j); LedgerOk(t.jobs[id], id, t.attempts)
  {
  }

  /** Closing the holder's attempt together with its job. */
  lemma CloseKeeps(s: Db, f: Fence, outcome: Outcome, result: Option<nat>, j: Job)
    requires Consistent(s) && f.job in s.jobs && Held(s.jobs[f.job], f)
    requires outcome != InProgress && (outcome == Succeeded <==> result.Some?)
    requires RowOk(j) && j.status != Running && j.attemptCount == f.attempt && j.inputRevision == f.revision
    requires Explains(j.status, outcome)
    ensures Consistent(CloseTx(s, f, outcome, result, j))
  {
    HolderFinishable(s, f.job);
    var t := CloseTx(s, f, outcome, result, j);
    assert RowOk(s.jobs[f.job]);
    forall id | id in t.jobs ensures LedgerOk(t.jobs[id], id, t.attempts) {
      CloseKeepsLedger(s, f, outcome, result, j, id);
    }
    TokensKept(s, t);
  }

  /** The state a claim opens the next attempt in: every earlier attempt of `id` has ended. */
  ghost predicate ReadyToLease(s: Db, id: nat) {
    && id in s.jobs
    && RowOk(s.jobs[id]) && s.jobs[id].attemptCount < s.jobs[id].maxAttempts
    && (forall i :: i in s.jobs ==> i < s.nextId && RowOk(s.jobs[i]))
    && (forall i :: i in s.jobs && i != id ==> LedgerOk(s.jobs[i], i, s.attempts))
    && (forall n :: 1 <= n <= s.jobs[id].attemptCount ==>
          && (id, n) in s.attempts
          && s.attempts[(id, n)].inputRevision == s.jobs[id].inputRevision
          && Bygone(s.attempts[(id, n)].outcome))
    && AttemptsOk(s) && TokensUnique(s)
  }

  lemma LeaseKeepsJobs(s: Db, before: Db, id: nat, token: Token, leaseUntil: int)
    requires ReadyToLease(s, id) && JobsOk(before)
    ensures JobsOk(LeaseTx(s, before, id, token, leaseUntil))
  {
    var t := LeaseTx(s, before, id, token, leaseUntil);
    if !TokenUsed(s, token) && (id, s.jobs[id].attemptCount + 1) !in s.attempts {
      forall i | i in t.jobs ensures i < t.nextId && RowOk(t.jobs[i]) && LedgerOk(t.jobs[i], i, t.attempts) {
        if i != id { assert LedgerOk(s.jobs[i], i, s.attempts); }
      }
    }
  }

  lemma LeaseKeepsTokens(s: Db, before: Db, id: nat, token: Token, leaseUntil: int)
    requires id in s.jobs && TokensUnique(s) && TokensUnique(before)
    ensures TokensUnique(LeaseTx(s, before, id, token, leaseUntil))
  {
    var t := LeaseTx(s, before, id, token, leaseUntil);
    if !TokenUsed(s, token) && (id, s.jobs[id].attemptCount + 1) !in s.attempts {
      forall k, l | SameToken(t, k, l) ensures k == l {
        assert k in s.attempts && l in s.attempts ==> SameToken(s, k, l);
      }
    }
  }

  lemma LeaseKeepsAttempts(s: Db, before: Db, id: nat, token: Token, leaseUntil: int)
    requires id in s.jobs && AttemptsOk(s) && AttemptsOk(before)
    ensures AttemptsOk(LeaseTx(s, before, id, token, leaseUntil))
  {
  }

  /** Opening an attempt, whether the previous one was retried or has just expired. */
  lemma LeaseKeeps(s: Db, before: Db, id: nat, token: Token, leaseUntil: int)
    requires ReadyToLease(s, id) && Consistent(before)
    ensures Consistent(LeaseTx(s, before, id, token, leaseUntil))
  {
    LeaseKeepsJobs(s, before, id, token, leaseUntil);
    LeaseKeepsTokens(s, before, id, token, leaseUntil);
    LeaseKeepsAttempts(s, before, id, token, leaseUntil);
  }

  /** Closing the expired attempt leaves the job ready for the next one. */
  lemma ExpiredReady(s: Db, id: nat)
    requires Consistent(s) && id in s.jobs && Expired(s.jobs[id], s.now) && s.jobs[id].attemptCount < s.jobs[id].maxAttempts
    ensures s.jobs[id].lockedBy.Some?
    ensures ReadyToLease(CloseTx(s, Holder(id, s.jobs[id]), LeaseExpired, None, s.jobs[id]), id)
  {
    HolderFinishable(s, id);
    var t := CloseTx(s, Holder(id, s.jobs[id]), LeaseExpired, None, s.jobs[id]);
    forall i | i in t.jobs && i != id ensures LedgerOk(t.jobs[i], i, t.attempts) {
      assert LedgerOk(s.jobs[i], i, s.attempts);
    }
    assert LedgerOk(s.jobs[id], id, s.attempts);
    TokensKept(s, t);
  }

  lemma ClaimKeeps(s: Db, id: nat, token: Token, leaseUntil: int)
    requires Consistent(s)
    ensures Consistent(ClaimTx(s, id, token, leaseUntil))
  {
    if id in s.jobs && Claimable(s.jobs[id], s.now) {
      var j := s.jobs[id];
      assert RowOk(j) && LedgerOk(j, id, s.attempts);
      if j.status == Pending {
        LeaseKeeps(s, s, id, token, leaseUntil);
      } else if j.attemptCount < j.maxAttempts {
        HolderFinishable(s, id);
        ExpiredReady(s, id);
        LeaseKeeps(CloseTx(s, Holder(id, j), LeaseExpired, None, j), s, id, token, leaseUntil);
      } else {
        HolderFinishable(s, id);
        CloseKeeps(s, Holder(id, j), LeaseExpired, None, FailedRow(j, "worker lease expired after maximum attempts"));
      }
    }
  }

  lemma EndKeeps(s: Db, id: nat, status: Status, outcome: Outcome, message: string)
    requires Consistent(s)
    requires (status == Canceled && outcome == Abandoned) || (status == Superseded && outcome == Replaced)
    ensures Consistent(EndTx(s, id, status, outcome, message))
  {
    if id in s.jobs && Unfinished(s.jobs[id]) {
      var j := s.jobs[id];
      assert LedgerOk(j, id, s.attempts);
      if j.status == Pending {
        RewriteKeeps(s, id, EndedRow(j, status, message));
      } else {
        HolderFinishable(s, id);
        CloseKeeps(s, Holder(id, j), outcome, None, EndedRow(j, status, message));
      }
    }
  }

  lemma CancelBatchKeepsJob(s: Db, ids: set<nat>, id: nat)
    requires id in s.jobs && RowOk(s.jobs[id]) && LedgerOk(s.jobs[id], id, s.attempts)
    ensures var t := CancelBatchTx(s, ids); RowOk(t.jobs[id]) && LedgerOk(t.jobs[id], id, t.attempts)
  {
    var t := CancelBatchTx(s, ids);
    forall n | 1 <= n <= s.jobs[id].attemptCount ensures (id, n) in t.attempts {
      assert (id, n) in s.attempts;
    }
  }

  lemma CancelBatchKeepsAttempts(s: Db, ids: set<nat>)
    requires AttemptsOk(s) && TokensUnique(s)
    ensures AttemptsOk(CancelBatchTx(s, ids)) && TokensUnique(CancelBatchTx(s, ids))
  {
    var t := CancelBatchTx(s, ids);
    forall k | k in t.attempts
      ensures k.0 in t.jobs && 1 <= k.1 <= t.jobs[k.0].attemptCount && AttemptOk(t.attempts[k])
    {
      assert k in s.attempts && AttemptOk(s.attempts[k]);
    }
    TokensKept(s, t);
  }

  lemma CancelBatchKeeps(s: Db, ids: set<nat>)
    requires Consistent(s)
    ensures Consistent(CancelBatchTx(s, ids))
  {
    CancelBatchKeepsAttempts(s, ids);
    forall id | id in s.jobs
      ensures var t := CancelBatchTx(s, ids); id < t.nextId && RowOk(t.jobs[id]) && LedgerOk(t.jobs[id], id, t.attempts)
    {
      CancelBatchKeepsJob(s, ids, id);
    }
  }

  lemma CreateKeeps(s: Db, revision: nat, max: nat)
    requires Consistent(s)
    ensures Consistent(Step(s, Create(revision, max)))
  {
    var t := Step(s, Create(revision, max));
    if t != s {
      forall id | id in t.jobs ensures LedgerOk(t.jobs[id], id, t.attempts) {
        if id != s.nextId { assert LedgerOk(s.jobs[id], id, s.attempts); }
      }
      TokensKept(s, t);
    }
  }

  lemma RemoveKeeps(s: Db, ids: set<nat>)
    requires Consistent(s)
    ensures Consistent(RemoveTx(s, ids))
  {
    var t := RemoveTx(s, ids);
    forall i | i in t.jobs ensures LedgerOk(t.jobs[i], i, t.attempts) {
      assert LedgerOk(s.jobs[i], i, s.attempts);
      forall n | 1 <= n <= t.jobs[i].attemptCount ensures (i, n) in t.attempts {
        assert (i, n) in s.attempts;
      }
    }
    TokensKept(s, t);
  }

  /** A worker's row may change in every column that the ledger does not depend on. */
  lemma TouchKeeps(s: Db, f: Fence, j: Job)
    requires Consistent(s) && Active(s, f) && j.leaseUntil.Some?
    requires var k := s.jobs[f.job];
      (j.status, j.inputRevision, j.attemptCount, j.maxAttempts, j.lockedBy) == (k.status, k.inputRevision, k.attemptCount, k.maxAttempts, k.lockedBy)
    ensures Consistent(WithRow(s, f.job, j))
  {
    var k := s.jobs[f.job];
    assert RowOk(k) && LedgerOk(k, f.job, s.attempts);
    RewriteKeeps(s, f.job, j);
  }

  lemma CompleteKeeps(s: Db, f: Fence, result: nat)
    requires Consistent(s) && Active(s, f)
    ensures Consistent(CloseTx(s, f, Succeeded, Some(result), CompletedRow(s.jobs[f.job])))
  {
    assert RowOk(s.jobs[f.job]) && LedgerOk(s.jobs[f.job], f.job, s.attempts);
    CloseKeeps(s, f, Succeeded, Some(result), CompletedRow(s.jobs[f.job]));
  }

  lemma FailKeeps(s: Db, f: Fence, message: string, permanent: bool, retryAfter: Option<int>)
    requires Consistent(s) && Active(s, f)
    ensures Consistent(FailTx(s, f, message, permanent, retryAfter))
  {
    var j := s.jobs[f.job];
    assert RowOk(j) && LedgerOk(j, f.job, s.attempts);
    var terminal := permanent || j.attemptCount >= j.maxAttempts;
    var row :=
      if permanent || (terminal && retryAfter.Some?) then FailedRow(j, message)
      else if retryAfter.Some? then DeferredRow(j, retryAfter.value, message)
      else RetriedRow(j, s.now, message);
    CloseKeeps(s, f, if terminal then TerminallyFailed else RetryableFailed, None, row);
  }

  /** Every transaction keeps the queue and its attempt ledger consistent. */
  lemma StepKeepsConsistent(s: Db, e: Event)
    requires Consistent(s)
    ensures Consistent(Step(s, e))
  {
    match e
    case Tick(_) => TokensKept(s, Step(s, e));
    case Create(revision, max) => CreateKeeps(s, revision, max);
    case Claim(id, token, leaseUntil) => ClaimKeeps(s, id, token, leaseUntil);
    case Cancel(id) => EndKeeps(s, id, Canceled, Abandoned, "canceled by user");
    case Supersede(id, message) => EndKeeps(s, id, Superseded, Replaced, message);
    case CancelBatch(ids) => CancelBatchKeeps(s, ids);
    case Purge(id) => RemoveKeeps(s, {id});
    case DeleteWithItem(ids) => RemoveKeeps(s, ids);
    case Extend(f, until) =>
      if Active(s, f) { TouchKeeps(s, f, s.jobs[f.job].(leaseUntil := Some(until))); }
    case SetTotal(f, total) =>
      if Active(s, f) { TouchKeeps(s, f, s.jobs[f.job].(totalSegments := total)); }
    case Progress(f, completed, failed, current, last) =>
      if Active(s, f) {
        TouchKeeps(s, f, s.jobs[f.job].(completedSegments := completed, failedSegments := failed,
                                        currentAnnotation := current, lastResult := last));
      }
    case Complete(f, result) => if Active(s, f) { CompleteKeeps(s, f, result); }
    case Fail(f, message, permanent, retryAfter) =>
      if Active(s, f) { FailKeeps(s, f, message, permanent, retryAfter); }
  }
}
