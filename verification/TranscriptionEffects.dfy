/**
 What each queue transaction means to whoever looks at the rows afterwards: the
 status, the outcome of the attempt, who may write, and when the job can be
 claimed again.
 */
module TranscriptionEffects {
  import opened Nullable
  import opened Powers
  import opened TranscriptionJobs

  function Least(a: int, b: int): int {
    if a < b then a else b
  }

  // ----- what is left alone ------------------------------------------------------

  /** The jobs an event names. */
  function Names(e: Event): set<nat> {
    match e
    case Tick(_) => {}
    case Create(_, _) => {}
    case Claim(id, _, _) => {id}
    case Extend(f, _) => {f.job}
    case SetTotal(f, _) => {f.job}
    case Progress(f, _, _, _, _) => {f.job}
    case Complete(f, _) => {f.job}
    case Fail(f, _, _, _) => {f.job}
    case Cancel(id) => {id}
    case Supersede(id, _) => {id}
    case CancelBatch(ids) => ids
    case Purge(id) => {id}
    case DeleteWithItem(ids) => ids
  }

  /** The row of `id` and its attempt `n` are the same in both states. */
  predicate Same(s: Db, t: Db, id: nat, n: nat) {
    && (id in s.jobs <==> id in t.jobs) && (id in s.jobs && id in t.jobs ==> t.jobs[id] == s.jobs[id])
    && ((id, n) in s.attempts <==> (id, n) in t.attempts)
    && ((id, n) in s.attempts && (id, n) in t.attempts ==> t.attempts[(id, n)] == s.attempts[(id, n)])
  }

  /** Every row of every job an event does not name is as it was, and time and identifiers move by their own events alone. */
  lemma OthersUntouched(s: Db, e: Event, id: nat, n: nat)
    requires id !in Names(e) && (e.Create? ==> id != s.nextId)
    ensures Same(s, Step(s, e), id, n)
    ensures !e.Tick? ==> Step(s, e).now == s.now
    ensures !e.Create? ==> Step(s, e).nextId == s.nextId
  {
    match e
    case Claim(c, token, leaseUntil) => ClaimSparesOthers(s, c, token, leaseUntil, id, n);
    case CancelBatch(ids) => BatchSparesOthers(s, ids, id, n);
    case DeleteWithItem(ids) => RemovalSparesOthers(s, ids, id, n);
    case Purge(c) => RemovalSparesOthers(s, {c}, id, n);
    case _ => WorkSparesOthers(s, e, id, n);
  }

  lemma ClaimSparesOthers(s: Db, c: nat, token: Token, leaseUntil: int, id: nat, n: nat)
    requires id != c
    ensures var t := ClaimTx(s, c, token, leaseUntil); Same(s, t, id, n) && t.now == s.now && t.nextId == s.nextId
  {
  }

  lemma BatchSparesOthers(s: Db, ids: set<nat>, id: nat, n: nat)
    requires id !in ids
    ensures Same(s, CancelBatchTx(s, ids), id, n)
  {
  }

  lemma RemovalSparesOthers(s: Db, ids: set<nat>, id: nat, n: nat)
    requires id !in ids
    ensures Same(s, RemoveTx(s, ids), id, n)
  {
  }

  lemma WorkSparesOthers(s: Db, e: Event, id: nat, n: nat)
    requires !e.Claim? && !e.CancelBatch? && !e.DeleteWithItem? && !e.Purge?
    requires id !in Names(e) && (e.Create? ==> id != s.nextId)
    ensures var t := Step(s, e); Same(s, t, id, n) && (!e.Tick? ==> t.now == s.now) && (!e.Create? ==> t.nextId == s.nextId)
  {
  }

  // ----- a new job ------------------------------------------------------------------

  /** A created job has a new identifier, the given revision and budget, no attempt, and can be claimed from the start. */
  lemma CreatedExactly(s: Db, revision: nat, max: nat, at: int)
    requires Consistent(s)
    ensures var t := Step(s, Create(revision, max));
      if revision == 0 || max == 0 then t == s
      else
        && s.nextId !in s.jobs && t.jobs.Keys == s.jobs.Keys + {s.nextId}
        && (var j := t.jobs[s.nextId];
            && j.inputRevision == revision && j.maxAttempts == max && j.attemptCount == 0
            && j.createdAt == s.now && Claimable(j, at))
        && forall n: nat :: (s.nextId, n) !in t.attempts
  {
  }

  // ----- holding a lease ---------------------------------------------------------------

  /**
   At every time a running job belongs to its holder, to whoever claims it, or to
   nobody: before the end of the lease, after it, and in the very second it ends.
   */
  lemma HandoverExactly(s: Db, id: nat, at: int)
    requires Consistent(s) && id in s.jobs && s.jobs[id].status == Running
    ensures
      var j := s.jobs[id];
      && j.leaseUntil.Some? && j.lockedBy.Some?
      && (Active(s.(now := at), Holder(id, j)) <==> at < j.leaseUntil.value)
      && (Claimable(j, at) <==> at > j.leaseUntil.value)
  {
    assert RowOk(s.jobs[id]);
  }

  /** After an extension the holder may write exactly until the new end, and nothing else has changed. */
  lemma ExtendedExactly(s: Db, f: Fence, until: int, at: int)
    requires Active(s, f)
    ensures var t := Step(s, Extend(f, until));
      && (Active(t.(now := at), f) <==> at < until)
      && t == s.(jobs := t.jobs) && t.jobs.Keys == s.jobs.Keys
      && t.jobs[f.job].(leaseUntil := None) == s.jobs[f.job].(leaseUntil := None)
  {
  }

  /** A claim starts the next attempt with a clean record, held by the claimant exactly until the end of its lease. */
  lemma ClaimedExactly(s: Db, id: nat, token: Token, leaseUntil: int, at: int)
    requires Consistent(s) && id in s.jobs && Leasable(s.jobs[id], s.now) && !TokenUsed(s, token)
    ensures var t := Step(s, Claim(id, token, leaseUntil)); var j, n := s.jobs[id], s.jobs[id].attemptCount + 1;
      && id in t.jobs && (id, n) in t.attempts
      && (Active(t.(now := at), Fence(id, n, j.inputRevision, token)) <==> at < leaseUntil)
      && (var k := t.jobs[id];
          && k.attemptCount == n && k.maxAttempts == j.maxAttempts && k.createdAt == j.createdAt
          && k.totalSegments == 0 && k.completedSegments == 0 && k.failedSegments == 0
          && k.currentAnnotation.None? && k.lastResult.None? && k.errorMessage.None?)
      && (var a := t.attempts[(id, n)]; a.outcome == InProgress && a.startedAt == s.now && a.leaseToken == token)
      && (j.status == Running ==> (id, n - 1) in t.attempts && t.attempts[(id, n - 1)].outcome == LeaseExpired)
  {
    var j := s.jobs[id];
    assert RowOk(j) && LedgerOk(j, id, s.attempts);
    if j.status == Running {
      HolderFinishable(s, id);
      var mid := CloseTx(s, Holder(id, j), LeaseExpired, None, j);
      forall k | k in mid.attempts ensures mid.attempts[k].leaseToken != token {
        assert k in s.attempts && mid.attempts[k].leaseToken == s.attempts[k].leaseToken;
      }
    }
  }

  // ----- reporting progress -------------------------------------------------------------

  /** Progress is read back as it was written; the lease, the attempt and everything else stay. */
  lemma ProgressReadBack(s: Db, f: Fence, completed: int, failed: int, current: Option<string>, last: Option<string>, total: int)
    requires Active(s, f)
    ensures var t := Step(Step(s, SetTotal(f, total)), Progress(f, completed, failed, current, last)); var j := t.jobs[f.job];
      && Active(t, f) && t.attempts == s.attempts && t.jobs.Keys == s.jobs.Keys
      && j.totalSegments == total && j.completedSegments == completed && j.failedSegments == failed
      && j.currentAnnotation == current && j.lastResult == last
      && j.leaseUntil == s.jobs[f.job].leaseUntil && j.retryAfter == s.jobs[f.job].retryAfter && j.errorMessage == s.jobs[f.job].errorMessage
  {
  }

  // ----- closing ------------------------------------------------------------------------

  /** The attempt a fence names has ended with `outcome`, not before it started, and carries `result`. */
  predicate Ended(s: Db, f: Fence, outcome: Outcome, result: Option<nat>, now: int) {
    && (f.job, f.attempt) in s.attempts
    && var a := s.attempts[(f.job, f.attempt)];
       && a.outcome == outcome && a.resultRevision == result
       && a.finishedAt.Some? && a.finishedAt.value >= a.startedAt && a.finishedAt.value >= now
       && (a.finishedAt.value == a.startedAt || a.finishedAt.value == now)
  }

  /** The job no longer has a holder or a line in hand; what it is and what it counted stays. */
  predicate LetGo(j: Job, k: Job) {
    && k.leaseUntil.None? && k.lockedBy.None? && k.currentAnnotation.None?
    && k.inputRevision == j.inputRevision && k.attemptCount == j.attemptCount && k.maxAttempts == j.maxAttempts && k.createdAt == j.createdAt
    && k.totalSegments == j.totalSegments && k.completedSegments == j.completedSegments && k.failedSegments == j.failedSegments
  }

  /** Completion makes the job completed and its attempt the one that succeeded, with its result; its counts stay. */
  lemma CompletedExactly(s: Db, f: Fence, result: nat, at: int)
    requires Active(s, f) && Finishable(s, f)
    ensures var t := Step(s, Complete(f, result)); var j := t.jobs[f.job];
      && f.job in t.jobs && j.status == Completed && Ended(t, f, Succeeded, Some(result), s.now)
      && !Claimable(j, at) && !Active(t.(now := at), f)
      && LetGo(s.jobs[f.job], j) && j.lastResult.None?
      && j.retryAfter == s.jobs[f.job].retryAfter && j.errorMessage == s.jobs[f.job].errorMessage
  {
  }

  /** When a failed attempt is tried again: at the given time, or after a delay that doubles up to five minutes. */
  function RetryAt(now: int, attempt: nat, retryAfter: Option<int>): int {
    if retryAfter.Some? then retryAfter.value else now + Least(300, 10 * Pow2(attempt))
  }

  /**
   A failure is retried exactly when it is not permanent and attempts remain.  The
   job then waits, and is claimable from its retry time on and not before; its
   attempt is recorded as retryable.  Otherwise job and attempt have failed for good
   and no time makes the job claimable.
   */
  lemma FailureExactly(s: Db, f: Fence, message: string, permanent: bool, retryAfter: Option<int>, at: int)
    requires Active(s, f) && Finishable(s, f)
    ensures var t := Step(s, Fail(f, message, permanent, retryAfter)); var j, k := s.jobs[f.job], t.jobs[f.job];
      var again := !permanent && j.attemptCount < j.maxAttempts;
      && f.job in t.jobs && k.errorMessage == Some(message) && LetGo(j, k)
      && (k.lastResult.None? <==> permanent || retryAfter.Some? || j.lastResult.None?) && (k.lastResult.Some? ==> k.lastResult == j.lastResult)
      && (Unfinished(k) <==> again) && !Active(t.(now := at), f)
      && (again ==>
            && k.status == Pending && Ended(t, f, RetryableFailed, None, s.now)
            && (Claimable(k, at) <==> at >= RetryAt(s.now, j.attemptCount, retryAfter)))
      && (!again ==> k.status == Failed && Ended(t, f, TerminallyFailed, None, s.now) && !Claimable(k, at))
  {
  }

  lemma BackoffDoubles(n: nat)
    ensures RetryAt(0, 0, None) == 10 && RetryAt(0, n + 1, None) == Least(300, 2 * RetryAt(0, n, None))
  {
  }

  // ----- ended from outside ---------------------------------------------------------------

  /**
   Cancelling or superseding ends an unfinished job for good, with the running attempt
   if there is one; a finished or missing job is left as it is.
   */
  lemma EndedExactly(s: Db, e: Event, id: nat, f: Fence, at: int)
    requires Consistent(s) && (e == Cancel(id) || (e.Supersede? && e.id == id)) && f.job == id
    ensures var t := Step(s, e); var outcome := if e.Cancel? then Abandoned else Replaced;
      if id !in s.jobs || !Unfinished(s.jobs[id]) then t == s
      else
        && id in t.jobs && t.jobs[id].status == (if e.Cancel? then Canceled else Superseded)
        && LetGo(s.jobs[id], t.jobs[id]) && t.jobs[id].retryAfter.None? && t.jobs[id].lastResult.None?
        && t.jobs[id].errorMessage == Some(if e.Cancel? then "canceled by user" else e.message)
        && !Claimable(t.jobs[id], at) && !Active(t.(now := at), f)
        && (Held(s.jobs[id], f) ==> Ended(t, f, outcome, None, s.now))
        && (s.jobs[id].status == Pending ==> t.attempts == s.attempts)
  {
    if id in s.jobs && s.jobs[id].status == Running { HolderFinishable(s, id); }
  }

  /** Cancelling a batch ends each of its unfinished jobs, running ones included, and leaves its finished ones. */
  lemma BatchCanceledExactly(s: Db, ids: set<nat>, id: nat, f: Fence, at: int)
    requires Consistent(s) && id in ids && id in s.jobs && f.job == id
    ensures var t := Step(s, CancelBatch(ids));
      && id in t.jobs && t.jobs.Keys == s.jobs.Keys && t.attempts.Keys == s.attempts.Keys
      && (!Unfinished(s.jobs[id]) ==> t.jobs[id] == s.jobs[id])
      && (Unfinished(s.jobs[id]) ==>
            && t.jobs[id].status == Canceled && t.jobs[id].errorMessage == Some("canceled with upload batch")
            && LetGo(s.jobs[id].(currentAnnotation := None), t.jobs[id].(currentAnnotation := None)) && t.jobs[id].lastResult.None?
            && t.jobs[id].currentAnnotation == s.jobs[id].currentAnnotation && t.jobs[id].retryAfter == s.jobs[id].retryAfter
            && !Claimable(t.jobs[id], at) && !Active(t.(now := at), f))
      && (Held(s.jobs[id], f) ==> Ended(t, f, Abandoned, None, s.now))
      && forall n: nat :: (id, n) in s.attempts && s.attempts[(id, n)].outcome != InProgress ==> t.attempts[(id, n)] == s.attempts[(id, n)]
  {
    if Held(s.jobs[id], f) { HolderFinishable(s, id); }
  }
}
