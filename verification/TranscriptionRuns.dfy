/**
 Safety of the transcription queue over whole runs: every interleaving of
 workers, recovery, cancellation and retention, with a clock that never goes
 back.
 */
module TranscriptionRuns {
  import opened Nullable
  import opened Powers
  import opened TranscriptionJobs

  ghost predicate IsRun(ss: seq<Db>, es: seq<Event>) {
    && |ss| == |es| + 1
    && ss[0] == Empty
    && forall i {:trigger es[i]} :: 0 <= i < |es| ==> ss[i + 1] == Step(ss[i], es[i])
  }

  lemma {:induction false} RunConsistent(ss: seq<Db>, es: seq<Event>, i: nat)
    requires IsRun(ss, es) && i < |ss|
    ensures Consistent(ss[i])
  {
    if i > 0 {
      RunConsistent(ss, es, i - 1);
      StepKeepsConsistent(ss[i - 1], es[i - 1]);
    }
  }

  // ----- the ledger, spelled out ------------------------------------------

  /**
   In every reachable state a job's attempt rows are exactly 1..attempt_count,
   the budget holds, and an attempt is in progress exactly when it is the last
   one of a running job, in which case its fence is the one on the job row.
   */
  lemma LedgerMatchesQueue(ss: seq<Db>, es: seq<Event>, i: nat, id: nat)
    requires IsRun(ss, es) && i < |ss| && id in ss[i].jobs
    ensures var s := ss[i]; var j := s.jobs[id];
      && j.attemptCount <= j.maxAttempts
      && (forall n: nat :: (id, n) in s.attempts <==> 1 <= n <= j.attemptCount)
      && (forall n: nat :: (id, n) in s.attempts ==>
            (s.attempts[(id, n)].outcome == InProgress <==> n == j.attemptCount && j.status == Running))
      && (forall n: nat :: (id, n) in s.attempts && s.attempts[(id, n)].outcome == InProgress ==>
            Held(j, Fence(id, n, s.attempts[(id, n)].inputRevision, s.attempts[(id, n)].leaseToken)))
  {
    RunConsistent(ss, es, i);
    assert RowOk(ss[i].jobs[id]) && LedgerOk(ss[i].jobs[id], id, ss[i].attempts);
  }

  /** A job is completed exactly when its last attempt succeeded, and no other attempt ever did. */
  lemma CompletedByItsLastAttempt(ss: seq<Db>, es: seq<Event>, i: nat, id: nat, n: nat)
    requires IsRun(ss, es) && i < |ss| && id in ss[i].jobs && (id, n) in ss[i].attempts
    ensures ss[i].attempts[(id, n)].outcome == Succeeded
       <==> ss[i].jobs[id].status == Completed && n == ss[i].jobs[id].attemptCount
  {
    RunConsistent(ss, es, i);
    assert LedgerOk(ss[i].jobs[id], id, ss[i].attempts);
  }

  // ----- a fence that is lost is lost for good ----------------------------

  /** `f` names an attempt that already exists, or existed, and may no longer write. */
  predicate Spent(s: Db, f: Fence) {
    && f.job < s.nextId
    && (f.job in s.jobs ==>
          || s.jobs[f.job].attemptCount > f.attempt
          || (s.jobs[f.job].attemptCount == f.attempt && !Active(s, f)))
  }

  /** `id` has been through attempt `n` and is not running it now. */
  predicate Past(s: Db, id: nat, n: nat) {
    && id < s.nextId
    && (id in s.jobs ==>
          || s.jobs[id].attemptCount > n
          || (s.jobs[id].attemptCount == n && s.jobs[id].status != Running))
  }

  predicate Runs(s: Db, id: nat, n: nat) {
    id in s.jobs && s.jobs[id].status == Running && s.jobs[id].attemptCount == n
  }

  /** How one transaction may change one row. */
  predicate RowMove(j: Job, k: Job, now: int, later: int) {
    && now <= later
    && k.inputRevision == j.inputRevision && k.maxAttempts == j.maxAttempts
    && (|| k == j
        || (k.attemptCount == j.attemptCount && Unfinished(j) && k.status != Running)
        || (k.attemptCount == j.attemptCount + 1 && Leasable(j, now) && k.status == Running)
        || (j.status == Running && Leased(j, now) && later == now
            && k.status == Running && k.attemptCount == j.attemptCount && k.lockedBy == j.lockedBy))
  }

  /** Rows move as `RowMove` says, and identifiers are never reused. */
  predicate Moves(s: Db, t: Db, id: nat) {
    && s.now <= t.now && s.nextId <= t.nextId
    && (id < s.nextId && id !in s.jobs ==> id !in t.jobs)
    && (id in s.jobs && id in t.jobs ==> RowMove(s.jobs[id], t.jobs[id], s.now, t.now))
  }

  lemma ClaimMoves(s: Db, id: nat, token: Token, leaseUntil: int, i: nat)
    requires Consistent(s)
    ensures Moves(s, ClaimTx(s, id, token, leaseUntil), i)
  {
    if id in s.jobs && s.jobs[id].status == Running { HolderFinishable(s, id); }
  }

  lemma WorkerMoves(s: Db, e: Event, i: nat)
    requires Consistent(s) && WorkerEvent(e)
    ensures Moves(s, Step(s, e), i)
  {
    if Active(s, e.fence) { ActiveFinishable(s, e.fence); }
  }

  lemma EndMoves(s: Db, id: nat, status: Status, outcome: Outcome, message: string, i: nat)
    requires status == Canceled || status == Superseded
    ensures Moves(s, EndTx(s, id, status, outcome, message), i)
  {
  }

  lemma StepMoves(s: Db, e: Event, id: nat)
    requires Consistent(s)
    ensures Moves(s, Step(s, e), id)
  {
    match e
    case Claim(i, token, leaseUntil) => ClaimMoves(s, i, token, leaseUntil, id);
    case Cancel(i) => EndMoves(s, i, Canceled, Abandoned, "canceled by user", id);
    case Supersede(i, message) => EndMoves(s, i, Superseded, Replaced, message, id);
    case Tick(_) =>
    case Create(_, _) =>
    case CancelBatch(_) =>
    case Purge(_) =>
    case DeleteWithItem(_) =>
    case _ => WorkerMoves(s, e, id);
  }

  /** A row disappears only when retention finds it finished, or with its item, finished or not. */
  lemma DisappearsExactly(s: Db, e: Event, id: nat)
    requires Consistent(s) && id in s.jobs
    ensures id !in Step(s, e).jobs <==> (e == Purge(id) && !Unfinished(s.jobs[id])) || (e.DeleteWithItem? && id in e.ids)
  {
    if e.Claim? { ClaimKeepsRows(s, e); } else if WorkerEvent(e) { WorkerKeepsRows(s, e); }
  }

  lemma ClaimKeepsRows(s: Db, e: Event)
    requires e.Claim?
    ensures Step(s, e).jobs.Keys == s.jobs.Keys
  {
  }

  lemma WorkerKeepsRows(s: Db, e: Event)
    requires WorkerEvent(e)
    ensures Step(s, e).jobs.Keys == s.jobs.Keys
  {
  }

  lemma StepKeepsSpent(s: Db, e: Event, f: Fence)
    requires Consistent(s) && Spent(s, f)
    ensures Spent(Step(s, e), f)
  {
    StepMoves(s, e, f.job);
  }

  lemma StepSpends(s: Db, e: Event, f: Fence)
    requires Consistent(s) && Active(s, f)
    ensures Active(Step(s, e), f) || Spent(Step(s, e), f)
  {
    assert f.job < s.nextId;
    StepMoves(s, e, f.job);
  }

  lemma {:induction false} SpentForever(ss: seq<Db>, es: seq<Event>, f: Fence, i: nat, k: nat)
    requires IsRun(ss, es) && i <= k < |ss| && Spent(ss[i], f)
    ensures Spent(ss[k], f)
  {
    if i < k {
      SpentForever(ss, es, f, i, k - 1);
      SpentNext(ss, es, f, k - 1);
    }
  }

  lemma SpentNext(ss: seq<Db>, es: seq<Event>, f: Fence, k: nat)
    requires IsRun(ss, es) && k < |es| && Spent(ss[k], f)
    ensures Spent(ss[k + 1], f)
  {
    RunConsistent(ss, es, k);
    StepKeepsSpent(ss[k], es[k], f);
  }

  /** Losing the lease in any way at all, expiry included, spends the fence. */
  lemma {:induction false} LostIsSpent(ss: seq<Db>, es: seq<Event>, f: Fence, i: nat, k: nat)
    requires IsRun(ss, es) && i <= k < |ss| && Active(ss[i], f) && !Active(ss[k], f)
    ensures Spent(ss[k], f)
  {
    if !Active(ss[k - 1], f) {
      LostIsSpent(ss, es, f, i, k - 1);
      SpentForever(ss, es, f, k - 1, k);
    } else {
      RunConsistent(ss, es, k - 1);
      StepSpends(ss[k - 1], es[k - 1], f);
    }
  }

  /**
   A worker whose lease was closed, re-leased, cancelled, superseded, deleted with
   its item or merely ran out never changes anything again: no statement carrying its fence
   has any effect in any later state.
   */
  lemma NoWriteAfterLosingTheLease(ss: seq<Db>, es: seq<Event>, f: Fence, i: nat, lost: nat, k: nat)
    requires IsRun(ss, es) && i <= lost <= k < |es|
    requires Active(ss[i], f) && !Active(ss[lost], f)
    requires WorkerEvent(es[k]) && es[k].fence == f
    ensures ss[k + 1] == ss[k]
  {
    LostIsSpent(ss, es, f, i, lost);
    SpentForever(ss, es, f, lost, k);
  }

  /** At most one closing write succeeds for a fence in the whole run. */
  lemma ClosesAtMostOnce(ss: seq<Db>, es: seq<Event>, f: Fence, i: nat, k: nat)
    requires IsRun(ss, es) && i < k < |es|
    requires Closing(es[i]) && es[i].fence == f && ss[i + 1] != ss[i]
    requires Closing(es[k]) && es[k].fence == f
    ensures ss[k + 1] == ss[k]
  {
    RunConsistent(ss, es, i);
    ActiveFinishable(ss[i], f);
    NoWriteAfterLosingTheLease(ss, es, f, i, i + 1, k);
  }

  // ----- one contiguous interval per attempt ------------------------------

  lemma StepKeepsPast(s: Db, e: Event, id: nat, n: nat)
    requires Consistent(s)
    ensures Past(s, id, n) ==> Past(Step(s, e), id, n)
    ensures Runs(s, id, n) ==> Runs(Step(s, e), id, n) || Past(Step(s, e), id, n)
    ensures Runs(s, id, n) && Runs(Step(s, e), id, n) ==>
      Step(s, e).jobs[id].lockedBy == s.jobs[id].lockedBy && Step(s, e).jobs[id].inputRevision == s.jobs[id].inputRevision
  {
    StepMoves(s, e, id);
  }

  lemma {:induction false} PastForever(ss: seq<Db>, es: seq<Event>, id: nat, n: nat, i: nat, k: nat)
    requires IsRun(ss, es) && i <= k < |ss| && Past(ss[i], id, n)
    ensures Past(ss[k], id, n)
  {
    if i < k {
      PastForever(ss, es, id, n, i, k - 1);
      PastNext(ss, es, id, n, k - 1);
    }
  }

  lemma PastNext(ss: seq<Db>, es: seq<Event>, id: nat, n: nat, k: nat)
    requires IsRun(ss, es) && k < |es|
    ensures Past(ss[k], id, n) ==> Past(ss[k + 1], id, n)
    ensures Runs(ss[k], id, n) ==> Runs(ss[k + 1], id, n) || Past(ss[k + 1], id, n)
    ensures Runs(ss[k], id, n) && Runs(ss[k + 1], id, n) ==>
      ss[k + 1].jobs[id].lockedBy == ss[k].jobs[id].lockedBy && ss[k + 1].jobs[id].inputRevision == ss[k].jobs[id].inputRevision
  {
    RunConsistent(ss, es, k);
    StepKeepsPast(ss[k], es[k], id, n);
  }

  lemma {:induction false} RunsOrPast(ss: seq<Db>, es: seq<Event>, id: nat, n: nat, i: nat, k: nat)
    requires IsRun(ss, es) && i <= k < |ss| && Runs(ss[i], id, n)
    ensures Runs(ss[k], id, n) || Past(ss[k], id, n)
    ensures Runs(ss[k], id, n) ==>
      && ss[k].jobs[id].lockedBy == ss[i].jobs[id].lockedBy
      && ss[k].jobs[id].inputRevision == ss[i].jobs[id].inputRevision
  {
    if i < k {
      RunsOrPast(ss, es, id, n, i, k - 1);
      PastNext(ss, es, id, n, k - 1);
    }
  }

  /** Attempt `n` of a job is running over one contiguous stretch of the run, under one token. */
  lemma OneIntervalOneToken(ss: seq<Db>, es: seq<Event>, id: nat, n: nat, i: nat, m: nat, k: nat)
    requires IsRun(ss, es) && i <= m <= k < |ss|
    requires Runs(ss[i], id, n) && Runs(ss[k], id, n)
    ensures Runs(ss[m], id, n)
    ensures ss[i].jobs[id].lockedBy == ss[m].jobs[id].lockedBy == ss[k].jobs[id].lockedBy
    ensures ss[i].jobs[id].inputRevision == ss[m].jobs[id].inputRevision == ss[k].jobs[id].inputRevision
  {
    RunsOrPast(ss, es, id, n, i, m);
    if Past(ss[m], id, n) {
      PastForever(ss, es, id, n, m, k);
    }
    RunsOrPast(ss, es, id, n, i, k);
  }

  // ----- finality ----------------------------------------------------------

  /** A finished job and a finished attempt are the same in both states, where both have them. */
  predicate SameFinished(s: Db, t: Db, id: nat, n: nat) {
    && (id in s.jobs && !Unfinished(s.jobs[id]) && id in t.jobs ==> t.jobs[id] == s.jobs[id])
    && ((id, n) in s.attempts && s.attempts[(id, n)].outcome != InProgress && (id, n) in t.attempts
        ==> t.attempts[(id, n)] == s.attempts[(id, n)])
  }

  /** What goes missing from `s` to `t` is gone for good. */
  predicate GoneBetween(s: Db, t: Db, id: nat, n: nat) {
    && (id in s.jobs ==> id < t.nextId)
    && ((id, n) in s.attempts && (id, n) !in t.attempts ==> id < t.nextId && id !in t.jobs)
  }

  /** What one step keeps of the finished job and attempt, and of those already gone. */
  predicate KeepsFinished(s: Db, t: Db, id: nat, n: nat) {
    SameFinished(s, t, id, n) && (id < s.nextId && id !in s.jobs ==> id !in t.jobs && (id, n) !in t.attempts)
  }

  lemma FinishedChain(a: Db, b: Db, c: Db, id: nat, n: nat)
    requires SameFinished(a, b, id, n) && GoneBetween(a, b, id, n) && KeepsFinished(b, c, id, n)
    ensures SameFinished(a, c, id, n)
  {
  }

  /** A finished job and a finished attempt never change again; they can only be deleted. */
  lemma {:induction false} FinishedIsFinal(ss: seq<Db>, es: seq<Event>, id: nat, n: nat, i: nat, k: nat)
    requires IsRun(ss, es) && i <= k < |ss|
    ensures SameFinished(ss[i], ss[k], id, n)
  {
    if i < k {
      FinishedIsFinal(ss, es, id, n, i, k - 1);
      GoneForever(ss, es, id, n, i, k - 1);
      RunKeepsFinished(ss, es, k - 1, id, n);
      FinishedChain(ss[i], ss[k - 1], ss[k], id, n);
    }
  }

  /** Finished attempts keep their rows, and an attempt row only goes away with its job. */
  predicate LedgerMoves(s: Db, t: Db, k: (nat, nat)) {
    && (k in s.attempts && s.attempts[k].outcome != InProgress && k in t.attempts ==> t.attempts[k] == s.attempts[k])
    && (k in s.attempts && k !in t.attempts ==> k.0 !in t.jobs)
  }

  lemma ClaimLedgerMoves(s: Db, id: nat, token: Token, leaseUntil: int, k: (nat, nat))
    requires JobsOk(s) && AttemptsOk(s)
    ensures LedgerMoves(s, ClaimTx(s, id, token, leaseUntil), k)
  {
    if k in s.attempts { assert k.1 <= s.jobs[k.0].attemptCount; }
  }

  lemma EndLedgerMoves(s: Db, id: nat, status: Status, outcome: Outcome, message: string, k: (nat, nat))
    ensures LedgerMoves(s, EndTx(s, id, status, outcome, message), k)
  {
  }

  lemma WorkerLedgerMoves(s: Db, e: Event, k: (nat, nat))
    requires WorkerEvent(e)
    ensures LedgerMoves(s, Step(s, e), k)
  {
  }

  lemma StepLedgerMoves(s: Db, e: Event, k: (nat, nat))
    requires Consistent(s)
    ensures LedgerMoves(s, Step(s, e), k)
  {
    match e
    case Claim(id, token, leaseUntil) => ClaimLedgerMoves(s, id, token, leaseUntil, k);
    case CancelBatch(_) =>
    case Purge(_) =>
    case DeleteWithItem(_) =>
    case Cancel(id) => EndLedgerMoves(s, id, Canceled, Abandoned, "canceled by user", k);
    case Supersede(id, message) => EndLedgerMoves(s, id, Superseded, Replaced, message, k);
    case Tick(_) =>
    case Create(_, _) =>
    case _ => WorkerLedgerMoves(s, e, k);
  }

  lemma StepKeepsFinished(s: Db, e: Event, id: nat, n: nat)
    requires Consistent(s)
    ensures KeepsFinished(s, Step(s, e), id, n) && LedgerMoves(s, Step(s, e), (id, n))
  {
    StepMoves(s, e, id);
    StepLedgerMoves(s, e, (id, n));
    StepKeepsConsistent(s, e);
  }

  lemma RunKeepsFinished(ss: seq<Db>, es: seq<Event>, k: nat, id: nat, n: nat)
    requires IsRun(ss, es) && k < |es|
    ensures KeepsFinished(ss[k], ss[k + 1], id, n)
  {
    RunConsistent(ss, es, k);
    StepKeepsFinished(ss[k], es[k], id, n);
  }

  /** A deleted job stays deleted, and so do its attempts. */
  lemma {:induction false} GoneForever(ss: seq<Db>, es: seq<Event>, id: nat, n: nat, i: nat, k: nat)
    requires IsRun(ss, es) && i <= k < |ss|
    ensures id < ss[i].nextId && id !in ss[i].jobs ==> id < ss[k].nextId && id !in ss[k].jobs
    ensures GoneBetween(ss[i], ss[k], id, n)
  {
    RunConsistent(ss, es, i);
    if i < k {
      GoneForever(ss, es, id, n, i, k - 1);
      RunConsistent(ss, es, k - 1);
      StepMoves(ss[k - 1], es[k - 1], id);
      StepKeepsFinished(ss[k - 1], es[k - 1], id, n);
    }
  }

  // ----- recovery never gets stuck ----------------------------------------

  /**
   A claim of a claimable job always commits when its token is new: no
   row-count check in the transaction can fail on a reachable state.
   */
  lemma ClaimNeverAborts(ss: seq<Db>, es: seq<Event>, i: nat, id: nat, token: Token, leaseUntil: int)
    requires IsRun(ss, es) && i < |ss| && id in ss[i].jobs && Claimable(ss[i].jobs[id], ss[i].now)
    requires !TokenUsed(ss[i], token)
    ensures var s := ss[i]; var t := Step(s, Claim(id, token, leaseUntil)); var j := s.jobs[id];
      if Exhausted(j, s.now)
      then t.jobs[id].status == Failed && t.attempts[(id, j.attemptCount)].outcome == LeaseExpired
      else Held(t.jobs[id], Fence(id, j.attemptCount + 1, j.inputRevision, token))
           && t.jobs[id].leaseUntil == Some(leaseUntil)
           && (j.status == Running ==> t.attempts[(id, j.attemptCount)].outcome == LeaseExpired)
  {
    var s := ss[i];
    var j := s.jobs[id];
    RunConsistent(ss, es, i);
    assert RowOk(j) && LedgerOk(j, id, s.attempts);
    if j.status == Running {
      HolderFinishable(s, id);
      var mid := CloseTx(s, Holder(id, j), LeaseExpired, None, j);
      forall k | k in mid.attempts ensures mid.attempts[k].leaseToken != token {
        assert k in s.attempts && mid.attempts[k].leaseToken == s.attempts[k].leaseToken;
      }
    }
  }

  /** When an unfinished row comes due. */
  function DueAt(j: Job): int {
    if j.status == Running then j.leaseUntil.GetOr(0) + 1 else j.retryAfter.GetOr(0)
  }

  /** Every unfinished job of a reachable state becomes claimable once enough time passes. */
  lemma UnfinishedBecomesClaimable(ss: seq<Db>, es: seq<Event>, i: nat, id: nat, t: int)
    requires IsRun(ss, es) && i < |ss| && id in ss[i].jobs && Unfinished(ss[i].jobs[id])
    requires t >= DueAt(ss[i].jobs[id])
    ensures Claimable(ss[i].jobs[id], t)
  {
    RunConsistent(ss, es, i);
    assert RowOk(ss[i].jobs[id]);
  }

  /** A pending row whose attempts are used up. */
  predicate Stranded(j: Job) {
    j.status == Pending && j.attemptCount >= j.maxAttempts
  }

  /** A user, a newer revision or a deletion ends the job from outside. */
  predicate EndsJob(e: Event, id: nat) {
    e == Cancel(id) || (e.Supersede? && e.id == id) || (e.CancelBatch? && id in e.ids) || (e.DeleteWithItem? && id in e.ids)
  }

  lemma StepKeepsStranded(s: Db, e: Event, id: nat)
    requires id in s.jobs && id < s.nextId && Stranded(s.jobs[id]) && !EndsJob(e, id)
    ensures id in Step(s, e).jobs && id < Step(s, e).nextId && Step(s, e).jobs[id] == s.jobs[id]
  {
    if WorkerEvent(e) { WorkerKeepsRows(s, e); }
  }

  /** No worker and no amount of time ever moves such a row again. */
  lemma {:induction false} StrandedForever(s: Db, es: seq<Event>, id: nat)
    requires id in s.jobs && id < s.nextId && Stranded(s.jobs[id]) && forall i :: 0 <= i < |es| ==> !EndsJob(es[i], id)
    ensures id in Exec(s, es).jobs && id < Exec(s, es).nextId && Exec(s, es).jobs[id] == s.jobs[id]
    decreases |es|
  {
    if es != [] {
      StrandedForever(s, es[..|es| - 1], id);
      StepKeepsStranded(Exec(s, es[..|es| - 1]), es[|es| - 1], id);
    }
  }

  /**
   The Defer statement alone would leave a row that never comes due exactly when
   the attempts are used up; elsewhere the row comes due.  The store reaches it only
   below the budget, so no run contains a stranded row.
   */
  lemma RawDeferStrandsExactly(j: Job, retryAfter: int, message: string)
    requires j.status == Running
    ensures Stranded(DeferredRow(j, retryAfter, message)) <==> forall t :: !Claimable(DeferredRow(j, retryAfter, message), t)
  {
    if !Stranded(DeferredRow(j, retryAfter, message)) {
      assert Claimable(DeferredRow(j, retryAfter, message), retryAfter);
    }
  }

  lemma NeverStranded(ss: seq<Db>, es: seq<Event>, i: nat, id: nat)
    requires IsRun(ss, es) && i < |ss| && id in ss[i].jobs
    ensures !Stranded(ss[i].jobs[id])
  {
    RunConsistent(ss, es, i);
    assert RowOk(ss[i].jobs[id]);
  }

  /** Retry delays never shrink from one attempt to the next and never exceed five minutes. */
  lemma BackoffGrows(n: nat)
    ensures Backoff(n) <= Backoff(n + 1) <= 300
    ensures n >= 1 ==> Backoff(n) >= 20
  {
    if n >= 1 { Pow2AtLeast(n); }
  }

  lemma {:induction false} Pow2AtLeast(n: nat)
    requires n >= 1
    ensures Pow2(n) >= 2
  {
    if n > 1 { Pow2AtLeast(n - 1); }
  }
}
