/**
 The queue as the store drives it: one method per SQL statement, and one per
 transaction that runs several of them and rolls back when a row count is not
 one.  Every transaction is proved to be one step of `TranscriptionJobs`.
 */
module TranscriptionJobStore {
  import opened Nullable
  import opened TranscriptionJobs

  datatype ClaimResult = Nothing | Claimed(fence: Fence) | Aborted

  ghost function RunningIds(jobs: map<nat, Job>): set<nat> {
    set id | id in jobs && jobs[id].status == Running
  }

  lemma ExecAppend(s: Db, es: seq<Event>, e: Event)
    ensures Exec(s, es + [e]) == Step(Exec(s, es), e)
  {
    assert (es + [e])[..|es|] == es;
  }

  /** Failing an exhausted job takes exactly that job out of the running ones. */
  lemma FailingShrinks(s: Db, id: nat, token: Token, leaseUntil: int)
    requires id in s.jobs && Exhausted(s.jobs[id], s.now)
    requires Step(s, Claim(id, token, leaseUntil)) != s
    ensures RunningIds(Step(s, Claim(id, token, leaseUntil)).jobs) == RunningIds(s.jobs) - {id}
    ensures id in RunningIds(s.jobs)
  {
  }

  class Store {
    var now: int
    var nextId: nat
    var jobs: map<nat, Job>
    var attempts: map<(nat, nat), Attempt>

    ghost function View(): Db
      reads this
    {
      Db(now, nextId, jobs, attempts)
    }

    constructor ()
      ensures View() == Empty
    {
      now, nextId, jobs, attempts := 0, 1, map[], map[];
    }

    // ----- statements ------------------------------------------------------

    method LockActive(f: Fence) returns (found: bool)
      ensures found == Active(View(), f)
    {
      found := f.job in jobs && Held(jobs[f.job], f) && Leased(jobs[f.job], now);
    }

    method FinishAttempt(f: Fence, outcome: Outcome, result: Option<nat>) returns (affected: bool)
      modifies this`attempts
      ensures affected == Finishable(old(View()), f)
      ensures affected ==>
        attempts == old(attempts)[(f.job, f.attempt) := Finished(old(attempts)[(f.job, f.attempt)], outcome, result, now)]
      ensures !affected ==> attempts == old(attempts)
    {
      var key := (f.job, f.attempt);
      affected := key in attempts && attempts[key].inputRevision == f.revision
                  && attempts[key].leaseToken == f.token && attempts[key].outcome == InProgress;
      if affected {
        attempts := attempts[key := Finished(attempts[key], outcome, result, now)];
      }
    }

    /** The fenced UPDATE every closing statement shares; `row` is its SET clause. */
    method UpdateFenced(f: Fence, row: Job) returns (affected: bool)
      modifies this`jobs
      ensures affected == Active(old(View()), f)
      ensures jobs == if affected then old(jobs)[f.job := row] else old(jobs)
    {
      affected := LockActive(f);
      if affected {
        jobs := jobs[f.job := row];
      }
    }

    method MarkLeased(id: nat, token: Token, leaseUntil: int, previousCount: nat, revision: nat, previousToken: Option<Token>)
      returns (affected: bool)
      modifies this`jobs
      ensures affected <==> && id in old(jobs) && Leasable(old(jobs)[id], now)
                            && old(jobs)[id].attemptCount == previousCount && old(jobs)[id].inputRevision == revision
                            && old(jobs)[id].lockedBy == previousToken
      ensures jobs == if affected then old(jobs)[id := LeasedRow(old(jobs)[id], token, leaseUntil)] else old(jobs)
    {
      affected := id in jobs && Leasable(jobs[id], now) && jobs[id].attemptCount == previousCount
                  && jobs[id].inputRevision == revision && jobs[id].lockedBy == previousToken;
      if affected {
        jobs := jobs[id := LeasedRow(jobs[id], token, leaseUntil)];
      }
    }

    method FailExpired(f: Fence) returns (affected: bool)
      modifies this`jobs
      ensures affected <==> f.job in old(jobs) && Exhausted(old(jobs)[f.job], now) && Held(old(jobs)[f.job], f)
      ensures jobs == if affected
                      then old(jobs)[f.job := FailedRow(old(jobs)[f.job], "worker lease expired after maximum attempts")]
                      else old(jobs)
    {
      affected := f.job in jobs && Exhausted(jobs[f.job], now) && Held(jobs[f.job], f);
      if affected {
        jobs := jobs[f.job := FailedRow(jobs[f.job], "worker lease expired after maximum attempts")];
      }
    }

    /** INSERT ... SELECT from the job row; both unique keys of the table can refuse it. */
    method InsertAttempt(id: nat, number: nat, revision: nat, token: Token) returns (affected: bool)
      modifies this`attempts
      ensures affected <==> && id in jobs && Held(jobs[id], Fence(id, number, revision, token))
                            && (id, number) !in old(attempts) && !TokenUsed(old(View()), token)
      ensures attempts == if affected
                          then old(attempts)[(id, number) := Attempt(revision, token, InProgress, None, now, None)]
                          else old(attempts)
    {
      var unused := TokenUnused(token);
      affected := id in jobs && Held(jobs[id], Fence(id, number, revision, token)) && (id, number) !in attempts && unused;
      if affected {
        attempts := attempts[(id, number) := Attempt(revision, token, InProgress, None, now, None)];
      }
    }

    /** The unique key on lease_token. */
    method TokenUnused(token: Token) returns (unused: bool)
      ensures unused == !TokenUsed(View(), token)
    {
      var rest := attempts.Keys;
      unused := true;
      while rest != {}
        invariant rest <= attempts.Keys
        invariant unused ==> forall k :: k in attempts && k !in rest ==> attempts[k].leaseToken != token
        invariant !unused ==> TokenUsed(View(), token)
        decreases rest
      {
        var k :| k in rest;
        if attempts[k].leaseToken == token { unused := false; }
        rest := rest - {k};
      }
    }

    /**
     The database counts changed rows, not matched ones.  `touched` says whether
     updated_at moves to a new second; without it an identical write counts nothing.
     */
    method WriteActive(f: Fence, row: Job, touched: bool) returns (affected: bool)
      modifies this`jobs
      ensures jobs == if Active(old(View()), f) then old(jobs)[f.job := row] else old(jobs)
      ensures affected <==> Active(old(View()), f) && (touched || row != old(jobs)[f.job])
    {
      var matched := LockActive(f);
      affected := matched && (touched || row != jobs[f.job]);
      if matched { jobs := jobs[f.job := row]; }
    }

    method ExtendLease(f: Fence, until: int, touched: bool) returns (affected: bool)
      modifies this`jobs
      ensures View() == Step(old(View()), Extend(f, until))
      ensures affected <==> Active(old(View()), f) && (touched || jobs != old(jobs))
    {
      if f.job !in jobs { return false; }
      affected := WriteActive(f, jobs[f.job].(leaseUntil := Some(until)), touched);
    }

    method UpdateProgress(f: Fence, completed: int, failed: int, current: Option<string>, last: Option<string>, touched: bool)
      returns (affected: bool)
      modifies this`jobs
      ensures View() == Step(old(View()), Progress(f, completed, failed, current, last))
      ensures affected <==> Active(old(View()), f) && (touched || jobs != old(jobs))
    {
      if f.job !in jobs { return false; }
      affected := WriteActive(f, jobs[f.job].(completedSegments := completed, failedSegments := failed,
                                              currentAnnotation := current, lastResult := last), touched);
    }

    method SetTotalSegments(f: Fence, total: int, touched: bool) returns (affected: bool)
      modifies this`jobs
      ensures View() == Step(old(View()), SetTotal(f, total))
      ensures affected <==> Active(old(View()), f) && (touched || jobs != old(jobs))
    {
      if f.job !in jobs { return false; }
      affected := WriteActive(f, jobs[f.job].(totalSegments := total), touched);
    }

    // ----- transactions ----------------------------------------------------

    /**
     Completion: the lease is checked and locked at `now`, and the writes happen
     at `later`.  A lease that runs out in between rolls everything back.
     */
    method CompleteAttempt(f: Fence, result: nat, later: int) returns (ok: bool)
      requires now <= later
      modifies this
      ensures View() == Step(Step(old(View()), Tick(later)), Complete(f, result))
      ensures ok <==> Active(Step(old(View()), Tick(later)), f) && Finishable(old(View()), f)
    {
      var jobs0, attempts0 := jobs, attempts;
      ok := LockActive(f);
      now := later;
      if ok {
        ok := FinishAttempt(f, Succeeded, Some(result));
        if ok {
          ok := UpdateFenced(f, CompletedRow(jobs[f.job]));
        }
        if !ok {
          jobs, attempts := jobs0, attempts0;
        }
      }
    }

    /** A failed attempt: retried with backoff, deferred to a given time, or made terminal. */
    method FailAttempt(f: Fence, message: string, permanent: bool, retryAfter: Option<int>, later: int)
      returns (ok: bool, terminal: bool)
      requires now <= later
      modifies this
      ensures View() == Step(Step(old(View()), Tick(later)), Fail(f, message, permanent, retryAfter))
      ensures ok <==> Active(Step(old(View()), Tick(later)), f) && Finishable(old(View()), f)
      ensures ok ==> f.job in jobs && (terminal <==> jobs[f.job].status == Failed) && (!terminal <==> jobs[f.job].status == Pending)
      ensures !ok ==> !terminal
    {
      terminal := false;
      var jobs0, attempts0 := jobs, attempts;
      ok := LockActive(f);
      now := later;
      if ok {
        var j := jobs[f.job];
        terminal := permanent || j.attemptCount >= j.maxAttempts;
        ok := FinishAttempt(f, if terminal then TerminallyFailed else RetryableFailed, None);
        if ok {
          if permanent || (terminal && retryAfter.Some?) {
            ok := UpdateFenced(f, FailedRow(j, message));
          } else if retryAfter.Some? {
            ok := UpdateFenced(f, DeferredRow(j, retryAfter.value, message));
          } else {
            ok := UpdateFenced(f, RetriedRow(j, now, message));
          }
        }
        if !ok {
          jobs, attempts, terminal := jobs0, attempts0, false;
        }
      }
    }

    /** Cancellation and supersession: close the running attempt, if there is one, with the job. */
    method EndJob(id: nat, status: Status, outcome: Outcome, message: string) returns (ok: bool)
      modifies this`jobs, this`attempts
      ensures View() == EndTx(old(View()), id, status, outcome, message)
      ensures status == Canceled || status == Superseded ==> (ok <==> id in jobs && jobs[id].status == status)
    {
      if id !in jobs || !Unfinished(jobs[id]) {
        return id in jobs && jobs[id].status == status;
      }
      var j := jobs[id];
      if j.status == Running {
        if j.lockedBy.None? { return false; }
        var finished := FinishAttempt(Holder(id, j), outcome, None);
        if !finished { return false; }
      }
      jobs := jobs[id := EndedRow(j, status, message)];
      ok := true;
    }

    method CancelJob(id: nat) returns (ok: bool)
      modifies this`jobs, this`attempts
      ensures View() == Step(old(View()), Cancel(id))
      ensures ok <==> id in jobs && jobs[id].status == Canceled
    {
      ok := EndJob(id, Canceled, Abandoned, "canceled by user");
    }

    method SupersedeJob(id: nat, message: string) returns (ok: bool)
      modifies this`jobs, this`attempts
      ensures View() == Step(old(View()), Supersede(id, message))
      ensures ok <==> id in jobs && jobs[id].status == Superseded
    {
      ok := EndJob(id, Superseded, Replaced, message);
    }

    /** One UPDATE over the join of jobs, batch files and attempts; the join reads the old rows. */
    method CancelUploadBatchJobs(ids: set<nat>)
      modifies this`jobs, this`attempts
      ensures View() == Step(old(View()), CancelBatch(ids))
    {
      jobs, attempts :=
        map id | id in jobs :: if id in ids && Unfinished(jobs[id]) then BatchCanceledRow(jobs[id]) else jobs[id],
        map k | k in attempts ::
          if && k.0 in ids && k.0 in jobs && Unfinished(jobs[k.0]) && k.1 == jobs[k.0].attemptCount
             && attempts[k].inputRevision == jobs[k.0].inputRevision
             && jobs[k.0].lockedBy == Some(attempts[k].leaseToken) && attempts[k].outcome == InProgress
          then Finished(attempts[k], Abandoned, None, now) else attempts[k];
    }

    /** With an item or an image: the attempts joined to the jobs go first, then the jobs. */
    method DeleteWithItem(ids: set<nat>)
      modifies this`jobs, this`attempts
      ensures View() == Step(old(View()), Event.DeleteWithItem(ids))
    {
      attempts := map k | k in attempts && !(k.0 in ids && k.0 in jobs) :: attempts[k];
      jobs := jobs - ids;
    }

    /** One pass of the claim loop over the selected row. */
    method ClaimRow(id: nat, token: Token, leaseUntil: int) returns (r: ClaimResult)
      requires id in jobs && Claimable(jobs[id], now)
      modifies this`jobs, this`attempts
      ensures View() == Step(old(View()), Claim(id, token, leaseUntil))
      ensures r.Claimed? ==>
        && id in jobs && r.fence == Fence(id, old(jobs)[id].attemptCount + 1, old(jobs)[id].inputRevision, token)
        && Held(jobs[id], r.fence) && Leasable(old(jobs)[id], now)
      ensures r.Nothing? ==> Exhausted(old(jobs)[id], now) && id in jobs && jobs[id].status == Failed
      ensures r.Aborted? ==> View() == old(View())
    {
      var jobs0, attempts0 := jobs, attempts;
      var j := jobs[id];
      if j.status == Running {
        if j.lockedBy.None? { return Aborted; }
        var finished := FinishAttempt(Holder(id, j), LeaseExpired, None);
        if !finished { return Aborted; }
        if j.attemptCount >= j.maxAttempts {
          var failed := FailExpired(Holder(id, j));
          assert failed;
          return Nothing;
        }
      }
      var marked := MarkLeased(id, token, leaseUntil, j.attemptCount, j.inputRevision, j.lockedBy);
      assert marked;
      var inserted := InsertAttempt(id, j.attemptCount + 1, j.inputRevision, token);
      if !inserted {
        jobs, attempts := jobs0, attempts0;
        return Aborted;
      }
      r := Claimed(Fence(id, j.attemptCount + 1, j.inputRevision, token));
    }

    /** ORDER BY created_at ASC LIMIT 1 over the claimable rows. */
    method SelectOldest() returns (found: Option<nat>)
      ensures found.None? ==> forall id :: id in jobs ==> !Claimable(jobs[id], now)
      ensures found.Some? ==>
        && found.value in jobs && Claimable(jobs[found.value], now)
        && forall id :: id in jobs && Claimable(jobs[id], now) ==> jobs[found.value].createdAt <= jobs[id].createdAt
    {
      var rest := jobs.Keys;
      found := None;
      while rest != {}
        invariant rest <= jobs.Keys
        invariant found.None? ==> forall id :: id in jobs && id !in rest ==> !Claimable(jobs[id], now)
        invariant found.Some? ==>
          && found.value in jobs && Claimable(jobs[found.value], now)
          && forall id :: id in jobs && id !in rest && Claimable(jobs[id], now) ==>
               jobs[found.value].createdAt <= jobs[id].createdAt
        decreases rest
      {
        var id :| id in rest;
        if Claimable(jobs[id], now) && (found.None? || jobs[id].createdAt < jobs[found.value].createdAt) {
          found := Some(id);
        }
        rest := rest - {id};
      }
    }

    /**
     The claim loop: exhausted expired jobs are failed on the way, and the first
     other claimable job is leased.  All of it is one transaction.
     */
    method ClaimNext(token: Token, leaseUntil: int) returns (r: ClaimResult, ghost steps: seq<Event>)
      modifies this`jobs, this`attempts
      ensures r.Aborted? ==> View() == old(View())
      ensures !r.Aborted? ==>
        View() == Exec(old(View()), steps) && forall e :: e in steps ==> e.Claim? && e.token == token
      ensures r.Nothing? ==> forall id :: id in jobs ==> !Claimable(jobs[id], now)
      ensures r.Claimed? ==>
        && r.fence.job in jobs && r.fence.token == token && Held(jobs[r.fence.job], r.fence)
        && jobs[r.fence.job].leaseUntil == Some(leaseUntil)
    {
      var jobs0, attempts0 := jobs, attempts;
      steps := [];
      while true
        invariant View() == Exec(old(View()), steps)
        invariant forall e :: e in steps ==> e.Claim? && e.token == token
        decreases RunningIds(jobs)
      {
        var found := SelectOldest();
        if found.None? {
          return Nothing, steps;
        }
        ghost var before := View();
        r := ClaimRow(found.value, token, leaseUntil);
        ExecAppend(old(View()), steps, Claim(found.value, token, leaseUntil));
        steps := steps + [Claim(found.value, token, leaseUntil)];
        if r.Aborted? {
          jobs, attempts := jobs0, attempts0;
          return;
        }
        if r.Claimed? {
          return;
        }
        FailingShrinks(before, found.value, token, leaseUntil);
      }
    }
  }
}
