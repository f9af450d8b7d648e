# Scribe: a verified model of its protocols and parsers

Scribe turns page images into annotated text. This project models, in Dafny 4.11,
the parts of it where correctness is hardest to see by reading one function:

- the transcription queue: leases, fences, attempts and retries
  (`TranscriptionJobs`, `TranscriptionRuns`, `TranscriptionEffects`,
  `TranscriptionJobStore`);
- the two outboxes that drive remote operations under a lease
  (`LeaseHorizon`, `MirrorOutbox`, `MirrorTable`, `CleanupOutbox`, `CleanupTable`,
  `OutboxEffects`);
- storage accounting: upload bytes, quota counters and reservations, durable
  database bytes (`UploadAccounting`, `StorageQuota`, `StorageQuotaRuns`,
  `StorageQuotaEffects`, `StorageQuotaStore`, `ResourceGraph`);
- provider secrets kept in a database and in Vault (`ProviderSecrets`,
  `ProviderSecretManager`);
- the migration runner and its SQL splitter (`SqlSplitter`, `SqlRoundTrip`,
  `SqlComments`, `Migrations`, `MigrationRuns`, `MigrationSuccess`, `MigrationRunner`);
- hOCR: bounded decoding, the walks over the tree, glyph boxes and generation
  (`Hocr`, `HocrDecode`, `HocrDocument`, `HocrLimits`, `HocrTraversal`,
  `HocrAgreement`, `HocrParse`, `HocrReading`, `HocrGlyphs`, `HocrTiling`,
  `HocrPageLimit`, `HocrPool`, `HocrOrder`, `HocrGenerate`);
- JPEG 2000 box search (`Jp2Boxes`).

`Nullable`, `Strings`, `Sums`, `Powers` and `Counting` hold shared definitions.

`dafny verify dfyconfig.toml` checks everything.

## How it is modelled

A protocol is a state machine. Its state is the rows of the tables involved; one
event is one committed transaction, one statement or one remote call; a `Step`
function gives the next state, and a statement whose guard matches no row leaves
the state as it was. A crash is the absence of further events. Theorems quantify
over every finite run.

Beside most machines stands a class whose fields are the tables and whose methods
are the store's statements and transactions, written in the source's order. Each
method is proved to take the corresponding step, so what is proved about runs holds
of the methods. What a step means to the people who use the system is stated beside
it, without naming the rows it writes: who may write or claim afterwards and when, what
each counter gains, what is left behind (`TranscriptionEffects`, `OutboxEffects`,
`StorageQuotaEffects`, `MigrationSuccess` and the lemmas whose names end in `Exactly`).
The outbox machines follow one resource; their classes hold the
whole table, and every row of it is what that resource's own run leads to.

A call to a remote system or to the database succeeds, fails without effect, or
takes effect and is reported as failed; migrations and provider secrets are proved
for every pattern of these.

Assumptions taken from the system around the code:

- a transaction sees a consistent state; the database counts changed rows, and a
  statement that moves a status changes every row it matches, so only the
  three writes that may repeat themselves distinguish the two (`ExtendLease`,
  `UpdateProgress`, `SetTotalSegments`);
- a remote operation is over when its worker has an answer, and in any case when its
  lease ends; a worker completes a row only after success, which is an answer, but
  gives it back on any error, also without one;
- clocks never run backwards; lease tokens, row identifiers and Vault paths are
  never reused (the database's unique keys and random names);
- a Vault write has settled once it returns, and in any case five minutes after its
  row was created; `LateWriteOrphansExactly` shows what happens otherwise;
- text is valid UTF-8, so the splitter's bytes are modelled as characters;
- regular expressions and XML lexing are represented by what they yield.

## What turned out not to hold as stated

- A second supersession of a leased outbox row inside its lease resets the row's
  due time and lets two remote operations overlap
  (`SecondSupersessionLosesTheHorizon` is the shortest run). Runs that supersede at
  most once per lease horizon and retry in time never overlap
  (`WindowsNeverOverlap`), nor do callers that read the row first;
  `RowAllowsExactly` says what they must see there.
- The workers do not retry in time. A request that times out may still take effect,
  yet the worker drops its lease and makes the row due in a second, so the next
  operation may start beside it without any supersession
  (`TimedOutRetryLosesTheHorizon`). On the first attempt that happens exactly when the
  worker gives up before second 89 of the 90 second lease, and it always gives up by
  second 75 (`TimedOutPutOverlapsExactly`, `TimedOutDeletionOverlapsExactly`); on any
  attempt a retry is safe exactly when the time already spent and the delay together
  reach the end of the lease (`WorkerRetryExactly`).
- After a revision has been delivered and its row removed, an older revision
  offered later is sent again (`OlderRevisionSentAgain`); order is broken exactly
  by such an offer (`OrderBrokenExactly`).
- Resizing a staged upload after its cleanup row was claimed leaves the difference
  charged for good (`ResizeAfterClaimLeaks`); staging a key an image already uses
  charges it twice (`StagedAgainChargesTwice`, and exactly when in
  `DeltaIsChargeDifference`).
- The raw Defer statement strands a job exactly when its attempts are used up
  (`RawDeferStrandsExactly`, `StrandedForever`); the store never issues it then
  (`NeverStranded`).
- A quota rebuild keeps row 0 equal to the sum of the tenants exactly when every
  workspace it does not know has an all-zero row (`RebuildBalancedExactly`);
  `StrayRowUnbalances` is a run without that.
- Measured item bytes and deleted item bytes differ exactly when bytes hang off an
  image of the item that names another workspace (`ItemDeletionConserves`);
  `StrayPayloadStays` is such a graph.
- When activating a provider secret fails, the code looks up and marks row 0, so
  nothing is recovered and nothing is cleaned at once. If the activation had no
  effect the row waits until it is stale. If it took effect and only its reply was
  lost, the caller is told that it failed while the row is active with its material
  (`Manager.Create` says exactly when), and it stays so until it is deleted
  (`ActivatedRowIsNeverStale`).
- A reconciliation reports fewer removals than it made exactly when the reply to a
  row deletion was lost (`CountedExactly`).
- A Vault write that outlasts the five minutes leaves material without a row exactly
  when the row is gone (`LateWriteOrphansExactly`); `SlowWriteOrphans` is a run in
  which it is gone while the creator still writes.
- The two hOCR walks disagree on a line with two different ids
  (`TwoIdsDisagree`); evenly split glyphs tile their word exactly when the product
  of width and length fits in 64 bits (`EvenTilesExactly`; `EvenSplitOverflows` is a
  word for which they do not).
- A generated document with more than 10000 regions is refused by the parser
  (`RoundTrip`).

## Model

| member | source | states |
|---|---|---|
| `TranscriptionJobs.StepKeepsConsistent` | internal/db/transcription_job_leases.sql.go:232-565 | every transaction keeps: attempt rows 1..attempt_count, at most one running and it carries the job's fence, the attempt budget, unique tokens, status explained by the last attempt's outcome |
| `TranscriptionRuns.RunConsistent` | internal/db/transcription_job_leases.sql.go:232-565 | that invariant in every state of every run |
| `TranscriptionRuns.LedgerMatchesQueue` | internal/db/transcription_job_attempts.sql.go:13-117 | in every reachable state the attempt rows are exactly 1..attempt_count, the count never exceeds max_attempts, and an attempt is in progress exactly when it is the last one of a running job, with the job's fence |
| `TranscriptionRuns.CompletedByItsLastAttempt` | internal/store/annotations.go:805-845 | an attempt succeeded exactly when it is the last one of a completed job |
| `TranscriptionRuns.NoWriteAfterLosingTheLease` | internal/db/transcription_job_leases.sql.go:232-362 | once a fence is closed, re-leased, cancelled, superseded, purged, deleted with its item or expired, no statement carrying it changes anything in any later state |
| `TranscriptionRuns.ClosesAtMostOnce` | internal/store/transcription_jobs.go:795-882 | at most one closing write per fence has an effect in a whole run |
| `TranscriptionRuns.OneIntervalOneToken` | internal/db/transcription_job_leases.sql.go:475-527 | each (job, attempt number) runs over one contiguous interval, with one token and one input revision |
| `TranscriptionRuns.LostIsSpent` | internal/db/transcription_job_leases.sql.go:443-473 | losing an active lease in any way, expiry included, leaves the fence spent for good |
| `TranscriptionRuns.FinishedIsFinal` | internal/db/transcription_jobs.sql.go:15-33 | a finished job and a finished attempt never change again; they can only be deleted |
| `TranscriptionRuns.DisappearsExactly` | internal/db/resource_graph.sql.go:337-385 | a job row disappears exactly when retention finds it finished or its item is deleted, finished or not |
| `TranscriptionRuns.GoneForever` | internal/db/transcription_jobs.sql.go:168-192 | a job that was purged or deleted with its item never comes back, its identifier is never reused, and an attempt row only goes away with its job |
| `TranscriptionRuns.ClaimNeverAborts` | internal/store/transcription_jobs.go:576-675 | on every reachable state a claim of a claimable job with a new token commits: an exhausted one fails with its attempt expired, any other is leased to the new fence, and never both |
| `TranscriptionRuns.UnfinishedBecomesClaimable` | internal/db/transcription_job_leases.sql.go:87-156 | every unfinished job of a reachable state is claimable once its due time has passed |
| `TranscriptionRuns.RawDeferStrandsExactly` | internal/db/transcription_job_leases.sql.go:267-306 | the raw Defer statement leaves a row that is claimable at no time exactly when the attempts are used up |
| `TranscriptionRuns.StrandedForever` | internal/db/transcription_job_leases.sql.go:267-306 | such a row is moved by no worker, claim or lapse of time in any run; only cancellation, supersession or deletion ends it |
| `TranscriptionRuns.NeverStranded` | internal/store/transcription_jobs.go:795-882 | no reachable state holds such a row |
| `TranscriptionRuns.BackoffGrows` | internal/db/transcription_job_leases.sql.go:529-565 | retry delays never shrink and stay between 20 seconds and five minutes |
| `TranscriptionEffects.CreatedExactly` | internal/db/transcription_jobs.sql.go:63-106 | a new job has a new identifier, the given revision and budget and no attempt, and can be claimed from the start; a revision or budget of zero creates nothing |
| `TranscriptionEffects.HandoverExactly` | internal/db/transcription_job_leases.sql.go:443-473 | at every time a running job belongs to its holder before the lease ends, to whoever claims it after, and to nobody in the second it ends |
| `TranscriptionEffects.ExtendedExactly` | internal/db/transcription_job_leases.sql.go:308-338 | after an extension the holder may write exactly until the new end, and nothing but the lease has changed |
| `TranscriptionEffects.ClaimedExactly` | internal/db/transcription_job_leases.sql.go:475-527 | a claim of a leasable job starts the next attempt with counts and results cleared, held by the claimant exactly until the lease ends; a lapsed attempt is recorded as expired |
| `TranscriptionEffects.ProgressReadBack` | internal/db/transcription_jobs.sql.go:839-932 | total and progress are read back as written, each count in its place; lease, retry time and error stay |
| `TranscriptionEffects.CompletedExactly` | internal/db/transcription_job_leases.sql.go:232-265 | completion ends the attempt with its result and the job for good; the holder is let go, its counts stay and the working result is cleared |
| `TranscriptionEffects.FailureExactly` | internal/store/transcription_jobs.go:795-882 | a failure is retried exactly when it is not permanent and attempts remain: the job is then pending, claimable exactly from its retry time on, its attempt recorded as retryable; otherwise job and attempt have failed and no time makes the job claimable |
| `TranscriptionEffects.BackoffDoubles` | internal/db/transcription_job_leases.sql.go:529-565 | the retry time starts at ten seconds and doubles up to five minutes |
| `TranscriptionEffects.EndedExactly` | internal/store/transcription_jobs.go:728-766 | cancelling or superseding ends an unfinished job, pending or running, with its open attempt, for good; a finished or missing one is left alone |
| `TranscriptionEffects.BatchCanceledExactly` | internal/db/upload_batches.sql.go:37-70 | cancelling a batch ends each of its unfinished jobs, running ones and their attempts included, and leaves finished ones and closed attempts as they were |
| `TranscriptionEffects.OthersUntouched` | internal/db/transcription_job_leases.sql.go:232-565 | no transaction changes a job or an attempt of a job that it does not name |
| `TranscriptionJobStore.Store.FinishAttempt` | internal/db/transcription_job_attempts.sql.go:13-46 | closes exactly the matching in-progress attempt, and nothing else |
| `TranscriptionJobStore.Store.MarkLeased` | internal/db/transcription_job_leases.sql.go:475-527 | the compare-and-set lease update: when it matches and what it writes |
| `TranscriptionJobStore.Store.FailExpired` | internal/db/transcription_job_leases.sql.go:340-375 | fails exactly an exhausted expired job held by the given fence |
| `TranscriptionJobStore.Store.InsertAttempt` | internal/db/transcription_job_attempts.sql.go:91-137 | inserts the attempt the job row names unless a unique key refuses it |
| `TranscriptionJobStore.Store.ExtendLease` | internal/db/transcription_job_leases.sql.go:308-338 | equals the Extend step, and reports a row exactly when the fence was active and the write changed something |
| `TranscriptionJobStore.Store.UpdateProgress` | internal/db/transcription_jobs.sql.go:890-932 | equals the Progress step, and reports a row exactly when the fence was active and the write changed something |
| `TranscriptionJobStore.Store.SetTotalSegments` | internal/db/transcription_jobs.sql.go:839-869 | equals the SetTotal step, and reports a row exactly when the fence was active and the write changed something |
| `TranscriptionJobStore.Store.CompleteAttempt` | internal/store/annotations.go:720-845 | the completion transaction equals the Complete step, also when time passes inside it |
| `TranscriptionJobStore.Store.FailAttempt` | internal/store/transcription_jobs.go:795-882 | retry, deferral and terminal failure equal the Fail step; it succeeds exactly when the fence is still active at the write and its attempt open, and reports a terminal failure exactly when the job is now failed and not pending again (`FailureExactly` says when that is) |
| `TranscriptionJobStore.Store.CancelJob` | internal/store/transcription_jobs.go:728-766 | equals the Cancel step, and reports whether the job is now cancelled |
| `TranscriptionJobStore.Store.SupersedeJob` | internal/store/transcription_jobs.go:402-480 | equals the Supersede step, and reports whether the job is now superseded |
| `TranscriptionJobStore.Store.CancelUploadBatchJobs` | internal/db/upload_batches.sql.go:37-70 | the joint update of jobs and attempts equals the CancelBatch step |
| `TranscriptionJobStore.Store.DeleteWithItem` | internal/db/resource_graph.sql.go:337-385 | the two deletes, attempts before jobs, equal the DeleteWithItem step |
| `TranscriptionJobStore.Store.ClaimRow` | internal/store/transcription_jobs.go:590-672 | one pass of the claim loop equals the Claim step: leased, failed as exhausted, or rolled back |
| `TranscriptionJobStore.Store.SelectOldest` | internal/db/transcription_job_leases.sql.go:87-156 | returns a claimable job no other claimable job is older than, or none exists |
| `TranscriptionJobStore.Store.ClaimNext` | internal/store/transcription_jobs.go:576-675 | the claim loop terminates, runs a sequence of Claim steps, and returns nothing only when nothing is claimable |
| `LeaseHorizon.CarefulKeepsSerialized` | internal/db/annotation_mirror_outbox.sql.go:49-62 | a careful event, retries included, keeps every later claim behind the horizon of each operation in flight |
| `LeaseHorizon.CarelessBreaksSerialized` | internal/db/resource_cleanup_outbox.sql.go:313-351 | every event keeps that exactly when no operation in flight outlives the time at which the row would next be claimable |
| `LeaseHorizon.RowAllowsExactly` | internal/db/annotation_mirror_outbox.sql.go:182-198 | reading the row suffices and is needed, for re-enqueues, retries and removals: the test of its due time and lease holds exactly when the event is careful in every serialized state with that row |
| `LeaseHorizon.FirstSupersessionIsCareful` | internal/db/annotation_mirror_outbox.sql.go:160-198 | superseding a busy row once never loses the horizon |
| `LeaseHorizon.RunSerialized` | internal/db/annotation_mirror_outbox.sql.go:182-198 | every run that, once a lease was dropped from its row, re-enqueues only after its horizon, and that retries in time, keeps later claims behind the horizon of each operation in flight |
| `LeaseHorizon.WindowsNeverOverlap` | internal/db/resource_cleanup_outbox.sql.go:167-196 | in every such run no operation starts while another may still run |
| `LeaseHorizon.RowsReadSerialized` | internal/db/resource_cleanup_outbox.sql.go:53-57 | the same for every run whose callers read the row before each re-enqueue, retry and removal |
| `LeaseHorizon.CarelessOverlaps` | internal/db/annotation_mirror_outbox.sql.go:182-198 | after any careless event, retries included, waiting or enqueueing and claiming starts an overlapping operation |
| `LeaseHorizon.SecondSupersessionLosesTheHorizon` | internal/db/annotation_mirror_outbox.sql.go:182-198 | a concrete run: claim, supersede twice inside the lease, claim again, overlap |
| `LeaseHorizon.TimedOutRetryLosesTheHorizon` | internal/server/triplet_presentation.go:464-475 | a concrete run without a second enqueue: claim, give up after 15 seconds, retry a second later, overlap |
| `LeaseHorizon.WorkerRetryExactly` | internal/server/triplet_presentation.go:483-495 | a worker's retry passes the row test exactly when elapsed time and delay together reach the lease, or elapsed time alone when the row parks |
| `LeaseHorizon.StepKeepsBudget` | internal/db/annotation_mirror_outbox.sql.go:32-78 | although a claim of a waiting row ignores attempts, no finite row is claimed past its budget |
| `LeaseHorizon.EndlessNeverParks` | internal/db/resource_cleanup_outbox.sql.go:68-91 | no event parks an endless row |
| `LeaseHorizon.EndlessBecomesClaimable` | internal/db/resource_cleanup_outbox.sql.go:68-91 | an endless row, swept after its lease and left until it falls due, is claimable |
| `MirrorOutbox.AssignColumns` | internal/db/annotation_mirror_outbox.sql.go:160-198 | the left-to-right assignments equal the simultaneous update, for every old row |
| `MirrorTable.Outbox.Upsert` | internal/db/annotation_mirror_outbox.sql.go:160-198 | the row of that image takes its Upsert step and no other row changes |
| `MirrorOutbox.AssignmentOrderMatters` | internal/db/annotation_mirror_outbox.sql.go:160-198 | revision first pairs the new revision with the old payload; lease first forgets the horizon exactly when a lease lies ahead |
| `MirrorTable.Outbox.ClaimNext` | internal/store/annotation_mirrors.go:210-269 | every row takes its Sweep step, then an earliest due one takes a Claim step under a new token; none is leased only when none is claimable |
| `MirrorTable.Outbox.Complete` | internal/db/annotation_mirror_outbox.sql.go:14-30 | the row takes its Complete step, and it reports whether the worker still held that revision |
| `MirrorTable.Outbox.Retry` | internal/db/annotation_mirror_outbox.sql.go:80-110 | with or without an answer, the row takes its Retry step, and it reports whether the worker still held that revision |
| `MirrorOutbox.StepRefines` | internal/db/annotation_mirror_outbox.sql.go:14-198 | each outbox transaction is a step of the lease machine |
| `MirrorOutbox.PutsNeverOverlap` | internal/store/annotation_mirrors.go:210-269 | in every run that, once a lease was dropped, supersedes only after its horizon, and that retries in time, a claim finds every earlier put answered or past its horizon |
| `MirrorOutbox.TimedOutPutOverlapsExactly` | internal/server/triplet_presentation.go:452-495 | when the first attempt is given up unanswered, the next put may start beside it exactly when elapsed time and delay stay below the lease |
| `MirrorOutbox.NewestNeverLost` | internal/db/annotation_mirror_outbox.sql.go:160-198 | the highest revision ever offered is on the row or was completed by a holder, and the row's payload was offered with its revision |
| `MirrorOutbox.PutsStartInOrder` | internal/db/annotation_mirror_outbox.sql.go:49-78 | when revisions are offered in increasing order, puts start in increasing order |
| `MirrorOutbox.OrderBrokenExactly` | internal/db/annotation_mirror_outbox.sql.go:160-198 | an order kept so far is broken exactly by an offer, after the row is gone, of a revision below the last one sent |
| `MirrorOutbox.NoBelatedOfferOrdered` | internal/db/annotation_mirror_outbox.sql.go:160-198 | in every run without such an offer puts start in order |
| `MirrorOutbox.OlderRevisionSentAgain` | internal/db/annotation_mirror_outbox.sql.go:14-30 | a run that delivers revision 2 and then sends revision 1 |
| `MirrorOutbox.ClaimsBounded` | internal/db/annotation_mirror_outbox.sql.go:32-92 | each revision is claimed at most max_attempts times per time it became the row's |
| `MirrorOutbox.ClaimedWithinAttempts` | internal/db/annotation_mirror_outbox.sql.go:32-92 | when revisions are offered in increasing order, each is claimed at most max_attempts times |
| `OutboxEffects.PublishedExactly` | internal/db/annotation_mirror_outbox.sql.go:160-198 | a new publication gets a free row with all its attempts and no error, due now or when the lease that was on the row ends; one that is not newer changes nothing |
| `OutboxEffects.PutClaimedExactly` | internal/db/annotation_mirror_outbox.sql.go:49-78 | a claim spends one attempt; the claimer alone holds the row, and it is claimable again exactly after the lease while attempts are left |
| `OutboxEffects.PutRetriedExactly` | internal/db/annotation_mirror_outbox.sql.go:80-110 | the holder's error is kept and the row is due exactly at the given time, or never when attempts are used up; anyone else's retry changes nothing |
| `OutboxEffects.PutCompletedExactly` | internal/db/annotation_mirror_outbox.sql.go:14-30 | the row goes exactly for the holder that has its answer |
| `OutboxEffects.MirrorSweptExactly` | internal/db/annotation_mirror_outbox.sql.go:32-47 | after the sweep no processing row is past its lease without being claimable; it touches exactly the exhausted rows, which never come due and keep an earlier error |
| `OutboxEffects.MirrorDelays` | internal/server/triplet_presentation.go:483-495 | the delay starts at one second, doubles and stays at 128 seconds from the eighth attempt on |
| `CleanupOutbox.ExactlyOneCompletion` | internal/db/resource_cleanup_outbox.sql.go:14-51 | in every run exactly one of the two completion statements removes the row of a worker with its answer, the fenced one only if a holder of that very row fenced it |
| `CleanupOutbox.FenceOrigin` | internal/db/resource_cleanup_outbox.sql.go:93-112 | every fence on a row was set by a worker holding that row, in every run |
| `CleanupOutbox.AssignColumns` | internal/db/resource_cleanup_outbox.sql.go:313-351 | the duplicate-key update, column by column, equals the specified row |
| `CleanupTable.Outbox.Upsert` | internal/db/resource_cleanup_outbox.sql.go:313-351 | the row of that resource takes its Upsert step, with a new id when it is inserted, and no other row changes |
| `CleanupTable.Outbox.ClaimNext` | internal/store/resource_cleanup.go:40-105 | every row takes its Sweep step, then an earliest due one takes a Claim step under a new token; none is leased only when none is claimable |
| `CleanupTable.Outbox.Complete` | internal/store/resource_cleanup.go:184-224 | the row takes its Complete step, plain or fenced, and it reports whether that removed it |
| `CleanupTable.Outbox.Fence` | internal/db/resource_cleanup_outbox.sql.go:93-112 | the row takes its Fence step; success means a held upload row is now fenced |
| `CleanupTable.Outbox.Retry` | internal/db/resource_cleanup_outbox.sql.go:225-255 | with or without an answer, the row takes its Retry step, and it reports whether the worker still held that generation |
| `CleanupTable.Outbox.Resize` | internal/db/resource_cleanup_outbox.sql.go:198-223 | the staged upload's row takes its Resize step and no other row changes |
| `CleanupTable.Outbox.Delete` | internal/db/resource_cleanup_outbox.sql.go:53-57 | the row takes its Drop step, and it reports whether there was one |
| `CleanupOutbox.StepRefines` | internal/db/resource_cleanup_outbox.sql.go:14-351 | each outbox transaction, resizing and dropping included, is a step of the lease machine |
| `CleanupOutbox.DeletionsNeverOverlap` | internal/store/resource_cleanup.go:40-105 | in every run that, once a lease was dropped, re-enqueues or drops the row only after its horizon, and that retries in time, a claim finds every earlier deletion answered or past its horizon |
| `CleanupOutbox.TimedOutDeletionOverlapsExactly` | internal/server/resource_cleanup.go:67-81 | when the first attempt is given up unanswered, the next deletion may start beside it exactly when elapsed time and delay stay below the lease |
| `CleanupOutbox.ClaimsBounded` | internal/db/resource_cleanup_outbox.sql.go:68-112 | no generation of a non-upload resource is claimed more than max_attempts times; an upload row is never failed |
| `CleanupOutbox.UploadAlwaysComesDue` | internal/db/resource_cleanup_outbox.sql.go:68-91 | an upload row left alone becomes claimable again from every reachable state |
| `OutboxEffects.QueuedExactly` | internal/db/resource_cleanup_outbox.sql.go:313-351 | a resource without a row gets a new one, free, unfenced, due from the given time |
| `OutboxEffects.RequeuedExactly` | internal/db/resource_cleanup_outbox.sql.go:313-351 | queueing again keeps identity, fence and the larger size, names the new workspace if there is one, waits for the lease that was on the row, and shuts out every earlier holder |
| `OutboxEffects.DeletionClaimedExactly` | internal/db/resource_cleanup_outbox.sql.go:167-196 | a claim spends one attempt and keeps the resource's columns; the claimer alone holds the row, claimable again exactly after the lease while attempts are left |
| `OutboxEffects.DeletionRetriedExactly` | internal/db/resource_cleanup_outbox.sql.go:225-255 | the holder puts an upload back however often it failed, any other kind only while attempts are left, due exactly at the given time |
| `OutboxEffects.CleanupSweptExactly` | internal/db/resource_cleanup_outbox.sql.go:68-91 | after the sweep no processing row is stuck; an exhausted upload is due an hour later, any other exhausted row never |
| `OutboxEffects.FencedExactly` | internal/db/resource_cleanup_outbox.sql.go:93-112 | only the holder fences, only an upload, and the first time stays |
| `OutboxEffects.ResizedExactly` | internal/db/resource_cleanup_outbox.sql.go:198-223 | a staged upload is only put off and only grows; its holder and fence stay |
| `OutboxEffects.CleanupDelays` | internal/server/resource_cleanup.go:153-165 | the delay starts at one second and doubles up to an hour |
| `UploadAccounting.FenceIsIrrevocable` | internal/store/resource_cleanup.go:107-182 | once fenced, no image can name the key, and the fence stays until the fenced completion removes the row |
| `UploadAccounting.FencedUntilRetired` | internal/store/resource_cleanup.go:107-224 | over every run from a fenced key it keeps the same fence and no image, or a fenced completion has removed its row |
| `UploadAccounting.KeyFollowsOutbox` | internal/store/resource_cleanup.go:40-236 | whatever happens to an upload key, its row goes through the statements of the cleanup outbox and nothing else |
| `UploadAccounting.ImagesExactly` | internal/store/resource_cleanup.go:165-182 | images of a key come only by being recorded, unfenced and with the staged size, and go only by being deleted |
| `UploadAccounting.RowGoneExactly` | internal/store/resource_cleanup.go:184-224 | the cleanup row goes exactly when an ingest or binding takes the upload over or its holder completes as it was told |
| `UploadAccounting.RowMadeExactly` | internal/store/items.go:537-613 | a cleanup row appears exactly when an upload is staged, its images are deleted or it is found orphaned, unfenced and held by nobody |
| `UploadAccounting.ToldExactly` | internal/store/resource_cleanup.go:107-163 | the holder is told to keep the blob exactly when an image names it and the key is unfenced, and otherwise to delete it, which fences the key |
| `UploadAccounting.UnusedIsRetired` | internal/store/resource_cleanup.go:107-224 | an upload nobody uses loses its row in one claim, answer and completion, and its whole recorded size is given back |
| `UploadAccounting.UsedIsKept` | internal/store/resource_cleanup.go:107-224 | an upload some image uses loses only its row; images and charge stay |
| `UploadAccounting.DeltaIsChargeDifference` | internal/store/storage_quota.go:215-286 | a transaction moves the counter by the change in charge exactly when it is clean |
| `UploadAccounting.StagedAgainChargesTwice` | internal/store/storage_quota.go:215-286 | staging, ingesting and staging one key again adds its size twice for one charge |
| `UploadAccounting.BalancedExactlyWhenClean` | internal/db/storage_quota.sql.go:605-625 | on balanced books the counter still equals the rebuild exactly when the transaction was clean |
| `UploadAccounting.CounterEqualsRebuild` | internal/db/storage_quota.sql.go:605-625 | in every clean run the counter equals the rebuild and each key is charged its size from staging until its last image and cleanup row are gone |
| `UploadAccounting.ReleaseMatchesCharge` | internal/store/resource_cleanup.go:184-224 | physical deletion releases the charge exactly when the row was not resized since it was claimed |
| `UploadAccounting.ResizeAfterClaimLeaks` | internal/db/resource_cleanup_outbox.sql.go:198-223 | growing a staged upload after the claim leaves the difference charged |
| `StorageQuota.Exceeds` | internal/store/storage_quota.go:919-924 | the overflow-safe comparison is used + reserved + requested > limit |
| `StorageQuota.AdmitsExactly` | internal/store/storage_quota.go:478-519 | a request is admitted exactly when both rows, with it reserved, stay within all six limits |
| `StorageQuota.TenantGuardDecides` | internal/db/storage_quota.sql.go:796-844 | on balanced books a guarded subtraction matches both rows exactly when the tenant's guard holds |
| `StorageQuota.ReleaseNeverUnderflows` | internal/store/storage_quota.go:407-476 | the counters always cover any set of one tenant's reservations |
| `StorageQuotaRuns.StepKeepsBalanced` | internal/store/storage_quota.go:68-340 | every transaction but the rebuild keeps row 0 equal to the sum of the tenant rows and each tenant's reserved counters equal to the sum of its reservations |
| `StorageQuotaRuns.RebuildKeepsReserved` | internal/store/storage_quota.go:805-890 | on balanced books a rebuild changes no reserved counter, in row 0 or any tenant's, and drops only all-zero rows |
| `StorageQuotaRuns.RebuildBalancedExactly` | internal/db/storage_quota.sql.go:657-690 | row 0 is the grand total after a rebuild exactly when every row it does not own is all zero |
| `StorageQuotaRuns.StrayRowUnbalances` | internal/db/storage_quota.sql.go:657-690 | a run of two transactions after which rebuilding without the workspace unbalances the books |
| `StorageQuotaRuns.CountersStayExact` | internal/store/storage_quota.go:68-890 | both equalities in every run whose rebuilds leave no stray row |
| `StorageQuotaRuns.QuotaNeverExceeded` | internal/store/storage_quota.go:478-632 | in every run of checked growth and transfers, no tenant and no total exceeds its quota, reservations included |
| `StorageQuotaEffects.ReserveExactly` | internal/store/storage_quota.go:68-118 | a reservation is made exactly for a known workspace, an amount that is not nothing, a new identifier and room on both rows; then exactly that amount is reserved on both, column by column, and nowhere else |
| `StorageQuotaEffects.ReplaceExactly` | internal/store/storage_quota.go:120-286 | a replacement takes effect exactly when both rows hold the old amount and without it have room; the old amount is given back, the new one reserved, what was spent used, each in its own column |
| `StorageQuotaEffects.RetireExactly` | internal/store/storage_quota.go:577-632 | consuming a reservation whole gives its amount back, uses what was spent and removes it, exactly under the same condition |
| `StorageQuotaEffects.ReleaseExactly` | internal/store/storage_quota.go:288-340 | a release gives the amount back on both rows exactly when both hold it |
| `StorageQuotaEffects.SweepExactly` | internal/store/storage_quota.go:407-476 | a sweep gives back exactly the sum of what the swept reservations held, reserved column by reserved column |
| `StorageQuotaEffects.GrowExactly` | internal/store/storage_quota.go:762-778 | checked growth is used on both rows exactly when both have room |
| `StorageQuotaEffects.AddUsedExactly` | internal/store/storage_quota.go:634-639 | an unchecked addition fails exactly when a column of either row would overflow |
| `StorageQuotaEffects.SubtractExactly` | internal/store/storage_quota.go:641-650 | used amounts are subtracted from both rows exactly when both hold them |
| `StorageQuotaEffects.EnsureExactly` | internal/db/storage_quota.sql.go:126-135 | a workspace without a row gets an all-zero one and no row that is there changes |
| `StorageQuotaEffects.RebuildExactly` | internal/store/storage_quota.go:805-890 | a rebuild takes effect exactly when every owner has a row and the totals fit; each owner's row is then what the base tables and its reservations add up to, row 0 their total, and of the other rows exactly the all-zero ones are gone |
| `StorageQuotaStore.Store.Subtract` | internal/db/storage_quota.sql.go:796-844 | the guarded subtraction, and that it reports two rows exactly when both guards hold |
| `StorageQuotaStore.Store.Reserve` | internal/store/storage_quota.go:68-118 | equals the Reserve step; it succeeds exactly when it changes the tables |
| `StorageQuotaStore.Store.Replace` | internal/store/storage_quota.go:521-575 | the counter side of resizing and staging equals the Replace step |
| `StorageQuotaStore.Store.Transfer` | internal/store/storage_quota.go:577-632 | moves covered usage out of a reservation; what it frees is what it takes |
| `StorageQuotaStore.Store.Release` | internal/store/storage_quota.go:288-340 | on balanced books release always succeeds and equals the Release step; an absent reservation is a success without effect |
| `StorageQuotaStore.Store.TotalOf` | internal/store/storage_quota.go:442-457 | the loop's total is what the reservations hold, and it fails exactly on 64-bit overflow |
| `StorageQuotaStore.Store.Sweep` | internal/store/storage_quota.go:407-476 | on balanced books a sweep of one tenant's batch always succeeds, equals the Sweep step and removes exactly the batch |
| `ResourceGraph.ItemIsSumOfImages` | internal/db/storage_quota.sql.go:137-241 | the item measure is the manifest plus the sum of the image measures |
| `ResourceGraph.ItemDeletionDrop` | internal/db/storage_quota.sql.go:626-656 | deleting an item lowers the rebuilt bytes by what was measured, less payloads whose image names another workspace |
| `ResourceGraph.ItemDeletionConserves` | internal/store/items.go:285-335 | subtracting the measure leaves the counter equal to the rebuild exactly when no payload is stray; images are counted exactly |
| `ResourceGraph.StrayPayloadStays` | internal/db/resource_graph.sql.go:13-335 | a graph whose page of any size is released but not deleted |
| `ResourceGraph.ItemDeletionElsewhere` | internal/db/resource_graph.sql.go:13-335 | no other workspace's rebuilt bytes or images change |
| `ResourceGraph.ItemDeletionExactly` | internal/store/items.go:382-530 | exactly the item, the workspace's images of it and the workspace's payloads of every kind on those images are gone; every row left is as it was |
| `ResourceGraph.ItemLeavesNothingBehind` | internal/store/items.go:285-335 | afterwards nothing of the workspace refers to the item: no item row, no image of it, no payload on its images |
| `ResourceGraph.ImageDeletionExactly` | internal/store/items.go:340-377 | exactly the image and the workspace's payloads on it are gone; every row left is as it was |
| `ResourceGraph.GoneImageMeasure` | internal/db/storage_quota.sql.go:137-241 | of an image that is gone, everything that still names it is measured except its audits |
| `ResourceGraph.NoStraysWhenImagesAgree` | internal/db/resource_graph.sql.go:90-98 | there are no strays when the item's images name its workspace |
| `ResourceGraph.ImageDeletionDrop` | internal/store/items.go:340-377 | deleting one image lowers the rebuilt bytes by its measure when the image names its item's workspace, and by how much less otherwise |
| `ResourceGraph.ImageDeletionElsewhere` | internal/store/items.go:340-377 | deleting one image changes no other workspace's rebuilt bytes |
| `ResourceGraph.ImageWriteConserves` | internal/store/annotations.go:390-518 | whatever a save does to one image's payloads, adding the measured difference keeps the counter equal to the rebuild |
| `ResourceGraph.ImageWriteElsewhere` | internal/store/annotations.go:390-518 | such a save changes no other workspace's rebuilt bytes |
| `ResourceGraph.Tables.DeletePayloadTables` | internal/store/items.go:382-530 | the six deletes in order remove exactly the selected payloads |
| `ResourceGraph.Tables.DeleteItemForWorkspace` | internal/store/items.go:285-335 | deletes exactly when the workspace has the item, and then what `ItemDeletionExactly` lists: the item, its images in the workspace and their payloads, nothing else |
| `ResourceGraph.Tables.DeleteItemImageForWorkspace` | internal/store/items.go:340-377 | deletes exactly when the image's item is the workspace's, and then what `ImageDeletionExactly` lists: the image and its payloads, nothing else |
| `ProviderSecrets.RunConsistent` | internal/auth/connect_auth.go:189-262 | the invariant of rows, Vault, creators and cleanup workers in every interleaving |
| `ProviderSecrets.NoOrphansNoDangling` | internal/auth/provider_secret_cleanup.go:25-102 | in every run all Vault material is at the path of some row, and an active row has its material |
| `ProviderSecrets.DeletionTouchesOnlyRetired` | internal/auth/provider_secret_cleanup.go:25-48 | material only disappears by a deletion for a row that is cleanup_pending or gone, and for no other row's path |
| `ProviderSecrets.RetiredForever` | internal/db/provider_secrets.sql.go:356-379 | once cleanup_pending a secret is never active again, and once gone it stays gone |
| `ProviderSecrets.CleanupAlwaysPossible` | internal/auth/provider_secret_cleanup.go:74-102 | from every reachable state, one fault-free pass after the grace removes an inactive row and its material and nothing else |
| `ProviderSecrets.ActiveUntilDeleted` | internal/auth/provider_secret_cleanup.go:74-102 | in every run an active row keeps its state and its material until it is deleted; no reconciler takes them away |
| `ProviderSecrets.ActivatedRowIsNeverStale` | internal/store/provider_secrets.go:111-124 | after an activation that took effect, whatever its caller was told, the row stays active in every continuation without a deletion |
| `ProviderSecrets.LateWriteOrphansExactly` | internal/auth/connect_auth.go:204-215 | a write landing after the grace leaves material without a row exactly when the row is gone |
| `ProviderSecrets.SlowWriteOrphans` | internal/auth/connect_auth.go:204-215 | a run in which the creator is still writing when its row is gone, so that its write would leave an orphan |
| `ProviderSecrets.SecretsBounded` | internal/store/provider_secrets.go:46-101 | in every run no workspace has more than a hundred secrets, those being cleaned up included |
| `ProviderSecrets.CreateRefusedExactly` | internal/store/provider_secrets.go:46-101 | a new identifier and path are refused exactly when the workspace is full, and otherwise a pending row without material is there |
| `ProviderSecrets.StaleExactly` | internal/auth/provider_secret_cleanup.go:74-102 | a reconciler gives up on a pending row exactly when it was created more than five minutes ago |
| `ProviderSecretManager.CreationExactly` | internal/auth/connect_auth.go:189-231 | which failing calls leave no row, an active one or one to clean up, and when material is left |
| `ProviderSecretManager.CreationNeverStrays` | internal/auth/connect_auth.go:189-231 | a reply means an active row with material; material always has a row; an active row always has material |
| `ProviderSecretManager.CleanupExactly` | internal/auth/provider_secret_cleanup.go:25-48 | a cleanup removes the row exactly when marking and material deletion succeeded and the row deletion took effect, never before the material; the row is gone exactly when success was reported or only the last reply was lost |
| `ProviderSecretManager.Manager.CleanupTracked` | internal/auth/provider_secret_cleanup.go:25-48 | deletes material, then the row; what remains and what is reported when each call succeeds, fails without effect or fails after its effect |
| `ProviderSecretManager.Manager.Reconcile` | internal/auth/provider_secret_cleanup.go:74-102 | the loop tries every candidate once; counts, error and final tables for every pattern of calls that succeed, fail without effect or fail after their effect |
| `ProviderSecretManager.BatchRows` | internal/auth/provider_secret_cleanup.go:83-97 | one candidate's failure never disturbs another, and no other row is touched |
| `ProviderSecretManager.BatchVault` | internal/auth/provider_secret_cleanup.go:83-97 | a path survives a pass exactly when it was there and every candidate at it was spared |
| `ProviderSecretManager.CleanPassRemovesAll` | internal/auth/provider_secret_cleanup.go:74-102 | a pass without failures removes exactly the candidates and their material |
| `ProviderSecretManager.CountedExactly` | internal/auth/provider_secret_cleanup.go:81-101 | the reported count never exceeds the rows removed and equals it exactly when no row deletion took effect and was reported as failed |
| `ProviderSecretManager.Manager.PersistLocator` | internal/store/provider_secrets.go:46-101 | inserts a pending row exactly when the workspace is below its limit and the insert takes effect; success needs its reply too |
| `ProviderSecretManager.Manager.Create` | internal/auth/connect_auth.go:189-231 | success means an active row with its material; a failure leaves an active row exactly when the activation took effect and its reply was lost; the row and material left in every other case; whatever was written has a row pointing at it |
| `ProviderSecretManager.Manager.Delete` | internal/auth/connect_auth.go:233-263 | hides the row before touching material; success exactly when all three calls succeed, and then both are gone; the row stays active exactly when the hiding had no effect |
| `SqlSplitter.SplitStatements` | internal/database/migrate.go:281-353 | the flag-and-builder loop equals the recursive lexer, whose comments, quotes and delimiters the next rows describe on the text itself |
| `SqlComments.DashComment` | internal/database/migrate.go:298-348 | two dashes outside quotes and comments hide the rest of their line and nothing after it |
| `SqlComments.DashBeforeComment` | internal/database/migrate.go:298-348 | a single dash before two dashes is hidden with them |
| `SqlComments.HashComment` | internal/database/migrate.go:298-348 | a hash outside quotes and comments hides the rest of its line and nothing after it |
| `SqlComments.BlankForBlock` | internal/database/migrate.go:298-348 | a block comment counts as one blank, and ends at the first end mark after its start |
| `SqlComments.UnendedComment` | internal/database/migrate.go:298-353 | a comment of any kind that never ends hides everything after it and nothing before it |
| `SqlComments.QuotedCopied` | internal/database/migrate.go:298-348 | a quoted value is copied as it is, comment marks and delimiters inside it included |
| `SqlComments.DelimiterSeparates` | internal/database/migrate.go:298-353 | a delimiter outside quotes and comments splits the text into the statements before and after it |
| `SqlComments.UnmarkedIsOneStatement` | internal/database/migrate.go:290-353 | text without quotes, delimiters or comment marks is one statement, trimmed, or none if it is blank |
| `SqlRoundTrip.LexerIsClean` | internal/database/migrate.go:298-348 | every piece the lexer writes reads back verbatim, and all but the last end outside quotes |
| `SqlRoundTrip.SplitJoinSplit` | internal/database/migrate.go:281-353 | joining a split with ';' and splitting again changes nothing |
| `SqlRoundTrip.RoundTripExactly` | internal/database/migrate.go:281-353 | a list survives joining and splitting exactly when it is trimmed, comment-free, delimiter-free statements with only the last possibly ending in a quote |
| `SqlRoundTrip.EachStatementAlone` | internal/database/migrate.go:290-296 | every statement is not blank and splits to itself alone |
| `Migrations.ValidateVersions` | internal/database/migrate.go:156-180 | the maps and loops accept exactly when the applied versions are the first ones of the list |
| `MigrationRuns.UnmanagedSchemaUntouched` | internal/database/migrate.go:183-235 | a schema with tables and no history is left as it is by every sequence of calls of every build |
| `MigrationRuns.FirstTouch` | internal/database/migrate.go:183-235 | in every run the first call with any effect found no tables |
| `MigrationRuns.FirstCallExactly` | internal/database/migrate.go:224-235 | where looking and creating the ledger succeed, a first call has an effect exactly when there are no tables |
| `MigrationRuns.HistoryAllowsTables` | internal/database/migrate.go:224-235 | once there is a history, a call does not depend on the number of tables |
| `Migrations.NilMeansClean` | internal/database/migrate.go:74-125 | whatever the ledger held, a nil return means every migration is clean with its checksum, and rows already there are unchanged |
| `MigrationRuns.EveryRunSound` | internal/database/migrate.go:30-126 | after any calls, each stopped anywhere, the ledger is a prefix, only the last row may be dirty, and the statements executed are the clean bodies in order and a prefix of the dirty one |
| `MigrationRuns.NoStatementTwice` | internal/database/migrate.go:95-106 | no statement of any migration ever runs twice in any run |
| `MigrationRuns.ExecutesWholeStatements` | internal/database/migrate.go:102-106 | for migrations split from their files, everything executed in any run is one whole statement of a file's text, not blank, that splits to itself |
| `MigrationRunner.LoadMigrations` | internal/database/migrate.go:102-102 | splitting each file gives the bodies the runs execute |
| `MigrationRuns.NilMeansCurrent` | internal/database/migrate.go:30-126 | a nil return leaves exactly the migrations the build knows, all clean |
| `MigrationRuns.DirtyForever` | internal/database/migrate.go:78-82 | after a dirty row no call of any build runs a statement or succeeds |
| `MigrationSuccess.SucceedsExactly` | internal/database/migrate.go:30-126 | for every database a call succeeds exactly when the ledger holds a clean prefix of the build's list with the same checksums, no tables stand there without a history, and none of the operations it needs fails |
| `MigrationSuccess.KnownExactly` | internal/database/migrate.go:74-94 | a migration in the ledger costs one look and goes on exactly when it is clean with this checksum |
| `MigrationSuccess.NewExactly` | internal/database/migrate.go:95-118 | a new migration goes through exactly when looking, marking, each statement and marking clean do, and is then clean with its checksum |
| `MigrationSuccess.RestartSucceeds` | internal/database/migrate.go:30-126 | a restart on an up-to-date database succeeds with one look per migration and changes nothing |
| `MigrationSuccess.CallCompletes` | internal/database/migrate.go:30-126 | a build brings a database with the first migrations done to all it knows, with the statements of exactly the missing ones run in order, if nothing fails |
| `MigrationRunner.Runner.Migrate` | internal/database/migrate.go:30-126 | the history check and the nested loops, one operation at a time, equal the specified call for every pattern of failures; `SucceedsExactly` says when it returns nil and `EveryRunSound` what it leaves |
| `MigrationRunner.Runner.RunStatements` | internal/database/migrate.go:102-106 | the statement loop equals the specified run of a body |
| `HocrDocument.DecodeBounded` | internal/hocr/parser.go:191-291 | the loop over tokens with its frame stack equals the step-by-step decoder |
| `HocrDocument.DecodeExactly` | internal/hocr/parser.go:191-291 | for every token stream the stack accepts exactly the documents the recursive reading allows and returns their tree |
| `HocrLimits.AcceptedExactly` | internal/hocr/parser.go:16-23 | accepted exactly when one document, blank around its root, within depth, element, attribute and word-text limits, without nested words or lines |
| `HocrLimits.WriteBack` | internal/hocr/parser.go:207-288 | writing the returned tree gives back the stream's start and end tokens |
| `HocrReading.WordsSpoken` | internal/hocr/parser.go:207-288 | on every accepted stream the words of the tree hold, in document order, exactly the text between each word's start and end tokens, whatever markup lies between |
| `HocrTraversal.WalkLines` | internal/hocr/parser.go:293-304 | the walk appends exactly the kept lines in document order |
| `HocrTraversal.WalkWords` | internal/hocr/parser.go:306-330 | the walk appends exactly the kept words, each with the line id it inherits |
| `HocrTraversal.ParseWord` | internal/hocr/parser.go:451-468 | later attributes win; unreadable titles, missing ids and blank text drop the word |
| `HocrReading.WordExactly` | internal/hocr/parser.go:451-488 | an element yields a word exactly when it has the class, every box and confidence can be read, its last id is not empty and its text is not blank |
| `HocrReading.LastIdExactly` | internal/hocr/parser.go:470-488 | the id is the last one among the attributes |
| `HocrReading.LastBoxExactly` | internal/hocr/parser.go:613-638 | the box is that of the last title that has one |
| `HocrReading.LastConfidenceExactly` | internal/hocr/parser.go:613-638 | the confidence is that of the last title that has one |
| `HocrReading.LastCutsExactly` | internal/hocr/parser.go:332-365 | cuts come from the last title, even one without any |
| `HocrReading.FirstIdExactly` | internal/hocr/parser.go:306-318 | the line id handed down is the first one among the attributes |
| `HocrReading.WordsInOrder` | internal/hocr/parser.go:306-330 | the word walk meets every word of the document once, in document order |
| `HocrReading.LinesInOrder` | internal/hocr/parser.go:293-304 | the line walk meets every line with an id and a readable box once, in document order |
| `HocrReading.LineNamed` | internal/hocr/parser.go:411-429 | every word of a line names it, and without a line id makes one up from its own |
| `Strings.TrimExactly` | internal/hocr/parser.go:640-643 | trimming takes away all white space at the two ends and nothing else |
| `HocrTraversal.ElementAgrees` | internal/hocr/parser.go:293-330 | without nested lines the two walks agree on kept lines exactly when each kept line with words has the same first and last id |
| `HocrParse.ValidateLines` | internal/hocr/parser.go:104-116 | the running total accepts exactly when the lines hold at most 10000 words together and there are at most 10000 lines |
| `HocrParse.ParseDocument` | internal/hocr/parser.go:53-70 | decoding, both walks and both validations equal the specified parse |
| `HocrAgreement.DecodedWalksAgree` | internal/hocr/parser.go:53-70 | on every accepted stream the lines' words are the selection of words in kept lines, exactly under that condition |
| `HocrAgreement.OneIdAgrees` | internal/hocr/parser.go:389-409 | at most one id per element is enough |
| `HocrAgreement.TwoIdsDisagree` | internal/hocr/parser.go:306-330 | tokens of a line with two ids that decode to a tree on which the walks differ |
| `HocrGlyphs.NormalizeBoundaries` | internal/hocr/parser.go:572-599 | sorting and the dedup loop give exactly the edges and the placed inner cuts in increasing order, except that a left edge of -1 is dropped; what comes out when the width overflows 64 bits |
| `HocrGlyphs.WantedExactly` | internal/hocr/parser.go:572-599 | a boundary is an edge or a column inside the word that some cut names, as itself or as an offset from the left edge that is no column of the word |
| `HocrGlyphs.EvenlySplit` | internal/hocr/parser.go:601-611 | every boundary, in 64-bit arithmetic with truncating division |
| `HocrTiling.EvenEndExactly` | internal/hocr/parser.go:601-611 | the last even boundary is the right edge exactly when the product does not overflow |
| `HocrTiling.CutTextExactly` | internal/hocr/parser.go:516-547 | the glyph texts make up the word exactly when there are no more segments than characters |
| `HocrTiling.EvenTilesExactly` | internal/hocr/parser.go:516-547 | for even splits, the glyph boxes tile the word exactly when the product of width and length fits in 64 bits |
| `HocrTiling.EvenTextExactly` | internal/hocr/parser.go:516-547 | for even splits, the texts make up the word exactly when, besides, the word is at least as wide as it is long |
| `HocrTiling.EvenSplitOverflows` | internal/hocr/parser.go:601-611 | a word of two characters whose glyphs neither tile nor spell it |
| `HocrTiling.GlyphsFromWord` | internal/hocr/parser.go:490-547 | on the trimmed text: with cuts the boxes tile the word and the texts make it up exactly when there are no more segments than characters; without cuts, both exactly under the conditions above; nothing for blank text or no width; every glyph has its word's id, line, top and bottom, a text, and a number that grows with its place |
| `HocrPageLimit.WalkGlyphs` | internal/hocr/parser.go:332-365 | returns every word with its glyphs, or an error exactly when words and glyphs exceed the page limit |
| `HocrPageLimit.SameAsWordWalk` | internal/hocr/parser.go:332-365 | the glyph walk meets the same words in the same lines as the word walk |
| `HocrPageLimit.EntriesCutRight` | internal/hocr/parser.go:332-365 | with the glyph cutter, every word of a page has its boxes and texts cut as above, by its own cuts |
| `HocrPageLimit.PageGlyphs` | internal/hocr/parser.go:167-179 | the page call: all words of the word walk, each cut as above, within the limit, or an error exactly when they exceed it |
| `HocrPool.Regions` | internal/hocr/service.go:1083-1089 | one region per detected box, numbered in order, with the box's own four numbers |
| `HocrPool.OutcomeExactly` | internal/hocr/service.go:940-1020 | a worker sends one word with the region's own box and the trimmed text for a legible reply, a skip for an illegible one and nothing after a failure |
| `HocrPool.RefusalExactly` | internal/hocr/service.go:1115-1117 | the refusal is the sentinel in any letter case with white space around it |
| `HocrPool.EveryScheduleSameResults` | internal/hocr/service.go:906-1056 | for every worker count and completion order the results are a permutation of one worker's |
| `HocrPool.PoolFinishes` | internal/hocr/service.go:1023-1037 | an unfinished pool can always step and every step brings the end nearer |
| `HocrOrder.SortCorrect` | internal/hocr/service.go:1104-1104 | sorting orders by line, keeps every entry and is stable |
| `HocrOrder.ScheduleIndependent` | internal/hocr/service.go:1039-1056 | collecting and sorting gives the transcribed regions in reading order under every schedule |
| `HocrOrder.LegibleIsListed` | internal/hocr/service.go:940-1056 | every region with a legible reply is in the list, at its place in reading order, with its own box and text |
| `HocrOrder.ListedIsLegible` | internal/hocr/service.go:940-1056 | everything in the list is some region's legible reply |
| `HocrGenerate.RoundTrip` | internal/hocr/service.go:1063-1111 | as tokens, the generated document is accepted exactly when it has at most 10000 regions, and then parses back to one line with one word per region, with the same text and box |
| `HocrGenerate.RegionComesBack` | internal/hocr/service.go:1103-1111 | region i comes back as line i with one word, the same text and the box x, y, x+width, y+height |
| `HocrGenerate.ScheduleRoundTrip` | internal/hocr/service.go:906-1111 | from the pool to the parsed lines and words, or the refusal, as tokens, under every schedule; `BoxesComeBack` says which regions these are and with what box and text |
| `HocrGenerate.BoxesComeBack` | internal/hocr/service.go:906-1111 | from detected boxes to parsed lines under every schedule: refused exactly when more than 10000 boxes are legible, and otherwise exactly one line per legible box, in order, with its own number, corners and trimmed text |
| `HocrGenerate.IdsDistinct` | internal/hocr/service.go:1103-1111 | different lines get different ids, and so do their words |
| `Jp2Boxes.FindImageHeader` | internal/handlers/image_processing.go:195-240 | the offset loop and its recursion terminate, stay in range and equal the recursive search on all inputs |
| `Jp2Boxes.SearchFollowsTree` | internal/handlers/image_processing.go:195-240 | on every encoding of a well-formed box forest the answer is decided by the first image header or too-deep super box in preorder |
| `Jp2Boxes.FirstHeaderWins` | internal/handlers/image_processing.go:195-240 | within the depth bound: the dimensions of the first image header in preorder, or not found |
| `Jp2Boxes.DepthExactly` | internal/handlers/image_processing.go:195-240 | an image header is reached through four jp2h boxes and no more |
| `Jp2Boxes.SearchGoesOn` | internal/handlers/image_processing.go:195-240 | bytes after a list of boxes are searched exactly when nothing in the list decides |
| `Jp2Boxes.MalformedFails` | internal/handlers/image_processing.go:195-222 | a box is refused exactly when its header has no room or its length is shorter than the header or longer than the data, and a search that meets one fails |
| `Jp2Boxes.ImageHeaderExactly` | internal/handlers/image_processing.go:223-230 | an image header yields a size exactly when it has 14 bytes and names a height and a width in range |
| `Jp2Boxes.OtherFilesFail` | internal/handlers/image_processing.go:161-176 | anything that is neither a codestream nor a signed file is refused |
| `Jp2Boxes.CodestreamExactly` | internal/handlers/image_processing.go:178-193 | a codestream's size is found exactly when its SIZ segment comes first, is complete and spans a proper area, and is extent minus origin |
| `Jp2Boxes.BigEndianConcat` | internal/handlers/image_processing.go:195-222 | numbers are read with the first byte weighing most |
| `Jp2Boxes.BoundedDimensions` | internal/handlers/image_processing.go:242-252 | exactly when dimensions are returned, and that they are extent minus origin |
| `Jp2Boxes.CodestreamRoundTrip` | internal/handlers/image_processing.go:178-193 | an encoded SIZ segment reads back |
| `Jp2Boxes.ImageHeaderRoundTrip` | internal/handlers/image_processing.go:223-230 | an encoded image header, height first, reads back as its width and height |
| `Jp2Boxes.FileRoundTrip` | internal/handlers/image_processing.go:161-176 | a signed file of well-formed boxes yields the first image header's dimensions |

## Left out

- Row scanning, parameter binding and type mapping of the database layer: plumbing.
- Locking order, deadlocks and isolation levels: every transaction is one atomic step.
- Webhook events, external requests, checkpoints and upload-batch bookkeeping written beside the modelled rows: easier repeats of the same fencing.
- Permissions, OAuth, JWT, cookies and review tokens: policy over finite tables and cryptographic libraries.
- Configuration, URL validation, provider calls, image conversion and file writes: foreign calls and I/O.
- Reserved item and image counts are not bounded by 32 bits, and limits of zero are not rejected, in the quota model.
- Vault path validation: a path is only required to be new.
- XML lexing, HTML escaping and regular expressions: hOCR starts at tokens whose attributes have been read, and the tokens of a generated document are taken to carry the text that was escaped.
- The decoder's frames hold values: writing through pointers into a growing slice of children, and copying a strings.Builder when the frame slice grows, are not captured.
- The 10 MiB input limit of the decoder: a single comparison on the bytes before lexing.
- HocrLimits.AcceptedExactly: is about a decoder whose frames are values, so it does not say when a copied strings.Builder would panic.
- MirrorOutbox.PutsNeverOverlap: has no event for deleting a mirror row together with its image, because no put of that image follows.
- findPageDimensions, PlainText and generateHOCRFromDetectedLines: easier walks over the same tree.
- sort.Ints and sort.SliceStable are functions on sequences; sorting in place is not captured.
- HocrGenerate.RoundTrip: is about tokens and about texts of at most 4096 bytes, because longer words are refused by the decoder and the XML lexer is not modelled; it turns carriage returns into line feeds and refuses control characters, which escaping leaves alone.
- HocrGenerate.BoxesComeBack: is about tokens, boxes on the page and texts of at most 4096 bytes, for the same reason.
- StorageQuotaRuns.QuotaNeverExceeded: does not cover starting an upload batch and rebuilding, because neither is checked against a limit.
- ProviderSecretManager.Manager.Create: runs without interleaving, because interleavings are the subject of the protocol in ProviderSecrets.
