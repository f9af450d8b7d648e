/**
 What each statement of the two outboxes does to a row, in a worker's terms: who may
 complete it, when it can be claimed, and which columns stay.
 */
module OutboxEffects {
  import opened Nullable
  import opened Powers
  import M = MirrorOutbox
  import C = CleanupOutbox

  // ----- the annotation mirror ----------------------------------------------------------

  /** At which times the row can be claimed: from `due` on, until something else happens to it. */
  ghost predicate MirrorDue(r: M.Row, due: int) {
    forall t :: M.Claimable(r, t) <==> due <= t
  }

  ghost predicate MirrorNeverDue(r: M.Row) {
    forall t :: !M.Claimable(r, t)
  }

  /** Nobody holds the row. */
  ghost predicate MirrorFree(r: M.Row) {
    forall revision, token :: !M.HeldBy(r, revision, token)
  }

  /** Everything of the row a lease does not touch. */
  predicate SamePublication(r: M.Row, r': M.Row) {
    r'.revision == r.revision && r'.payload == r.payload
  }

  /**
   A publication gets a row, free and with all its attempts; a newer one replaces the
   older and waits for the lease that was on it; one that is not newer changes nothing.
   */
  lemma PublishedExactly(s: M.State, revision: nat, payload: string)
    requires M.WellFormed(s)
    ensures var t := M.Step(s, M.Upsert(revision, payload));
      && t.row.Some?
      && if s.row.Some? && revision <= s.row.value.revision then t.row == s.row else
         && t.row.value.revision == revision && t.row.value.payload == payload
         && t.row.value.attemptCount == 0 && t.row.value.lastError.None? && MirrorFree(t.row.value)
         && MirrorDue(t.row.value,
              if s.row.Some? && s.row.value.leaseUntil.Some? && s.row.value.leaseUntil.value > s.now then s.row.value.leaseUntil.value else s.now)
  {
  }

  /** A claim spends one attempt; the claimer alone holds the row, and nobody else gets it while the lease lasts. */
  lemma PutClaimedExactly(s: M.State, token: nat, leaseUntil: int)
    requires M.Claims(s, token)
    ensures var t := M.Step(s, M.Claim(token, leaseUntil));
      && t.row.Some? && SamePublication(s.row.value, t.row.value) && t.row.value.lastError == s.row.value.lastError
      && t.row.value.attemptCount == s.row.value.attemptCount + 1
      && (forall revision, u :: M.HeldBy(t.row.value, revision, u) <==> revision == s.row.value.revision && u == token)
      && (if s.row.value.attemptCount + 1 < M.MAX_ATTEMPTS then MirrorDue(t.row.value, leaseUntil + 1) else MirrorNeverDue(t.row.value))
      && token in t.inFlight && t.inFlight[token] == leaseUntil && t.inFlight - {token} == s.inFlight - {token}
  {
  }

  /** The holder's error puts the row back for `next`, unless it was the last attempt; anyone else's changes nothing. */
  lemma PutRetriedExactly(s: M.State, revision: nat, token: nat, next: int, error: string)
    ensures var t := M.Step(s, M.Retry(revision, token, next, error));
      if s.row.Some? && M.HeldBy(s.row.value, revision, token) then
        && t.row.Some? && SamePublication(s.row.value, t.row.value) && t.row.value.attemptCount == s.row.value.attemptCount
        && t.row.value.lastError == Some(error) && MirrorFree(t.row.value)
        && (if s.row.value.attemptCount < M.MAX_ATTEMPTS then MirrorDue(t.row.value, next) else MirrorNeverDue(t.row.value))
        && t.inFlight == s.inFlight
      else t == s
  {
  }

  /** A completion removes the row exactly for the holder that has its answer. */
  lemma PutCompletedExactly(s: M.State, revision: nat, token: nat)
    ensures var t := M.Step(s, M.Complete(revision, token));
      if s.row.Some? && M.HeldBy(s.row.value, revision, token) && token !in s.inFlight
      then t.row.None? && t.delivered == s.delivered + {revision} && t.inFlight == s.inFlight
      else t == s
  {
  }

  /**
   After the sweep that precedes a claim, every row waits, has failed, is in its lease
   or can be claimed; and it touches only rows that were none of these.
   */
  lemma MirrorSweptExactly(s: M.State)
    requires M.WellFormed(s) && s.row.Some?
    ensures var t := M.Step(s, M.Sweep); t.row.Some? && var r, r' := s.row.value, t.row.value;
      && t == s.(row := Some(r'))
      && (r'.status == M.Processing ==> r'.leaseUntil.Some? && (r'.leaseUntil.value >= s.now || M.Claimable(r', s.now)))
      && (r' == r <==> r.status != M.Processing || r.leaseUntil.value >= s.now || r.attemptCount < M.MAX_ATTEMPTS)
      && SamePublication(r, r') && r'.attemptCount == r.attemptCount
      && (r' != r ==> r'.lastError.Some? && (r.lastError.Some? ==> r'.lastError == r.lastError) && MirrorNeverDue(r') && MirrorFree(r'))
  {
  }

  // ----- the resource cleanup outbox --------------------------------------------------------

  ghost predicate CleanupDue(r: C.Row, due: int) {
    forall t :: C.Claimable(r, t) <==> due <= t
  }

  ghost predicate CleanupNeverDue(r: C.Row) {
    forall t :: !C.Claimable(r, t)
  }

  ghost predicate CleanupFree(r: C.Row) {
    forall id, generation, token :: !C.HeldBy(r, id, generation, token)
  }

  /** Which resource the row is about, and what is known of it. */
  predicate SameResource(r: C.Row, r': C.Row) {
    r'.id == r.id && r'.kind == r.kind && r'.workspace == r.workspace && r'.storageBytes == r.storageBytes && r'.deleteFencedAt == r.deleteFencedAt
  }

  /**
   Queueing a resource again keeps its identity, its fence and the larger of the two
   sizes, names the new workspace if there is one, gives it all its attempts, waits for
   the lease that was on it, and shuts out every earlier holder.
   */
  lemma RequeuedExactly(s: C.State, id: nat, workspace: nat, bytes: nat, notBefore: int)
    requires C.WellFormed(s) && s.row.Some?
    ensures var t := C.Step(s, C.Upsert(id, workspace, bytes, notBefore)); var r := s.row.value;
      && t.row.Some? && t.row.value.id == r.id && t.row.value.kind == r.kind && t.row.value.deleteFencedAt == r.deleteFencedAt
      && (workspace > 0 ==> t.row.value.workspace == workspace) && (workspace == 0 ==> t.row.value.workspace == r.workspace)
      && t.row.value.storageBytes >= r.storageBytes && t.row.value.storageBytes >= bytes
      && (t.row.value.storageBytes == r.storageBytes || t.row.value.storageBytes == bytes)
      && t.row.value.generation > r.generation && t.row.value.attemptCount == 0 && CleanupFree(t.row.value)
      && var lease := r.leaseUntil.GetOr(s.now); CleanupDue(t.row.value, if lease > notBefore then lease else notBefore)
  {
  }

  lemma QueuedExactly(s: C.State, id: nat, workspace: nat, bytes: nat, notBefore: int)
    requires s.row.None?
    ensures var t := C.Step(s, C.Upsert(id, workspace, bytes, notBefore));
      && (id < s.nextId ==> t == s)
      && (id >= s.nextId ==>
            && t.row.Some? && t.row.value.id == id && t.row.value.kind == s.kind && t.nextId > id
            && t.row.value.workspace == workspace && t.row.value.storageBytes == bytes && t.row.value.deleteFencedAt.None?
            && t.row.value.attemptCount == 0 && CleanupFree(t.row.value) && CleanupDue(t.row.value, notBefore))
  {
  }

  lemma DeletionClaimedExactly(s: C.State, token: nat, leaseUntil: int)
    requires C.Claims(s, token)
    ensures var t := C.Step(s, C.Claim(token, leaseUntil)); var r := s.row.value;
      && t.row.Some? && SameResource(r, t.row.value) && t.row.value.generation == r.generation
      && t.row.value.attemptCount == r.attemptCount + 1
      && (forall id, generation, u :: C.HeldBy(t.row.value, id, generation, u) <==> id == r.id && generation == r.generation && u == token)
      && (if r.attemptCount + 1 < C.MAX_ATTEMPTS then CleanupDue(t.row.value, leaseUntil + 1) else CleanupNeverDue(t.row.value))
      && token in t.inFlight && t.inFlight[token] == leaseUntil && t.inFlight - {token} == s.inFlight - {token}
  {
  }

  /** An upload is put back however often it has failed; the other kinds only while attempts are left. */
  lemma DeletionRetriedExactly(s: C.State, id: nat, generation: nat, token: nat, next: int)
    ensures var t := C.Step(s, C.Retry(id, generation, token, next));
      if s.row.Some? && C.HeldBy(s.row.value, id, generation, token) then
        && t.row.Some? && SameResource(s.row.value, t.row.value) && t.row.value.generation == s.row.value.generation
        && t.row.value.attemptCount == s.row.value.attemptCount && CleanupFree(t.row.value) && t.inFlight == s.inFlight
        && (if s.row.value.kind == C.UploadBlob || s.row.value.attemptCount < C.MAX_ATTEMPTS
            then CleanupDue(t.row.value, next) else CleanupNeverDue(t.row.value))
      else t == s
  {
  }

  /** The sweep leaves no row stuck: an exhausted upload is due again an hour later, any other exhausted row never. */
  lemma CleanupSweptExactly(s: C.State)
    requires C.WellFormed(s) && s.row.Some?
    ensures var t := C.Step(s, C.Sweep); t.row.Some? && var r, r' := s.row.value, t.row.value;
      && t == s.(row := Some(r')) && SameResource(r, r') && r'.generation == r.generation && r'.attemptCount == r.attemptCount
      && (r'.status == C.Processing ==> r'.leaseUntil.Some? && (r'.leaseUntil.value >= s.now || C.Claimable(r', s.now)))
      && (r' == r <==> r.status != C.Processing || r.leaseUntil.value >= s.now || r.attemptCount < C.MAX_ATTEMPTS)
      && (r' != r ==> CleanupFree(r') && if r.kind == C.UploadBlob then CleanupDue(r', s.now + 3600) else CleanupNeverDue(r'))
  {
  }

  /** Only the holder sets the fence, only on an upload, and the first time stays. */
  lemma FencedExactly(s: C.State, id: nat, generation: nat, token: nat)
    requires C.WellFormed(s)
    ensures var t := C.Step(s, C.Fence(id, generation, token));
      if s.row.Some? && C.HeldBy(s.row.value, id, generation, token) && s.row.value.kind == C.UploadBlob then
        && t.row.Some? && t.row.value.deleteFencedAt.Some?
        && t.row.value.deleteFencedAt.value == (if s.row.value.deleteFencedAt.Some? then s.row.value.deleteFencedAt.value else s.now)
        && t.row.value.(deleteFencedAt := None) == s.row.value.(deleteFencedAt := None) && t.inFlight == s.inFlight
      else t == s
  {
  }

  /** A staged upload that grows is only ever put off, and its recorded size never shrinks. */
  lemma ResizedExactly(s: C.State, workspace: nat, bytes: nat, notBefore: int)
    requires C.WellFormed(s)
    ensures var t := C.Step(s, C.Resize(workspace, bytes, notBefore));
      if s.row.Some? && s.row.value.kind == C.UploadBlob then
        && t.row.Some? && t.row.value.workspace == workspace
        && t.row.value.storageBytes >= s.row.value.storageBytes && t.row.value.storageBytes >= bytes
        && (t.row.value.storageBytes == s.row.value.storageBytes || t.row.value.storageBytes == bytes)
        && (s.row.value.status == C.Pending ==> forall u :: C.Claimable(t.row.value, u) <==> C.Claimable(s.row.value, u) && notBefore <= u)
        && (s.row.value.status != C.Pending ==> forall u :: C.Claimable(t.row.value, u) <==> C.Claimable(s.row.value, u))
        && (forall i, g, u :: C.HeldBy(t.row.value, i, g, u) <==> C.HeldBy(s.row.value, i, g, u))
        && t.row.value.deleteFencedAt == s.row.value.deleteFencedAt && t.row.value.attemptCount == s.row.value.attemptCount
      else t == s
  {
  }

  // ----- delays ---------------------------------------------------------------------------------

  /** The mirror waits one second, then twice as long each time, and from the eighth attempt on 128 seconds. */
  lemma MirrorDelays(attempt: nat)
    ensures M.RetryDelay(0) == M.RetryDelay(1) == 1
    ensures 1 <= attempt < 8 ==> M.RetryDelay(attempt + 1) == 2 * M.RetryDelay(attempt)
    ensures attempt >= 8 ==> M.RetryDelay(attempt) == 128
    ensures 1 <= M.RetryDelay(attempt) <= 128
  {
    assert Pow2(0) == 1 && Pow2(1) == 2 && Pow2(2) == 4 && Pow2(3) == 8;
    assert Pow2(4) == 16 && Pow2(5) == 32 && Pow2(6) == 64 && Pow2(7) == 128;
  }

  /** The cleanup waits one second, then twice as long each time, but never more than an hour. */
  lemma CleanupDelays(attempt: nat)
    ensures C.RetryDelay(0) == C.RetryDelay(1) == 1
    ensures attempt >= 1 ==> C.RetryDelay(attempt + 1) == if 2 * C.RetryDelay(attempt) < 3600 then 2 * C.RetryDelay(attempt) else 3600
    ensures 1 <= C.RetryDelay(attempt) <= 3600
  {
    assert Pow2(0) == 1 && Pow2(1) == 2 && Pow2(2) == 4 && Pow2(3) == 8;
    assert Pow2(4) == 16 && Pow2(5) == 32 && Pow2(6) == 64 && Pow2(7) == 128;
    assert Pow2(8) == 256 && Pow2(9) == 512 && Pow2(10) == 1024 && Pow2(11) == 2048 && Pow2(12) == 4096;
  }
}
