/**
 What an upload costs a workspace, from staging to physical deletion.

 Storage is charged once per upload key: the rebuild query takes the MAX of the
 sizes recorded on the images and on the cleanup row of that key, and sums over
 the keys.  The transactions below never recompute it; they add and subtract.
 */
module UploadAccounting {
  import opened Nullable
  import opened Sums
  import C = CleanupOutbox

  /** What a worker remembers of a claimed cleanup row. */
  datatype Delivery = Delivery(id: nat, generation: nat, bytes: nat)

  /** `referenced` and `retired` hold the tokens whose workers were told to keep, or to delete, the blob. */
  datatype Key = Key(
    row: Option<C.Row>,
    images: map<nat, nat>,
    deliveries: map<nat, Delivery>,
    referenced: set<nat>,
    retired: set<nat>,
    nextToken: nat,
    nextId: nat)

  const Fresh := Key(None, map[], map[], {}, {}, 0, 1)

  datatype Event =
    | Stage(bytes: nat, notBefore: int, now: int)
    | Resize(bytes: nat, notBefore: int)
    | Ingest(image: nat, bytes: nat)
    | BatchImage(image: nat, bytes: nat)
    | Unbind
    | DeleteImages(ids: set<nat>, now: int)
    | Claim(leaseUntil: int, now: int)
    | Sweep(now: int)
    | Retry(token: nat, next: int)
    | Begin(token: nat, now: int)
    | CompletePlain(token: nat)
    | CompleteFenced(token: nat)
    | Orphan(bytes: nat, now: int)

  predicate Fenced(k: Key) {
    k.row.Some? && k.row.value.deleteFencedAt.Some?
  }

  predicate HeldBy(k: Key, token: nat) {
    && k.row.Some? && token in k.deliveries
    && C.HeldBy(k.row.value, k.deliveries[token].id, k.deliveries[token].generation, token)
  }

  function Upserted(k: Key, bytes: nat, notBefore: int, now: int): Key {
    if k.row.None? then
      k.(row := Some(C.InsertedRow(k.nextId, C.UploadBlob, 1, bytes, notBefore)), nextId := k.nextId + 1)
    else k.(row := Some(C.RequeuedRow(k.row.value, 1, bytes, notBefore, now)))
  }

  /** The largest size among some images. */
  ghost function MaxBytes(images: map<nat, nat>): nat
    decreases |images|
  {
    if images == map[] then 0
    else
      var i :| i in images;
      C.MaxNat(images[i], MaxBytes(images - {i}))
  }

  /** The state of one key after a transaction; a refused transaction changes nothing. */
  ghost function KeyStep(k: Key, e: Event): Key {
    match e
    case Stage(bytes, notBefore, now) =>
      if bytes == 0 || Fenced(k) then k else Upserted(k, bytes, notBefore, now)
    case Resize(bytes, notBefore) =>
      if k.row.None? || Fenced(k) then k
      else k.(row := Some(C.ResizedRow(k.row.value, k.row.value.workspace, bytes, notBefore)))
    case Ingest(image, bytes) =>
      if k.row.None? || Fenced(k) || k.row.value.storageBytes != bytes || image in k.images then k
      else k.(row := None, images := k.images[image := bytes])
    case BatchImage(image, bytes) =>
      if Fenced(k) || (k.row.Some? && k.row.value.storageBytes != bytes) || image in k.images then k
      else k.(images := k.images[image := bytes])
    case Unbind => if k.images != map[] then k.(row := None) else k
    case DeleteImages(ids, now) =>
      if ids == {} || !(ids <= k.images.Keys) then k
      else Upserted(k, MaxBytes(Within(k.images, ids)), now, now).(images := k.images - ids)
    case Claim(leaseUntil, now) =>
      if k.row.None? || !C.Claimable(k.row.value, now) then k
      else k.(row := Some(C.ClaimedRow(k.row.value, k.nextToken, leaseUntil)),
              deliveries := k.deliveries[k.nextToken :=
                Delivery(k.row.value.id, k.row.value.generation, k.row.value.storageBytes)],
              nextToken := k.nextToken + 1)
    case Sweep(now) => if k.row.None? then k else k.(row := Some(C.SweptRow(k.row.value, now)))
    case Retry(token, next) => if HeldBy(k, token) then k.(row := Some(C.RetriedRow(k.row.value, next))) else k
    case Begin(token, now) =>
      if !HeldBy(k, token) then k
      else if Fenced(k) then k.(retired := k.retired + {token})
      else if k.images != map[] then k.(referenced := k.referenced + {token})
      else k.(row := Some(C.FencedRow(k.row.value, now)), retired := k.retired + {token})
    case CompletePlain(token) =>
      if token in k.referenced && HeldBy(k, token) && !Fenced(k) then k.(row := None) else k
    case CompleteFenced(token) =>
      if token in k.retired && HeldBy(k, token) && Fenced(k) then k.(row := None) else k
    case Orphan(bytes, now) => Upserted(k, bytes, now, now)
  }

  /** What the transaction adds to upload_blob_bytes. */
  function Delta(k: Key, e: Event): int {
    match e
    case Stage(bytes, _, _) =>
      if bytes == 0 || Fenced(k) then 0
      else if k.row.None? then bytes
      else if k.row.value.storageBytes >= bytes then 0 else bytes - k.row.value.storageBytes
    case Resize(bytes, _) =>
      if k.row.None? || Fenced(k) || bytes <= k.row.value.storageBytes then 0 else bytes - k.row.value.storageBytes
    case BatchImage(image, bytes) => if k.row.None? && image !in k.images then bytes else 0
    case CompleteFenced(token) =>
      if token in k.retired && HeldBy(k, token) && Fenced(k) then 0 - k.deliveries[token].bytes as int else 0 as int
    case _ => 0
  }

  // ----- what the rebuild query charges --------------------------------------------

  ghost function Charge(k: Key): nat {
    C.MaxNat(MaxBytes(k.images), if k.row.Some? then k.row.value.storageBytes else 0)
  }

  lemma {:induction false} MaxBytesOneSize(images: map<nat, nat>, z: nat)
    requires forall i :: i in images ==> images[i] == z
    ensures MaxBytes(images) == if images == map[] then 0 else z
    decreases |images|
  {
    if images != map[] {
      var i :| i in images && MaxBytes(images) == C.MaxNat(images[i], MaxBytes(images - {i}));
      MaxBytesOneSize(images - {i}, z);
      assert images[i] == z && MaxBytes(images - {i}) <= z;
      assert C.MaxNat(images[i], MaxBytes(images - {i})) == z;
    }
  }

  // ----- what a transaction does to a key ------------------------------------------------

  /** The image is recorded: it is new, the key is not fenced, and a cleanup row that is there agrees on the size. */
  predicate Records(k: Key, e: Event) {
    && (e.Ingest? || e.BatchImage?) && e.image !in k.images && !Fenced(k)
    && (k.row.Some? ==> k.row.value.storageBytes == e.bytes) && (e.Ingest? ==> k.row.Some?)
  }

  predicate Deletes(k: Key, e: Event) {
    e.DeleteImages? && e.ids != {} && e.ids <= k.images.Keys
  }

  /** Images come and go only by being recorded and deleted. */
  lemma ImagesExactly(k: Key, e: Event)
    ensures KeyStep(k, e).images ==
      if Records(k, e) then k.images[e.image := e.bytes]
      else if Deletes(k, e) then k.images - e.ids
      else k.images
  {
  }

  /** The cleanup row goes when an ingest or a binding takes over the upload, or when its holder completes as it was told. */
  lemma RowGoneExactly(k: Key, e: Event)
    requires k.row.Some?
    ensures KeyStep(k, e).row.None? <==>
      || (e.Ingest? && Records(k, e))
      || (e.Unbind? && k.images != map[])
      || (e.CompletePlain? && HeldBy(k, e.token) && e.token in k.referenced && !Fenced(k))
      || (e.CompleteFenced? && HeldBy(k, e.token) && e.token in k.retired && Fenced(k))
  {
  }

  /** A cleanup row appears when an upload is staged, its images are deleted, or it is found orphaned. */
  lemma RowMadeExactly(k: Key, e: Event)
    requires k.row.None?
    ensures KeyStep(k, e).row.Some? <==> (e.Stage? && e.bytes > 0) || Deletes(k, e) || e.Orphan?
    ensures KeyStep(k, e).row.Some? ==> var r := KeyStep(k, e).row.value;
      r.deleteFencedAt.None? && (e.Stage? || e.Orphan? ==> r.storageBytes == e.bytes) && forall token :: !HeldBy(KeyStep(k, e), token)
  {
  }

  /**
   The holder of the row is told to keep the blob exactly when an image names it and
   the key is not fenced, and to delete it otherwise, which fences the key; nobody else
   is told anything.
   */
  lemma ToldExactly(k: Key, token: nat, now: int)
    ensures var t := KeyStep(k, Begin(token, now));
      && t.referenced == (if HeldBy(k, token) && !Fenced(k) && k.images != map[] then k.referenced + {token} else k.referenced)
      && t.retired == (if HeldBy(k, token) && (Fenced(k) || k.images == map[]) then k.retired + {token} else k.retired)
      && (Fenced(t) <==> Fenced(k) || (HeldBy(k, token) && k.images == map[]))
      && (Fenced(k) ==> t.row == k.row)
  {
  }

  // ----- the key's row is a row of the cleanup outbox ----------------------------------------

  /** The outbox that holds this row and nothing else. */
  function AsOutbox(k: Key, now: int): C.State {
    C.State(now, C.UploadBlob, k.row, map[], k.nextToken, k.nextId, [])
  }

  /** What the cleanup outbox is told by a transaction on the key that takes effect. */
  ghost function AsCleanup(k: Key, e: Event): Option<C.Event> {
    match e
    case Stage(bytes, notBefore, _) => if bytes == 0 || Fenced(k) then None else Some(C.Upsert(k.nextId, 1, bytes, notBefore))
    case Resize(bytes, notBefore) => if k.row.None? || Fenced(k) then None else Some(C.Resize(k.row.value.workspace, bytes, notBefore))
    case Ingest(_, _) => if Records(k, e) then Some(C.Drop) else None
    case BatchImage(_, _) => None
    case Unbind => if k.images != map[] then Some(C.Drop) else None
    case DeleteImages(ids, now) => if Deletes(k, e) then Some(C.Upsert(k.nextId, 1, MaxBytes(Within(k.images, ids)), now)) else None
    case Claim(leaseUntil, _) => Some(C.Claim(k.nextToken, leaseUntil))
    case Sweep(_) => Some(C.Event.Sweep)
    case Retry(token, next) =>
      if token in k.deliveries then Some(C.Retry(k.deliveries[token].id, k.deliveries[token].generation, token, next)) else None
    case Begin(token, _) =>
      if token in k.deliveries && k.images == map[] then Some(C.Fence(k.deliveries[token].id, k.deliveries[token].generation, token)) else None
    case CompletePlain(token) =>
      if token in k.deliveries && token in k.referenced
      then Some(C.Complete(k.deliveries[token].id, k.deliveries[token].generation, token, false)) else None
    case CompleteFenced(token) =>
      if token in k.deliveries && token in k.retired
      then Some(C.Complete(k.deliveries[token].id, k.deliveries[token].generation, token, true)) else None
    case Orphan(bytes, now) => Some(C.Upsert(k.nextId, 1, bytes, now))
  }

  function NowOf(e: Event): int {
    match e
    case Stage(_, _, now) => now
    case DeleteImages(_, now) => now
    case Claim(_, now) => now
    case Sweep(now) => now
    case Begin(_, now) => now
    case Orphan(_, now) => now
    case _ => 0
  }

  /** Whatever happens to a key, its row goes through the statements of the cleanup outbox and nothing else. */
  lemma KeyFollowsOutbox(k: Key, e: Event)
    requires Safe(k)
    ensures KeyStep(k, e).row ==
      match AsCleanup(k, e)
      case None => k.row
      case Some(c) => C.Step(AsOutbox(k, NowOf(e)), c).row
  {
    if e.Begin? { BeginFollowsOutbox(k, e.token, e.now); }
  }

  /** A fence that is there already is not moved, and a fenced key has no images. */
  lemma BeginFollowsOutbox(k: Key, token: nat, now: int)
    requires Safe(k)
    ensures KeyStep(k, Begin(token, now)).row ==
      match AsCleanup(k, Begin(token, now))
      case None => k.row
      case Some(c) => C.Step(AsOutbox(k, now), c).row
  {
    if HeldBy(k, token) && Fenced(k) { assert C.FencedRow(k.row.value, now) == k.row.value; }
  }

  /** A claim, the answer and the completion that goes with it, on a row that is due. */
  ghost function Worked(k: Key, leaseUntil: int, now: int, fenced: bool): Key {
    var k2 := KeyStep(KeyStep(k, Claim(leaseUntil, now)), Begin(k.nextToken, now));
    KeyStep(k2, if fenced then CompleteFenced(k.nextToken) else CompletePlain(k.nextToken))
  }

  /** An upload nobody uses is deleted in one round, and all it was recorded with is given back. */
  lemma UnusedIsRetired(k: Key, leaseUntil: int, now: int)
    requires k.row.Some? && C.Claimable(k.row.value, now) && k.images == map[]
    ensures Worked(k, leaseUntil, now, true).row.None? && Worked(k, leaseUntil, now, true).images == map[]
    ensures
      var k1 := KeyStep(k, Claim(leaseUntil, now));
      var k2 := KeyStep(k1, Begin(k.nextToken, now));
      Delta(k, Claim(leaseUntil, now)) + Delta(k1, Begin(k.nextToken, now)) + Delta(k2, CompleteFenced(k.nextToken)) + k.row.value.storageBytes == 0
  {
  }

  /** An upload some image uses keeps its images and its charge; only the row goes. */
  lemma UsedIsKept(k: Key, leaseUntil: int, now: int)
    requires k.row.Some? && C.Claimable(k.row.value, now) && k.images != map[] && !Fenced(k)
    ensures Worked(k, leaseUntil, now, false).row.None? && Worked(k, leaseUntil, now, false).images == k.images
    ensures
      var k1 := KeyStep(k, Claim(leaseUntil, now));
      var k2 := KeyStep(k1, Begin(k.nextToken, now));
      Delta(k, Claim(leaseUntil, now)) + Delta(k1, Begin(k.nextToken, now)) + Delta(k2, CompletePlain(k.nextToken)) == 0
  {
  }

  // ----- the retirement handshake ----------------------------------------------------

  /** A fenced key has no images, and a worker told to keep the blob holds its row only while an image needs it. */
  predicate Safe(k: Key) {
    && (forall t :: t in k.deliveries ==> t < k.nextToken)
    && (forall t :: t in k.referenced ==> t < k.nextToken)
    && (k.row.Some? ==> k.row.value.kind == C.UploadBlob && k.row.value.id < k.nextId)
    && (k.row.Some? && k.row.value.lockedBy.Some? ==> k.row.value.lockedBy.value < k.nextToken)
    && (Fenced(k) ==> k.images == map[])
    && (k.row.Some? && k.row.value.lockedBy.Some? && k.row.value.lockedBy.value in k.referenced ==> k.images != map[])
  }

  lemma StepKeepsSafe(k: Key, e: Event)
    requires Safe(k)
    ensures Safe(KeyStep(k, e))
  {
  }

  /**
   The fence is irrevocable: from the moment it is set no image can name the
   key, and the row stays fenced until the holder's fenced completion removes it.
   */
  lemma FenceIsIrrevocable(k: Key, e: Event)
    requires Safe(k) && Fenced(k)
    ensures KeyStep(k, e).images == map[]
    ensures Fenced(KeyStep(k, e)) || (e.CompleteFenced? && KeyStep(k, e).row.None?)
    ensures Fenced(KeyStep(k, e)) ==> KeyStep(k, e).row.value.deleteFencedAt == k.row.value.deleteFencedAt
  {
  }

  ghost function Run(k: Key, es: seq<Event>): Key {
    if es == [] then k else KeyStep(Run(k, es[..|es| - 1]), es[|es| - 1])
  }

  /** The fenced completion at event `n` removes the row. */
  ghost predicate Retires(k: Key, es: seq<Event>, n: nat) {
    n < |es| && es[n].CompleteFenced? && Fenced(Run(k, es[..n])) && Run(k, es[..n + 1]).row.None?
  }

  /**
   Over any run from a fenced key: it is still fenced, by the same fence and without
   an image, or a holder's fenced completion has removed its row.
   */
  lemma {:induction false} FencedUntilRetired(k: Key, es: seq<Event>)
    requires Safe(k) && Fenced(k)
    ensures Safe(Run(k, es))
    ensures
      var t := Run(k, es);
      || (Fenced(t) && t.images == map[] && t.row.value.deleteFencedAt == k.row.value.deleteFencedAt)
      || exists n :: 0 <= n < |es| && Retires(k, es, n)
    decreases |es|
  {
    if es != [] {
      var m := |es| - 1;
      var front := es[..m];
      FencedUntilRetired(k, front);
      StepKeepsSafe(Run(k, front), es[m]);
      if n :| 0 <= n < |front| && Retires(k, front, n) {
        assert front[..n] == es[..n] && front[..n + 1] == es[..n + 1];
        assert Retires(k, es, n);
      } else {
        FenceIsIrrevocable(Run(k, front), es[m]);
        assert es[..m + 1] == es;
        if !Fenced(Run(k, es)) { assert Retires(k, es, m); }
      }
    }
  }

  // ----- one key, one size -------------------------------------------------------------

  /** Every record of the key carries the size `z`. */
  predicate OneSize(k: Key, z: nat) {
    && (forall i :: i in k.images ==> k.images[i] == z)
    && (k.row.Some? ==> k.row.value.storageBytes == z)
    && (forall t :: t in k.deliveries ==> k.deliveries[t].bytes == z)
  }

  predicate SizedBy(e: Event, z: nat) {
    match e
    case Stage(bytes, _, _) => bytes == z
    case Resize(bytes, _) => bytes == z
    case Ingest(_, bytes) => bytes == z
    case BatchImage(_, bytes) => bytes == z
    case Orphan(bytes, _) => bytes == z
    case _ => true
  }

  /**
   What a caller must check for the books to stay balanced: staging and an
   unstaged reference are only charged right for a key that no image uses yet,
   and an orphan may only be enqueued for a key that is already charged.
   */
  predicate Clean(k: Key, e: Event) {
    match e
    case Stage(_, _, _) => k.row.None? ==> k.images == map[]
    case BatchImage(image, _) => k.row.None? && image !in k.images ==> k.images == map[]
    case Orphan(_, _) => k.row.Some? || k.images != map[]
    case _ => true
  }

  lemma StepKeepsSize(k: Key, e: Event, z: nat)
    requires OneSize(k, z) && SizedBy(e, z)
    ensures OneSize(KeyStep(k, e), z)
  {
    if e.DeleteImages? && e.ids != {} && e.ids <= k.images.Keys {
      var gone := Within(k.images, e.ids);
      MaxBytesOneSize(gone, z);
      var i :| i in e.ids;
      assert i in gone;
    }
  }

  /** The charge of a key is its size while any record of it exists, and zero otherwise. */
  lemma ChargeOneSize(k: Key, z: nat)
    requires OneSize(k, z)
    ensures Charge(k) == if k.row.Some? || k.images != map[] then z else 0
  {
    MaxBytesOneSize(k.images, z);
  }

  /** A transaction moves the counter by exactly what it moves the charge, if and only if it is clean. */
  lemma DeltaIsChargeDifference(k: Key, e: Event, z: nat)
    requires Safe(k) && OneSize(k, z) && SizedBy(e, z) && z > 0
    ensures Charge(KeyStep(k, e)) - Charge(k) == Delta(k, e) <==> Clean(k, e)
  {
    StepKeepsSize(k, e, z);
    ChargeOneSize(k, z);
    ChargeOneSize(KeyStep(k, e), z);
  }

  /** Staging, ingesting and staging the same key again: two charges for one upload. */
  lemma StagedAgainChargesTwice(bytes: nat, notBefore: int, now: int, image: nat)
    requires bytes > 0
    ensures
      var stage, ingest := Stage(bytes, notBefore, now), Ingest(image, bytes);
      var k1 := KeyStep(Fresh, stage);
      var k2 := KeyStep(k1, ingest);
      Delta(Fresh, stage) + Delta(k1, ingest) + Delta(k2, stage) == 2 * bytes && Charge(KeyStep(k2, stage)) == bytes
  {
    var k2 := KeyStep(KeyStep(Fresh, Stage(bytes, notBefore, now)), Ingest(image, bytes));
    ChargeOneSize(KeyStep(k2, Stage(bytes, notBefore, now)), bytes);
  }

  // ----- a whole workspace ----------------------------------------------------------------

  datatype Workspace = Workspace(keys: map<string, Key>, used: int)

  function KeyOf(w: Workspace, name: string): Key {
    if name in w.keys then w.keys[name] else Fresh
  }

  ghost function Step(w: Workspace, name: string, e: Event): Workspace {
    Workspace(w.keys[name := KeyStep(KeyOf(w, name), e)], w.used + Delta(KeyOf(w, name), e))
  }

  /** The upload_blob_bytes column of the rebuild query. */
  ghost function Rebuilt(w: Workspace): int {
    Sum(map name | name in w.keys :: Charge(w.keys[name]))
  }

  predicate Sound(w: Workspace, size: string -> nat) {
    forall name :: name in w.keys ==> Safe(w.keys[name]) && OneSize(w.keys[name], size(name))
  }

  lemma RebuiltStep(w: Workspace, name: string, e: Event)
    ensures Rebuilt(Step(w, name, e)) == Rebuilt(w) - Charge(KeyOf(w, name)) + Charge(KeyStep(KeyOf(w, name), e))
  {
    var t := Step(w, name, e);
    var before := map n | n in w.keys :: Charge(w.keys[n]);
    var after := map n | n in t.keys :: Charge(t.keys[n]);
    assert after == before[name := Charge(KeyStep(KeyOf(w, name), e))];
    SumUpdate(before, name, Charge(KeyStep(KeyOf(w, name), e)));
    assert Charge(Fresh) == 0;
  }

  /** On balanced books the counter still equals the rebuild after a transaction exactly when the transaction was clean. */
  lemma BalancedExactlyWhenClean(w: Workspace, name: string, e: Event, z: nat)
    requires Safe(KeyOf(w, name)) && OneSize(KeyOf(w, name), z) && w.used == Rebuilt(w)
    requires z > 0 && SizedBy(e, z)
    ensures Step(w, name, e).used == Rebuilt(Step(w, name, e)) <==> Clean(KeyOf(w, name), e)
  {
    RebuiltStep(w, name, e);
    DeltaIsChargeDifference(KeyOf(w, name), e, z);
  }

  ghost function Exec(run: seq<(string, Event)>): Workspace {
    if run == [] then Workspace(map[], 0)
    else Step(Exec(run[..|run| - 1]), run[|run| - 1].0, run[|run| - 1].1)
  }

  ghost predicate CleanRun(run: seq<(string, Event)>, size: string -> nat)
    decreases |run|
  {
    run == [] ||
    var (name, e) := run[|run| - 1];
    && CleanRun(run[..|run| - 1], size)
    && size(name) > 0 && SizedBy(e, size(name)) && Clean(KeyOf(Exec(run[..|run| - 1]), name), e)
  }

  /**
   In every clean run the counter equals the rebuild, so a key is charged its
   size from staging until its last image and its last cleanup row are gone:
   once, and without a gap.
   */
  lemma {:induction false} CounterEqualsRebuild(run: seq<(string, Event)>, size: string -> nat)
    requires CleanRun(run, size)
    ensures Sound(Exec(run), size) && Exec(run).used == Rebuilt(Exec(run))
    ensures forall name :: name in Exec(run).keys ==>
      Charge(Exec(run).keys[name]) ==
        if Exec(run).keys[name].row.Some? || Exec(run).keys[name].images != map[] then size(name) else 0
    decreases |run|
  {
    if run == [] {
      assert (map name | name in Exec(run).keys :: Charge(Exec(run).keys[name])) == map[];
    } else {
      CounterEqualsRebuild(run[..|run| - 1], size);
      var (name, e) := run[|run| - 1];
      var w := Exec(run[..|run| - 1]);
      BalancedExactlyWhenClean(w, name, e, size(name));
      StepKeepsSafe(KeyOf(w, name), e);
      StepKeepsSize(KeyOf(w, name), e, size(name));
    }
    forall name | name in Exec(run).keys {
      ChargeOneSize(Exec(run).keys[name], size(name));
    }
  }

  // ----- sizes that change ------------------------------------------------------------------

  /**
   Physical deletion releases the size the worker saw when it claimed the row.
   That is the charge exactly when the row was not resized since.
   */
  lemma ReleaseMatchesCharge(k: Key, token: nat)
    requires Safe(k) && token in k.retired && HeldBy(k, token) && Fenced(k)
    ensures Charge(KeyStep(k, CompleteFenced(token))) - Charge(k) == Delta(k, CompleteFenced(token))
       <==> k.deliveries[token].bytes == k.row.value.storageBytes
  {
  }

  /** Growing a staged upload after its cleanup row was claimed leaves the difference charged for good. */
  lemma ResizeAfterClaimLeaks(notBefore: int, now: int, leaseUntil: int, small: nat, large: nat)
    requires notBefore <= now && 0 < small < large
    ensures
      var staged := KeyStep(Fresh, Stage(small, notBefore, now));
      var claimed := KeyStep(staged, Claim(leaseUntil, now));
      var resized := KeyStep(claimed, Resize(large, now));
      var fenced := KeyStep(resized, Begin(0, now));
      var gone := KeyStep(fenced, CompleteFenced(0));
      && gone.row.None? && Charge(gone) == 0
      && Delta(Fresh, Stage(small, notBefore, now)) + Delta(staged, Claim(leaseUntil, now))
         + Delta(claimed, Resize(large, now)) + Delta(resized, Begin(0, now))
         + Delta(fenced, CompleteFenced(0)) == large - small
  {
  }
}
