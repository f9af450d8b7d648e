/**
 Provider secrets live in two systems: a locator row in the database and the
 material in Vault.  Creators, deleters and reconcilers interleave freely; a
 process that crashes simply takes no further step, except that a Vault write it
 had in flight may still land.
 */
module ProviderSecrets {

  datatype Lifecycle = PendingWrite | Active | CleanupPending

  /** Never changes once the row is inserted; remembered here after the row is gone. */
  datatype Locator = Locator(workspace: nat, path: string, created: int)

  /** Where the creating request stands.  `landed` says whether Vault has applied the write. */
  datatype Creator =
    | Ready
    | Writing(landed: bool)
    | WriteSucceeded
    | WriteFailed
    | Finished

  datatype State = State(
    now: int,
    locators: map<nat, Locator>,
    rows: map<nat, Lifecycle>,
    vault: set<string>,
    creators: map<nat, Creator>,
    /** Read by some reconciler as a stale pending row. */
    stale: set<nat>,
    /** Known by some worker to be cleanup_pending. */
    tickets: set<nat>,
    /** Some worker's Vault deletion has been applied. */
    wiped: set<nat>)

  const PENDING_GRACE := 300
  const MAX_SECRETS := 100

  const Empty := State(0, map[], map[], {}, map[], {}, {}, {})

  datatype Event =
    | Tick(d: nat)
    | Create(id: nat, workspace: nat, path: string)
    | StartWrite(id: nat)
    | Land(id: nat)
    | WriteReturns(id: nat, ok: bool)
    | Activate(id: nat)
    /** After a failed write: mark, and only then hold a cleanup ticket. */
    | AbandonWrite(id: nat)
    | Delete(id: nat)
    | ReadCleanup(id: nat)
    | ReadStale(id: nat)
    | MarkStale(id: nat)
    | DeleteMaterial(id: nat)
    | DropRow(id: nat)

  function InWorkspace(s: State, w: nat): set<nat> {
    set id | id in s.rows && id in s.locators && s.locators[id].workspace == w
  }

  predicate FreshPath(s: State, path: string) {
    forall id :: id in s.locators ==> s.locators[id].path != path
  }

  /** UPDATE ... SET lifecycle_state = next WHERE lifecycle_state = from: the new rows. */
  function Moved(rows: map<nat, Lifecycle>, id: nat, from: Lifecycle, next: Lifecycle): map<nat, Lifecycle> {
    if id in rows && rows[id] == from then rows[id := next] else rows
  }

  predicate Has(rows: map<nat, Lifecycle>, id: nat, l: Lifecycle) {
    id in rows && rows[id] == l
  }

  /** A write lands only while its row is inside the grace period. */
  predicate MayLand(s: State, id: nat) {
    && id in s.creators && s.creators[id].Writing?
    && id in s.locators && s.now <= s.locators[id].created + PENDING_GRACE
  }

  function Landed(s: State, id: nat): State
    requires id in s.locators
  {
    s.(vault := s.vault + {s.locators[id].path}, creators := s.creators[id := Writing(true)])
  }

  function Step(s: State, e: Event): State {
    match e
    case Tick(d) => s.(now := s.now + d)
    case Create(id, workspace, path) =>
      if id in s.locators || !FreshPath(s, path) || |InWorkspace(s, workspace)| >= MAX_SECRETS then s
      else s.(locators := s.locators[id := Locator(workspace, path, s.now)],
              rows := s.rows[id := PendingWrite], creators := s.creators[id := Ready])
    case StartWrite(id) =>
      if id in s.creators && s.creators[id].Ready? then s.(creators := s.creators[id := Writing(false)]) else s
    case Land(id) => if MayLand(s, id) then Landed(s, id) else s
    case WriteReturns(id, ok) =>
      if id in s.creators && s.creators[id].Writing? && (ok ==> s.creators[id].landed)
      then s.(creators := s.creators[id := if ok then WriteSucceeded else WriteFailed]) else s
    case Activate(id) =>
      if id in s.creators && s.creators[id].WriteSucceeded?
      then s.(rows := Moved(s.rows, id, PendingWrite, Active), creators := s.creators[id := Finished]) else s
    case AbandonWrite(id) =>
      if id in s.creators && s.creators[id].WriteFailed?
      then s.(rows := Moved(s.rows, id, PendingWrite, CleanupPending), creators := s.creators[id := Finished],
              tickets := if Has(s.rows, id, PendingWrite) then s.tickets + {id} else s.tickets) else s
    case Delete(id) =>
      if Has(s.rows, id, Active)
      then s.(rows := s.rows[id := CleanupPending], tickets := s.tickets + {id}) else s
    case ReadCleanup(id) => if Has(s.rows, id, CleanupPending) then s.(tickets := s.tickets + {id}) else s
    case ReadStale(id) =>
      if Has(s.rows, id, PendingWrite) && id in s.locators && s.locators[id].created < s.now - PENDING_GRACE
      then s.(stale := s.stale + {id}) else s
    case MarkStale(id) =>
      if id in s.stale && Has(s.rows, id, PendingWrite)
      then s.(rows := s.rows[id := CleanupPending], tickets := s.tickets + {id}) else s
    case DeleteMaterial(id) =>
      if id in s.tickets && id in s.locators
      then s.(vault := s.vault - {s.locators[id].path}, wiped := s.wiped + {id}) else s
    case DropRow(id) =>
      if id in s.wiped && id in s.rows && s.rows[id] != Active then s.(rows := s.rows - {id}) else s
  }

  function Exec(es: seq<Event>): State {
    if es == [] then Empty else Step(Exec(es[..|es| - 1]), es[|es| - 1])
  }

  // ----- invariant -------------------------------------------------------------------------------

  /** No write of this secret can land any more. */
  predicate Settled(s: State, id: nat)
    requires id in s.locators && id in s.creators
  {
    !(s.creators[id].Ready? || s.creators[id].Writing?) || s.now > s.locators[id].created + PENDING_GRACE
  }

  predicate HasLanded(c: Creator) {
    c.WriteSucceeded? || (c.Writing? && c.landed)
  }

  /** Cleanup has been decided: the row is cleanup_pending or gone. */
  predicate Retired(s: State, id: nat) {
    id !in s.rows || s.rows[id] == CleanupPending
  }

  /** What is known of one secret. */
  predicate SecretOk(s: State, id: nat)
    requires id in s.locators && id in s.creators
  {
    var path := s.locators[id].path;
    && (id in s.tickets ==> Retired(s, id))
    && (id in s.wiped ==> id in s.tickets && path !in s.vault)
    && (id in s.stale ==> s.now > s.locators[id].created + PENDING_GRACE)
    && (Retired(s, id) || s.rows[id] == Active ==> Settled(s, id))
    && (Has(s.rows, id, Active) ==> path in s.vault)
    && (Has(s.rows, id, PendingWrite) && HasLanded(s.creators[id]) ==> path in s.vault)
    && (id !in s.rows ==> path !in s.vault)
  }

  predicate DistinctPaths(locators: map<nat, Locator>) {
    forall i, j :: i in locators && j in locators && locators[i].path == locators[j].path ==> i == j
  }

  function Paths(locators: map<nat, Locator>): set<string> {
    set id | id in locators :: locators[id].path
  }

  predicate Tracked(s: State) {
    && s.creators.Keys == s.locators.Keys && s.rows.Keys <= s.locators.Keys
    && s.stale <= s.locators.Keys && s.tickets <= s.locators.Keys && s.wiped <= s.locators.Keys
  }

  predicate Dated(s: State) {
    forall id :: id in s.locators ==> s.locators[id].created <= s.now
  }

  predicate Shape(s: State) {
    Tracked(s) && Dated(s) && DistinctPaths(s.locators) && s.vault <= Paths(s.locators)
  }

  predicate Consistent(s: State) {
    Shape(s) && forall id :: id in s.locators ==> SecretOk(s, id)
  }

  lemma StepKeepsTracked(s: State, e: Event)
    requires Tracked(s)
    ensures Tracked(Step(s, e))
  {
  }

  lemma StepKeepsVaultKnown(s: State, e: Event)
    requires s.vault <= Paths(s.locators)
    ensures Step(s, e).vault <= Paths(Step(s, e).locators)
  {
    var t := Step(s, e);
    forall p | p in t.vault ensures p in Paths(t.locators) {
      if p in s.vault {
        var id :| id in s.locators && s.locators[id].path == p;
        assert id in t.locators && t.locators[id].path == p;
      }
    }
  }

  lemma StepKeepsLocators(s: State, e: Event)
    requires Dated(s) && DistinctPaths(s.locators)
    ensures Dated(Step(s, e)) && DistinctPaths(Step(s, e).locators)
  {
    if !e.Create? && !e.Tick? { assert Step(s, e).locators == s.locators && Step(s, e).now == s.now; }
  }

  lemma StepKeepsShape(s: State, e: Event)
    requires Shape(s)
    ensures Shape(Step(s, e))
  {
    StepKeepsTracked(s, e);
    StepKeepsLocators(s, e);
    StepKeepsVaultKnown(s, e);
  }

  predicate AboutCreation(e: Event) {
    e.StartWrite? || e.Land? || e.WriteReturns? || e.Activate? || e.AbandonWrite?
  }

  /** Everything SecretOk looks at is the same for `id` in both states. */
  predicate SameSecret(s: State, t: State, id: nat)
    requires id in s.locators && id in t.locators && id in s.creators && id in t.creators
  {
    && t.now == s.now && t.locators[id] == s.locators[id] && t.creators[id] == s.creators[id]
    && (id in t.rows <==> id in s.rows) && (id in s.rows && id in t.rows ==> t.rows[id] == s.rows[id])
    && (id in t.tickets <==> id in s.tickets) && (id in t.wiped <==> id in s.wiped) && (id in t.stale <==> id in s.stale)
    && (t.locators[id].path in t.vault <==> s.locators[id].path in s.vault)
  }

  lemma SameSecretOk(s: State, t: State, id: nat)
    requires id in s.locators && id in t.locators && id in s.creators && id in t.creators
    requires SameSecret(s, t, id) && SecretOk(s, id)
    ensures SecretOk(t, id)
  {
  }

  lemma CreationSparesOthers(s: State, e: Event, id: nat)
    requires AboutCreation(e) && e.id != id && id in s.locators && id in s.creators
    requires e.id in s.locators ==> s.locators[e.id].path != s.locators[id].path
    ensures id in Step(s, e).locators && id in Step(s, e).creators && SameSecret(s, Step(s, e), id)
  {
  }

  lemma CleanupSparesOthers(s: State, e: Event, id: nat)
    requires !AboutCreation(e) && !e.Tick? && e.id != id && id in s.locators && id in s.creators
    requires e.id in s.locators ==> s.locators[e.id].path != s.locators[id].path
    ensures id in Step(s, e).locators && id in Step(s, e).creators && SameSecret(s, Step(s, e), id)
  {
  }

  /** A step about one secret leaves every other secret as it was: paths are never shared. */
  lemma OtherSecretsKept(s: State, e: Event, id: nat)
    requires Shape(s) && id in s.locators && SecretOk(s, id) && !e.Tick? && e.id != id
    ensures id in Step(s, e).locators && id in Step(s, e).creators && SecretOk(Step(s, e), id)
  {
    if AboutCreation(e) { CreationSparesOthers(s, e, id); } else { CleanupSparesOthers(s, e, id); }
    SameSecretOk(s, Step(s, e), id);
  }

  lemma CreationKeepsSecret(s: State, e: Event)
    requires AboutCreation(e) && e.id in s.locators && e.id in s.creators && SecretOk(s, e.id)
    ensures e.id in Step(s, e).locators && e.id in Step(s, e).creators && SecretOk(Step(s, e), e.id)
  {
  }

  lemma CleanupKeepsSecret(s: State, e: Event)
    requires !AboutCreation(e) && !e.Tick? && !e.Create? && e.id in s.locators && e.id in s.creators && SecretOk(s, e.id)
    ensures e.id in Step(s, e).locators && e.id in Step(s, e).creators && SecretOk(Step(s, e), e.id)
  {
  }

  lemma CreateKeepsSecret(s: State, e: Event)
    requires Shape(s) && e.Create? && e.id in Step(s, e).locators && (e.id in s.locators ==> SecretOk(s, e.id))
    ensures e.id in Step(s, e).creators && SecretOk(Step(s, e), e.id)
  {
    if e.id !in s.locators { NoMaterialAtFreshPath(s, e.path); }
  }

  lemma StepKeepsSecret(s: State, e: Event, id: nat)
    requires Shape(s) && (id in s.locators ==> SecretOk(s, id)) && id in Step(s, e).locators
    ensures id in Step(s, e).creators && SecretOk(Step(s, e), id)
  {
    if e.Tick? {
    } else if e.id != id { OtherSecretsKept(s, e, id); }
    else if e.Create? { CreateKeepsSecret(s, e); }
    else if AboutCreation(e) { CreationKeepsSecret(s, e); }
    else { CleanupKeepsSecret(s, e); }
  }

  lemma NoMaterialAtFreshPath(s: State, path: string)
    requires Shape(s) && FreshPath(s, path)
    ensures path !in s.vault
  {
  }

  lemma StepKeepsConsistent(s: State, e: Event)
    requires Consistent(s)
    ensures Consistent(Step(s, e))
  {
    StepKeepsShape(s, e);
    forall id | id in Step(s, e).locators ensures SecretOk(Step(s, e), id) {
      StepKeepsSecret(s, e, id);
    }
  }

  // ----- whole runs -----------------------------------------------------------------------------------

  lemma {:induction false} RunConsistent(es: seq<Event>)
    ensures Consistent(Exec(es))
    decreases |es|
  {
    if es != [] {
      RunConsistent(es[..|es| - 1]);
      StepKeepsConsistent(Exec(es[..|es| - 1]), es[|es| - 1]);
    }
  }

  // ----- how many --------------------------------------------------------------------------------------

  /** Except for a creation, no step adds a row to any workspace. */
  lemma NoNewSecrets(s: State, e: Event, w: nat)
    requires Tracked(s) && !e.Create?
    ensures InWorkspace(Step(s, e), w) <= InWorkspace(s, w)
  {
    assert Step(s, e).locators == s.locators && Step(s, e).rows.Keys <= s.rows.Keys;
  }

  lemma NewSecret(s: State, e: Event, w: nat)
    requires Tracked(s) && e.Create? && Step(s, e) != s
    ensures e.id !in s.rows && e.id in Step(s, e).rows && |InWorkspace(s, e.workspace)| < MAX_SECRETS
    ensures InWorkspace(Step(s, e), w) == if w == e.workspace then InWorkspace(s, w) + {e.id} else InWorkspace(s, w)
  {
    WithSecret(s, Step(s, e), e.id, Locator(e.workspace, e.path, s.now), w);
  }

  lemma WithSecret(s: State, t: State, id: nat, l: Locator, w: nat)
    requires id !in s.locators && id !in s.rows
    requires t.locators == s.locators[id := l] && t.rows == s.rows[id := PendingWrite]
    ensures InWorkspace(t, w) == if w == l.workspace then InWorkspace(s, w) + {id} else InWorkspace(s, w)
  {
  }

  /** In every run, no workspace ever has more than a hundred secrets, those being cleaned up included. */
  lemma {:induction false} SecretsBounded(es: seq<Event>, w: nat)
    ensures |InWorkspace(Exec(es), w)| <= MAX_SECRETS
    decreases |es|
  {
    if es == [] {
      assert InWorkspace(Empty, w) == {};
    } else {
      var s, e := Exec(es[..|es| - 1]), es[|es| - 1];
      SecretsBounded(es[..|es| - 1], w);
      RunConsistent(es[..|es| - 1]);
      if !e.Create? {
        NoNewSecrets(s, e, w);
        Smaller(InWorkspace(Step(s, e), w), InWorkspace(s, w));
      } else if Step(s, e) != s {
        NewSecret(s, e, w);
      }
    }
  }

  lemma {:induction false} Smaller(a: set<nat>, b: set<nat>)
    requires a <= b
    ensures |a| <= |b|
  {
    assert |b| == |a| + |b - a| by { assert b == a + (b - a); }
  }

  /** A new identifier with a new path is refused exactly when its workspace is full. */
  lemma CreateRefusedExactly(s: State, id: nat, w: nat, path: string)
    requires id !in s.locators && FreshPath(s, path)
    ensures id !in Step(s, Create(id, w, path)).locators <==> |InWorkspace(s, w)| >= 100
    ensures id in Step(s, Create(id, w, path)).locators ==>
      Has(Step(s, Create(id, w, path)).rows, id, PendingWrite) && Step(s, Create(id, w, path)).vault == s.vault
  {
  }

  /** A reconciler gives up on a pending row exactly when it was created more than five minutes ago. */
  lemma StaleExactly(s: State, id: nat)
    requires id in s.locators && Has(s.rows, id, PendingWrite) && id !in s.stale
    ensures Has(Step(Step(s, ReadStale(id)), MarkStale(id)).rows, id, CleanupPending) <==> s.now - s.locators[id].created > 300
  {
  }

  /** All material in Vault is at the path of some row. */
  predicate NoOrphans(s: State) {
    s.vault <= set id | id in s.rows && id in s.locators :: s.locators[id].path
  }

  /** In every run: material always has a row that points at it, and an active row always has its material. */
  lemma NoOrphansNoDangling(es: seq<Event>)
    ensures NoOrphans(Exec(es))
    ensures forall id :: Has(Exec(es).rows, id, Active) ==> id in Exec(es).locators && Exec(es).locators[id].path in Exec(es).vault
  {
    var s := Exec(es);
    RunConsistent(es);
    forall id | id in s.locators && id !in s.rows ensures s.locators[id].path !in s.vault {
      assert SecretOk(s, id);
    }
    forall id | Has(s.rows, id, Active) ensures id in s.locators && s.locators[id].path in s.vault {
      assert SecretOk(s, id);
    }
  }

  /** Vault deletion only ever removes material whose row is cleanup_pending or gone, and nobody else's. */
  lemma DeletionTouchesOnlyRetired(es: seq<Event>, e: Event, p: string)
    requires p in Exec(es).vault && p !in Step(Exec(es), e).vault
    ensures e.DeleteMaterial? && e.id in Exec(es).locators && Exec(es).locators[e.id].path == p && Retired(Exec(es), e.id)
    ensures forall id :: id in Exec(es).locators && id != e.id ==> Exec(es).locators[id].path != p
  {
    RunConsistent(es);
    assert SecretOk(Exec(es), e.id);
  }

  lemma StepKeepsRetired(s: State, e: Event, id: nat)
    requires id in s.locators && Retired(s, id)
    ensures id in Step(s, e).locators && Retired(Step(s, e), id)
    ensures id !in s.rows ==> id !in Step(s, e).rows
  {
  }

  /** Once cleanup_pending, never active again; once gone, gone. */
  lemma {:induction false} RetiredForever(es: seq<Event>, n: nat, id: nat)
    requires n <= |es| && id in Exec(es[..n]).locators && Retired(Exec(es[..n]), id)
    ensures id in Exec(es).locators && Retired(Exec(es), id)
    ensures id !in Exec(es[..n]).rows ==> id !in Exec(es).rows
    decreases |es| - n
  {
    if n == |es| {
      assert es[..n] == es;
    } else {
      assert es[..n + 1][..n] == es[..n] && es[..n + 1][n] == es[n];
      StepKeepsRetired(Exec(es[..n]), es[n], id);
      RetiredForever(es, n + 1, id);
    }
  }

  // ----- reconciliation always gets there --------------------------------------------------------------------

  /** What a reconciler does about one row it has not yet given up on. */
  function Reconcile(id: nat): seq<Event> {
    [Tick(PENDING_GRACE + 1), ReadStale(id), MarkStale(id), ReadCleanup(id), DeleteMaterial(id), DropRow(id)]
  }

  function ExecFrom(s: State, es: seq<Event>): State
    decreases |es|
  {
    if |es| == 0 then s else ExecFrom(Step(s, es[0]), es[1..])
  }

  /**
   From every reachable state, once the grace has passed, one fault-free pass
   over a row that is not active removes the row and its material and leaves
   every other row and path as it was.
   */
  lemma CleanupAlwaysPossible(es: seq<Event>, id: nat)
    requires id in Exec(es).rows && Exec(es).rows[id] != Active
    ensures
      var s, t := Exec(es), ExecFrom(Exec(es), Reconcile(id));
      && id in s.locators && t.rows == s.rows - {id} && t.vault == s.vault - {s.locators[id].path}
  {
    RunConsistent(es);
    InactiveRowCleaned(Exec(es), id);
    SixSteps(Exec(es), id);
  }

  lemma InactiveRowCleaned(s: State, id: nat)
    requires id in s.rows && s.rows[id] != Active && id in s.locators && s.locators[id].created <= s.now
    ensures
      var s1 := Step(s, Tick(PENDING_GRACE + 1));
      var t := Step(Step(Step(Step(Step(s1, ReadStale(id)), MarkStale(id)), ReadCleanup(id)), DeleteMaterial(id)), DropRow(id));
      t.rows == s.rows - {id} && t.vault == s.vault - {s.locators[id].path}
  {
    var s1 := Step(s, Tick(PENDING_GRACE + 1));
    if s.rows[id] == PendingWrite { StaleRowRetired(s1, id); }
    var s3 := Step(Step(s1, ReadStale(id)), MarkStale(id));
    assert Has(s3.rows, id, CleanupPending) && s3.rows - {id} == s.rows - {id} && s3.vault == s.vault && s3.locators == s.locators;
    RetiredRowCleaned(s3, id);
  }

  lemma RetiredRowCleaned(s: State, id: nat)
    requires Has(s.rows, id, CleanupPending) && id in s.locators
    ensures
      var t := Step(Step(Step(s, ReadCleanup(id)), DeleteMaterial(id)), DropRow(id));
      t.rows == s.rows - {id} && t.vault == s.vault - {s.locators[id].path}
  {
  }

  /** A pending row older than the grace is read and marked. */
  lemma StaleRowRetired(s: State, id: nat)
    requires Has(s.rows, id, PendingWrite) && id in s.locators && s.locators[id].created < s.now - PENDING_GRACE
    ensures Step(Step(s, ReadStale(id)), MarkStale(id))
         == s.(rows := s.rows[id := CleanupPending], stale := s.stale + {id}, tickets := s.tickets + {id})
  {
  }

  lemma SixSteps(s: State, id: nat)
    ensures ExecFrom(s, Reconcile(id))
         == Step(Step(Step(Step(Step(Step(s, Tick(PENDING_GRACE + 1)), ReadStale(id)), MarkStale(id)), ReadCleanup(id)), DeleteMaterial(id)), DropRow(id))
  {
    OneStep(s, Tick(PENDING_GRACE + 1), [ReadStale(id), MarkStale(id), ReadCleanup(id), DeleteMaterial(id), DropRow(id)]);
    var s1 := Step(s, Tick(PENDING_GRACE + 1));
    OneStep(s1, ReadStale(id), [MarkStale(id), ReadCleanup(id), DeleteMaterial(id), DropRow(id)]);
    var s2 := Step(s1, ReadStale(id));
    OneStep(s2, MarkStale(id), [ReadCleanup(id), DeleteMaterial(id), DropRow(id)]);
    var s3 := Step(s2, MarkStale(id));
    OneStep(s3, ReadCleanup(id), [DeleteMaterial(id), DropRow(id)]);
    var s4 := Step(s3, ReadCleanup(id));
    OneStep(s4, DeleteMaterial(id), [DropRow(id)]);
    OneStep(Step(s4, DeleteMaterial(id)), DropRow(id), []);
  }

  lemma OneStep(s: State, e: Event, es: seq<Event>)
    ensures ([e] + es)[1..] == es
    ensures ExecFrom(s, [e] + es) == ExecFrom(Step(s, e), es)
  {
    assert ([e] + es)[1..] == es;
  }

  // ----- an active row stays -----------------------------------------------------------------------------------

  lemma StepKeepsActive(s: State, e: Event, id: nat)
    requires id in s.locators && Has(s.rows, id, Active) && e != Delete(id)
    ensures Has(Step(s, e).rows, id, Active)
  {
    if AboutCreation(e) {
      assert Has(Step(s, e).rows, id, Active);
    }
  }

  /** Only its deletion ends an active row: no reconciler, however late, takes it or its material away. */
  lemma {:induction false} ActiveUntilDeleted(es: seq<Event>, n: nat, id: nat)
    requires n <= |es| && Has(Exec(es[..n]).rows, id, Active) && Delete(id) !in es[n..]
    ensures Has(Exec(es).rows, id, Active) && id in Exec(es).locators && Exec(es).locators[id].path in Exec(es).vault
    decreases |es| - n
  {
    if n == |es| {
      assert es[..n] == es;
      NoOrphansNoDangling(es);
    } else {
      assert es[..n + 1][..n] == es[..n] && es[..n + 1][n] == es[n];
      assert es[n] == es[n..][0] && es[n + 1..] == es[n..][1..];
      assert id in Exec(es[..n]).locators by { RunConsistent(es[..n]); }
      StepKeepsActive(Exec(es[..n]), es[n], id);
      ActiveUntilDeleted(es, n + 1, id);
    }
  }

  /** A create whose activation took effect; its caller may have been told that it failed. */
  function Activation(id: nat, workspace: nat, path: string): seq<Event> {
    [Create(id, workspace, path), StartWrite(id), Land(id), WriteReturns(id, true), Activate(id)]
  }

  /** Whatever reconcilers do afterwards and however much time passes, such a row stays active with its material. */
  lemma ActivatedRowIsNeverStale(id: nat, workspace: nat, path: string, es: seq<Event>)
    requires Delete(id) !in es
    ensures Has(Exec(Activation(id, workspace, path) + es).rows, id, Active)
    ensures path in Exec(Activation(id, workspace, path) + es).vault
  {
    var a := Activation(id, workspace, path);
    ActivationRuns(id, workspace, path);
    assert (a + es)[..5] == a && (a + es)[5..] == es;
    ActiveUntilDeleted(a + es, 5, id);
    LocatorKept(a + es, 5, id);
  }

  lemma Reaches(es: seq<Event>, e: Event, t: State)
    requires Step(Exec(es), e) == t
    ensures Exec(es + [e]) == t
  {
    assert (es + [e])[..|es|] == es;
  }

  /** One secret, created at time 0, and nothing else. */
  function One(id: nat, locator: Locator, now: int, l: Lifecycle, vault: set<string>, c: Creator): State {
    State(now, map[id := locator], map[id := l], vault, map[id := c], {}, {}, {})
  }

  lemma StartedRuns(id: nat, workspace: nat, path: string)
    ensures Exec([Create(id, workspace, path), StartWrite(id)])
         == One(id, Locator(workspace, path, 0), 0, PendingWrite, {}, Writing(false))
  {
    var locator := Locator(workspace, path, 0);
    assert InWorkspace(Empty, workspace) == {};
    Reaches([], Create(id, workspace, path), One(id, locator, 0, PendingWrite, {}, Ready));
    assert [] + [Create(id, workspace, path)] == [Create(id, workspace, path)];
    Reaches([Create(id, workspace, path)], StartWrite(id), One(id, locator, 0, PendingWrite, {}, Writing(false)));
    assert [Create(id, workspace, path)] + [StartWrite(id)] == [Create(id, workspace, path), StartWrite(id)];
  }

  lemma WriteActivated(es: seq<Event>, id: nat, locator: Locator)
    requires Exec(es) == One(id, locator, 0, PendingWrite, {}, Writing(false)) && locator.created == 0
    ensures Exec(es + [Land(id)] + [WriteReturns(id, true)] + [Activate(id)]) == One(id, locator, 0, Active, {locator.path}, Finished)
  {
    Reaches(es, Land(id), One(id, locator, 0, PendingWrite, {locator.path}, Writing(true)));
    Reaches(es + [Land(id)], WriteReturns(id, true), One(id, locator, 0, PendingWrite, {locator.path}, WriteSucceeded));
    Reaches(es + [Land(id)] + [WriteReturns(id, true)], Activate(id), One(id, locator, 0, Active, {locator.path}, Finished));
  }

  lemma ActivationRuns(id: nat, workspace: nat, path: string)
    ensures Exec(Activation(id, workspace, path)) == One(id, Locator(workspace, path, 0), 0, Active, {path}, Finished)
  {
    var es := [Create(id, workspace, path), StartWrite(id)];
    StartedRuns(id, workspace, path);
    WriteActivated(es, id, Locator(workspace, path, 0));
    assert es + [Land(id)] + [WriteReturns(id, true)] + [Activate(id)] == Activation(id, workspace, path);
  }

  lemma {:induction false} LocatorKept(es: seq<Event>, n: nat, id: nat)
    requires n <= |es| && id in Exec(es[..n]).locators
    ensures id in Exec(es).locators && Exec(es).locators[id] == Exec(es[..n]).locators[id]
    decreases |es| - n
  {
    if n == |es| {
      assert es[..n] == es;
    } else {
      assert es[..n + 1][..n] == es[..n] && es[..n + 1][n] == es[n];
      LocatorKept(es, n + 1, id);
    }
  }

  // ----- the assumption is needed ----------------------------------------------------------------------------

  /** A write that lands late leaves material without a row exactly when the row is already gone. */
  lemma LateWriteOrphansExactly(es: seq<Event>, id: nat)
    requires id in Exec(es).locators
    ensures NoOrphans(Landed(Exec(es), id)) <==> id in Exec(es).rows
  {
    var s := Exec(es);
    RunConsistent(es);
    NoOrphansNoDangling(es);
    if id !in s.rows {
      assert s.locators[id].path in Landed(s, id).vault;
    }
  }

  /** A creator that is still writing when a reconciler gives up on its row. */
  function SlowWrite(id: nat, workspace: nat, path: string): seq<Event> {
    [Create(id, workspace, path), StartWrite(id), Tick(PENDING_GRACE + 1), ReadStale(id), MarkStale(id), DeleteMaterial(id), DropRow(id)]
  }

  lemma RetiredOneCleaned(es: seq<Event>, id: nat, s: State)
    requires Exec(es) == s && id in s.stale && id in s.locators && s.rows == map[id := PendingWrite]
    ensures Exec(es + [MarkStale(id)] + [DeleteMaterial(id)] + [DropRow(id)])
         == s.(rows := map[], vault := s.vault - {s.locators[id].path}, tickets := s.tickets + {id}, wiped := s.wiped + {id})
  {
    var t := s.(rows := map[id := CleanupPending], tickets := s.tickets + {id});
    Reaches(es, MarkStale(id), t);
    var u := t.(vault := t.vault - {t.locators[id].path}, wiped := t.wiped + {id});
    Reaches(es + [MarkStale(id)], DeleteMaterial(id), u);
    assert u.rows - {id} == map[];
    Reaches(es + [MarkStale(id)] + [DeleteMaterial(id)], DropRow(id), u.(rows := map[]));
  }

  lemma SlowStart(id: nat, workspace: nat, path: string)
    ensures Exec([Create(id, workspace, path), StartWrite(id)] + [Tick(PENDING_GRACE + 1)] + [ReadStale(id)])
         == One(id, Locator(workspace, path, 0), PENDING_GRACE + 1, PendingWrite, {}, Writing(false)).(stale := {id})
  {
    var es := [Create(id, workspace, path), StartWrite(id)];
    var s := One(id, Locator(workspace, path, 0), PENDING_GRACE + 1, PendingWrite, {}, Writing(false));
    StartedRuns(id, workspace, path);
    Reaches(es, Tick(PENDING_GRACE + 1), s);
    Reaches(es + [Tick(PENDING_GRACE + 1)], ReadStale(id), s.(stale := {id}));
  }

  lemma SlowWriteRuns(id: nat, workspace: nat, path: string)
    ensures Exec(SlowWrite(id, workspace, path))
         == State(PENDING_GRACE + 1, map[id := Locator(workspace, path, 0)], map[], {}, map[id := Writing(false)], {id}, {id}, {id})
  {
    var es := [Create(id, workspace, path), StartWrite(id)] + [Tick(PENDING_GRACE + 1)] + [ReadStale(id)];
    SlowStart(id, workspace, path);
    RetiredOneCleaned(es, id, One(id, Locator(workspace, path, 0), PENDING_GRACE + 1, PendingWrite, {}, Writing(false)).(stale := {id}));
    assert es + [MarkStale(id)] + [DeleteMaterial(id)] + [DropRow(id)] == SlowWrite(id, workspace, path);
  }

  /** Its write, were it to land now, would leave material that no row points at. */
  lemma SlowWriteOrphans(id: nat, workspace: nat, path: string)
    ensures
      var s := Exec(SlowWrite(id, workspace, path));
      id in s.creators && s.creators[id].Writing? && id in s.locators && !NoOrphans(Landed(s, id))
  {
    SlowWriteRuns(id, workspace, path);
    LateWriteOrphansExactly(SlowWrite(id, workspace, path), id);
  }
}
