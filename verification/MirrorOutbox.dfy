/**
 The annotation mirror outbox: at most one row per item image, holding the
 newest published revision that still has to be PUT to the presentation server.
 */
module MirrorOutbox {
  import opened Nullable
  import opened Powers
  import opened Counting
  import H = LeaseHorizon

  datatype Status = Pending | Processing | Failed

  datatype Row = Row(
    revision: nat,
    payload: string,
    status: Status,
    attemptCount: nat,
    nextAttemptAt: int,
    leaseUntil: Option<int>,
    lockedBy: Option<nat>,
    lastError: Option<string>)

  /** Column default of max_attempts; no statement changes it. */
  const MAX_ATTEMPTS := 20

  // ----- statements on one row ----------------------------------------------

  function InsertedRow(revision: nat, payload: string, now: int): Row {
    Row(revision, payload, Pending, 0, now, None, None, None)
  }

  /** The replacement revision, with every column taken from the old row at once. */
  function SupersededRow(r: Row, revision: nat, payload: string, now: int): Row {
    Row(revision, payload, Pending, 0, H.Max(now, r.leaseUntil.GetOr(now)), None, None, None)
  }

  function UpsertRow(r: Option<Row>, revision: nat, payload: string, now: int): Row {
    match r
    case None => InsertedRow(revision, payload, now)
    case Some(row) => if revision > row.revision then SupersededRow(row, revision, payload, now) else row
  }

  predicate Claimable(r: Row, now: int) {
    || (r.status == Pending && r.nextAttemptAt <= now)
    || (r.status == Processing && r.leaseUntil.Some? && r.leaseUntil.value < now && r.attemptCount < MAX_ATTEMPTS)
  }

  predicate Exhausted(r: Row, now: int) {
    r.status == Processing && r.leaseUntil.Some? && r.leaseUntil.value < now && r.attemptCount >= MAX_ATTEMPTS
  }

  predicate HeldBy(r: Row, revision: nat, token: nat) {
    r.revision == revision && r.status == Processing && r.lockedBy == Some(token)
  }

  function ClaimedRow(r: Row, token: nat, leaseUntil: int): Row {
    r.(status := Processing, attemptCount := r.attemptCount + 1, leaseUntil := Some(leaseUntil), lockedBy := Some(token))
  }

  function RetriedRow(r: Row, next: int, error: string): Row {
    r.(status := if r.attemptCount >= MAX_ATTEMPTS then Failed else Pending,
       nextAttemptAt := next, leaseUntil := None, lockedBy := None, lastError := Some(error))
  }

  function FailedRow(r: Row): Row {
    r.(status := Failed, leaseUntil := None, lockedBy := None,
       lastError := Some(r.lastError.GetOr("delivery lease expired after maximum attempts")))
  }

  function SweptRow(r: Row, now: int): Row {
    if Exhausted(r, now) then FailedRow(r) else r
  }

  // ----- the order of assignments ---------------------------------------------

  /**
   ON DUPLICATE KEY UPDATE assigns column by column, and each IF reads the row as
   the assignments before it left it.  With the revision last, and the lease read
   before it is cleared, the result is the simultaneous update.
   */
  method AssignColumns(row: Row, revision: nat, payload: string, now: int) returns (r: Row)
    ensures r == UpsertRow(Some(row), revision, payload, now)
  {
    r := row;
    r := r.(payload := if revision > r.revision then payload else r.payload);
    r := r.(status := if revision > r.revision then Pending else r.status);
    r := r.(attemptCount := if revision > r.revision then 0 else r.attemptCount);
    r := r.(nextAttemptAt := if revision > r.revision then H.Max(now, r.leaseUntil.GetOr(now)) else r.nextAttemptAt);
    r := r.(leaseUntil := if revision > r.revision then None else r.leaseUntil);
    r := r.(lockedBy := if revision > r.revision then None else r.lockedBy);
    r := r.(lastError := if revision > r.revision then None else r.lastError);
    r := r.(revision := if revision > r.revision then revision else r.revision);
  }

  /** The same assignments with the revision moved to the front. */
  function RevisionFirst(r: Row, revision: nat, payload: string, now: int): Row {
    var r0 := r.(revision := if revision > r.revision then revision else r.revision);
    if revision > r0.revision then SupersededRow(r0, revision, payload, now) else r0
  }

  /** The same assignments with the lease cleared before next_attempt_at reads it. */
  function LeaseFirst(r: Row, revision: nat, payload: string, now: int): Row {
    UpsertRow(Some(if revision > r.revision then r.(leaseUntil := None) else r), revision, payload, now)
  }

  /**
   The order in the statement matters.  Revision first would pair the new
   revision with the old payload; lease first would forget the horizon, and
   does so exactly when a lease lies ahead.
   */
  lemma AssignmentOrderMatters(r: Row, revision: nat, payload: string, now: int)
    requires revision > r.revision
    ensures RevisionFirst(r, revision, payload, now) == r.(revision := revision)
    ensures LeaseFirst(r, revision, payload, now) == UpsertRow(Some(r), revision, payload, now)
       <==> r.leaseUntil.GetOr(now) <= now
  {
  }

  // ----- runs on one image ----------------------------------------------------

  /**
   One image's row with its history: every revision offered, the ones that
   became the row's, the ones claimed, and the ones a holder completed.
   */
  datatype State = State(
    now: int,
    row: Option<Row>,
    inFlight: map<nat, int>,
    nextToken: nat,
    offered: seq<(nat, string)>,
    adopted: seq<nat>,
    claimed: seq<nat>,
    delivered: set<nat>)

  const Start := State(0, None, map[], 0, [], [], [], {})

  datatype Event =
    | Tick(to: int)
    | Upsert(revision: nat, payload: string)
    | Sweep
    | Claim(token: nat, leaseUntil: int)
    | Answer(token: nat)
    | Retry(revision: nat, token: nat, next: int, error: string)
    | Complete(revision: nat, token: nat)

  predicate Adopts(s: State, revision: nat) {
    s.row.None? || revision > s.row.value.revision
  }

  predicate Holds(s: State, revision: nat, token: nat) {
    s.row.Some? && HeldBy(s.row.value, revision, token)
  }

  /** A worker completes only after success, which is an answer. */
  predicate Completes(s: State, revision: nat, token: nat) {
    token !in s.inFlight && Holds(s, revision, token)
  }

  /** Lease tokens are never used twice. */
  predicate Claims(s: State, token: nat) {
    s.row.Some? && Claimable(s.row.value, s.now) && token >= s.nextToken
  }

  function Step(s: State, e: Event): State {
    match e
    case Tick(to) => s.(now := H.Max(s.now, to))
    case Upsert(revision, payload) =>
      s.(row := Some(UpsertRow(s.row, revision, payload, s.now)),
         offered := s.offered + [(revision, payload)],
         adopted := if Adopts(s, revision) then s.adopted + [revision] else s.adopted)
    case Sweep => if s.row.Some? then s.(row := Some(SweptRow(s.row.value, s.now))) else s
    case Claim(token, leaseUntil) =>
      if Claims(s, token) then
        s.(row := Some(ClaimedRow(s.row.value, token, leaseUntil)),
           inFlight := s.inFlight[token := leaseUntil], nextToken := token + 1,
           claimed := s.claimed + [s.row.value.revision])
      else s
    case Answer(token) => s.(inFlight := s.inFlight - {token})
    case Retry(revision, token, next, error) =>
      if Holds(s, revision, token) then s.(row := Some(RetriedRow(s.row.value, next, error))) else s
    case Complete(revision, token) =>
      if Completes(s, revision, token) then s.(row := None, delivered := s.delivered + {revision}) else s
  }

  function Exec(es: seq<Event>): State {
    if es == [] then Start else Step(Exec(es[..|es| - 1]), es[|es| - 1])
  }

  /** Lease columns are set exactly while the row is processing. */
  predicate WellFormed(s: State) {
    s.row.Some? ==>
      && (s.row.value.status == Processing <==> s.row.value.leaseUntil.Some?)
      && (s.row.value.status == Processing <==> s.row.value.lockedBy.Some?)
  }

  // ----- the mirror is a lease machine -----------------------------------------

  function AbstractRow(r: Row): H.Row {
    var phase :=
      match r.status
      case Pending => H.Waiting(r.nextAttemptAt)
      case Processing => H.Busy(r.lockedBy.GetOr(0), r.leaseUntil.GetOr(0))
      case Failed => H.Parked;
    H.Row(phase, r.attemptCount, MAX_ATTEMPTS, false)
  }

  function Abstract(s: State): H.State {
    H.State(s.now, if s.row.Some? then Some(AbstractRow(s.row.value)) else None, s.inFlight, s.nextToken)
  }

  function AbstractEvent(s: State, e: Event): H.Event {
    match e
    case Tick(to) => H.Tick(to)
    case Upsert(revision, _) => if Adopts(s, revision) then H.Enqueue(s.now, MAX_ATTEMPTS, false) else H.Idle
    case Sweep => H.FailExhausted
    case Claim(token, leaseUntil) => H.Claim(token, leaseUntil)
    case Answer(token) => H.Answer(token)
    case Retry(revision, token, next, _) => if Holds(s, revision, token) then H.Retry(token, next) else H.Idle
    case Complete(revision, token) => if Completes(s, revision, token) then H.Complete(token) else H.Idle
  }

  lemma StepRefines(s: State, e: Event)
    requires WellFormed(s)
    ensures WellFormed(Step(s, e))
    ensures Abstract(Step(s, e)) == H.Step(Abstract(s), AbstractEvent(s, e))
  {
  }

  /** The lease machine's run that a run of the outbox performs. */
  function Abstracted(es: seq<Event>): (hs: seq<H.Event>)
    ensures |hs| == |es|
  {
    if es == [] then []
    else Abstracted(es[..|es| - 1]) + [AbstractEvent(Exec(es[..|es| - 1]), es[|es| - 1])]
  }

  lemma {:induction false} RunRefines(es: seq<Event>)
    ensures WellFormed(Exec(es)) && Abstract(Exec(es)) == H.Exec(Abstracted(es))
    decreases |es|
  {
    if es != [] {
      RunRefines(es[..|es| - 1]);
      StepRefines(Exec(es[..|es| - 1]), es[|es| - 1]);
      assert Abstracted(es)[..|es| - 1] == Abstracted(es[..|es| - 1]);
    }
  }

  lemma {:induction false} AbstractedAt(es: seq<Event>, j: nat)
    requires j <= |es|
    ensures Abstracted(es)[..j] == Abstracted(es[..j])
    ensures j < |es| ==> Abstracted(es)[j] == AbstractEvent(Exec(es[..j]), es[j])
    decreases |es|
  {
    if j == |es| {
      assert es[..j] == es && Abstracted(es)[..j] == Abstracted(es);
    } else {
      var front := es[..|es| - 1];
      AbstractedAt(front, j);
      assert front[..j] == es[..j] && Abstracted(es)[..j] == Abstracted(front)[..j];
      if j == |es| - 1 { assert front == es[..j]; }
    }
  }

  predicate ClaimsAt(es: seq<Event>, c: nat) {
    c < |es| && es[c].Claim? && Claims(Exec(es[..c]), es[c].token)
  }

  predicate SupersedesAt(es: seq<Event>, i: nat) {
    i < |es| && es[i].Upsert? && Adopts(Exec(es[..i]), es[i].revision)
  }

  predicate RetriesAt(es: seq<Event>, j: nat) {
    j < |es| && es[j].Retry? && Holds(Exec(es[..j]), es[j].revision, es[j].token)
  }

  /** When the row falls due by event `e`; a row given back without attempts left waits for nothing. */
  function DueBy(s: State, e: Event): int {
    if e.Retry? && !(s.row.Some? && s.row.value.attemptCount >= MAX_ATTEMPTS) then H.Max(e.next, s.now) else s.now
  }

  /** By event `j` the PUT claimed at `c` is answered, or its lease ends before the row falls due. */
  predicate HorizonPassed(es: seq<Event>, c: nat, j: nat)
    requires ClaimsAt(es, c) && j < |es|
  {
    es[c].token !in Exec(es[..j]).inFlight || es[c].leaseUntil <= DueBy(Exec(es[..j]), es[j])
  }

  /**
   After a PUT was claimed and its lease dropped from the row, by a newer revision or
   by its worker, a newer revision arrives only once the PUT is answered or its lease
   is over.
   */
  predicate SupersededAtMostOnce(es: seq<Event>) {
    forall c, i, j ::
      0 <= c < i < j < |es| && ClaimsAt(es, c) && (SupersedesAt(es, i) || RetriesAt(es, i)) && SupersedesAt(es, j) ==>
        HorizonPassed(es, c, j)
  }

  /** A worker gives its row back only with its answer, or to a time after its lease. */
  predicate RetriedInTime(es: seq<Event>) {
    forall c, j :: 0 <= c < j < |es| && ClaimsAt(es, c) && RetriesAt(es, j) && es[j].token == es[c].token ==> HorizonPassed(es, c, j)
  }

  /** Event `j` of the lease machine's run, in terms of the outbox. */
  lemma EventRefines(es: seq<Event>, j: nat)
    requires j < |es|
    ensures var hs := Abstracted(es); H.Exec(hs[..j]) == Abstract(Exec(es[..j])) && hs[j] == AbstractEvent(Exec(es[..j]), es[j])
    ensures var h := Abstracted(es)[j];
      && (H.ClaimsAt(Abstracted(es), j) ==> ClaimsAt(es, j) && es[j].token == h.token && es[j].leaseUntil == h.leaseUntil)
      && (h.Enqueue? ==> SupersedesAt(es, j)) && !h.Remove?
      && (h.Retry? ==> RetriesAt(es, j) && h.token == es[j].token)
      && (h.Enqueue? || h.Retry? ==> H.DueBy(Abstract(Exec(es[..j])), h) == DueBy(Exec(es[..j]), es[j]))
  {
    AbstractedAt(es, j);
    RunRefines(es[..j]);
    SameEvent(Exec(es[..j]), es[j]);
  }

  lemma SameEvent(s: State, e: Event)
    requires WellFormed(s)
    ensures var h := AbstractEvent(s, e);
      && (h.Claim? && H.Claims(Abstract(s), h.token) ==> e.Claim? && Claims(s, e.token) && e.token == h.token && e.leaseUntil == h.leaseUntil)
      && (h.Enqueue? ==> e.Upsert? && Adopts(s, e.revision)) && !h.Remove?
      && (h.Retry? ==> e.Retry? && Holds(s, e.revision, e.token) && h.token == e.token)
      && (h.Enqueue? || h.Retry? ==> H.DueBy(Abstract(s), h) == DueBy(s, e))
  {
  }

  lemma HorizonRefines(es: seq<Event>, c: nat, j: nat)
    requires c < |es| && j < |es| && H.ClaimsAt(Abstracted(es), c) && (Abstracted(es)[j].Enqueue? || Abstracted(es)[j].Retry?)
    ensures ClaimsAt(es, c) && (H.HorizonPassed(Abstracted(es), c, j) <==> HorizonPassed(es, c, j))
  {
    EventRefines(es, c);
    EventRefines(es, j);
  }

  lemma OnceRefines(es: seq<Event>)
    requires SupersededAtMostOnce(es)
    ensures H.SupersededAtMostOnce(Abstracted(es))
  {
    var hs := Abstracted(es);
    forall c, i, j | 0 <= c < i < j < |hs| && H.ClaimsAt(hs, c) && H.ReleasesAt(hs, i) && hs[j].Enqueue?
      ensures H.HorizonPassed(hs, c, j)
    {
      HorizonRefines(es, c, j);
      EventRefines(es, i);
      EventRefines(es, j);
    }
    forall j | 0 <= j < |hs| ensures !hs[j].Remove? {
      EventRefines(es, j);
    }
  }

  lemma InTimeRefines(es: seq<Event>)
    requires RetriedInTime(es)
    ensures H.RetriedInTime(Abstracted(es))
  {
    var hs := Abstracted(es);
    forall c, j | 0 <= c < j < |hs| && H.ClaimsAt(hs, c) && H.RetriesAt(hs, j) && hs[j].token == hs[c].token
      ensures H.HorizonPassed(hs, c, j)
    {
      HorizonRefines(es, c, j);
      EventRefines(es, c);
      EventRefines(es, j);
    }
  }

  /**
   The PUTs of one image never overlap in a run that supersedes at most once per
   lease horizon and retries in time: a claim finds every earlier PUT answered or
   past its horizon.
   */
  lemma PutsNeverOverlap(es: seq<Event>, token: nat)
    requires SupersededAtMostOnce(es) && RetriedInTime(es) && Claims(Exec(es), token)
    ensures forall t :: t in Exec(es).inFlight ==> Exec(es).inFlight[t] <= Exec(es).now
  {
    OnceRefines(es);
    InTimeRefines(es);
    RunRefines(es);
    H.WindowsNeverOverlap(Abstracted(es), token);
    forall t | t in Exec(es).inFlight ensures Exec(es).inFlight[t] <= Exec(es).now {
      assert !(t in H.Exec(Abstracted(es)).inFlight && H.Exec(Abstracted(es)).inFlight[t] > Exec(es).now);
    }
  }

  // ----- what the worker does -----------------------------------------------------

  const LEASE := 90

  /** One second after the first attempt, doubling up to the eighth. */
  function RetryDelay(attempt: nat): nat {
    Pow2((if attempt < 1 then 1 else if attempt > 8 then 8 else attempt) - 1)
  }

  /** The PUT of the first attempt is given up after `elapsed` seconds, without an answer. */
  function TimedOut(payload: string, error: string, elapsed: nat): seq<Event> {
    [Upsert(1, payload), Claim(0, LEASE), Tick(elapsed), Retry(1, 0, elapsed + RetryDelay(1), error), Tick(elapsed + RetryDelay(1))]
  }

  lemma TimedOutRuns(payload: string, error: string, elapsed: nat)
    ensures
      var s := Exec(TimedOut(payload, error, elapsed));
      && s.now == elapsed + 1 && s.inFlight == map[0 := LEASE] && s.nextToken == 1
      && s.row == Some(RetriedRow(ClaimedRow(InsertedRow(1, payload, 0), 0, LEASE), elapsed + 1, error))
  {
    var e1, e2 := [Upsert(1, payload)], [Upsert(1, payload)] + [Claim(0, LEASE)];
    var retry := Retry(1, 0, elapsed + RetryDelay(1), error);
    ExecStep([], Upsert(1, payload));
    assert [] + e1 == e1;
    ExecStep(e1, Claim(0, LEASE));
    ExecStep(e2, Tick(elapsed));
    ExecStep(e2 + [Tick(elapsed)], retry);
    ExecStep(e2 + [Tick(elapsed)] + [retry], Tick(elapsed + RetryDelay(1)));
    assert e2 + [Tick(elapsed)] + [retry] + [Tick(elapsed + RetryDelay(1))] == TimedOut(payload, error, elapsed);
  }

  /**
   When that first retry falls due, a second PUT may start beside the first exactly
   when it was given up before second 89 of its 90 second lease.  The worker always
   gives up by second 75.
   */
  lemma TimedOutPutOverlapsExactly(payload: string, error: string, elapsed: nat)
    ensures
      var s := Exec(TimedOut(payload, error, elapsed));
      Claims(s, 1) && ((exists t :: t in s.inFlight && s.inFlight[t] > s.now) <==> elapsed + RetryDelay(1) < LEASE)
  {
    TimedOutRuns(payload, error, elapsed);
    var s := Exec(TimedOut(payload, error, elapsed));
    assert 0 in s.inFlight;
  }

  // ----- the newest revision is never lost --------------------------------------

  function Highest(offered: seq<(nat, string)>): nat {
    if offered == [] then 0
    else
      var rest := Highest(offered[..|offered| - 1]);
      var last := offered[|offered| - 1].0;
      if rest < last then last else rest
  }

  /** The row carries an offered payload, and the highest offer is on it or was delivered. */
  predicate NothingLost(s: State) {
    && (s.row.Some? ==> (s.row.value.revision, s.row.value.payload) in s.offered && s.row.value.revision <= Highest(s.offered))
    && (s.offered != [] ==>
          || (s.row.Some? && s.row.value.revision == Highest(s.offered))
          || Highest(s.offered) in s.delivered)
  }

  lemma OfferHighest(offered: seq<(nat, string)>, o: (nat, string))
    ensures Highest(offered + [o]) == if Highest(offered) < o.0 then o.0 else Highest(offered)
  {
    assert (offered + [o])[..|offered|] == offered;
  }

  /**
   For every run: the highest revision ever offered is the row's own or one a
   token holder completed, and the row's payload is one offered with its revision.
   */
  lemma {:induction false} NewestNeverLost(es: seq<Event>)
    ensures NothingLost(Exec(es))
    decreases |es|
  {
    if es != [] {
      NewestNeverLost(es[..|es| - 1]);
      var s := Exec(es[..|es| - 1]);
      match es[|es| - 1]
      case Upsert(revision, payload) => OfferHighest(s.offered, (revision, payload));
      case _ =>
    }
  }

  /** Publications of one image are offered in increasing order of revision. */
  predicate Increasing(offered: seq<(nat, string)>) {
    forall i, k :: 0 <= i < k < |offered| ==> offered[i].0 < offered[k].0
  }

  predicate Sorted(xs: seq<nat>) {
    forall i, k :: 0 <= i < k < |xs| ==> xs[i] <= xs[k]
  }

  predicate InOrder(s: State) {
    && Sorted(s.claimed)
    && (forall i :: 0 <= i < |s.claimed| ==> s.claimed[i] <= Highest(s.offered))
    && (s.row.Some? ==> s.row.value.revision == Highest(s.offered))
  }

  lemma {:induction false} IncreasingHighest(offered: seq<(nat, string)>)
    requires Increasing(offered) && offered != []
    ensures Highest(offered) == offered[|offered| - 1].0
  {
    var front := offered[..|offered| - 1];
    if front != [] { IncreasingHighest(front); }
  }

  lemma StepInOrder(s: State, e: Event)
    requires InOrder(s) && Increasing(Step(s, e).offered)
    ensures InOrder(Step(s, e))
  {
    if e.Upsert? { OfferInOrder(s, e.revision, e.payload); } else { QuietInOrder(s, e); }
  }

  lemma OfferInOrder(s: State, revision: nat, payload: string)
    requires InOrder(s) && Increasing(s.offered + [(revision, payload)])
    ensures InOrder(Step(s, Upsert(revision, payload)))
  {
    OfferedAbove(s.offered, (revision, payload));
  }

  lemma QuietInOrder(s: State, e: Event)
    requires InOrder(s) && !e.Upsert?
    ensures InOrder(Step(s, e))
  {
    assert Step(s, e).offered == s.offered;
  }

  /** When publications arrive in order, PUTs start in order too. */
  lemma {:induction false} PutsStartInOrder(es: seq<Event>)
    requires Increasing(Exec(es).offered)
    ensures InOrder(Exec(es))
    decreases |es|
  {
    if es != [] {
      var s := Exec(es[..|es| - 1]);
      assert s.offered <= Exec(es).offered;
      PutsStartInOrder(es[..|es| - 1]);
      StepInOrder(s, es[|es| - 1]);
    }
  }

  /** PUTs started in order so far, and the next one cannot break the order. */
  predicate Ordered(s: State) {
    && Sorted(s.claimed)
    && (s.row.Some? ==> forall i :: 0 <= i < |s.claimed| ==> s.claimed[i] <= s.row.value.revision)
  }

  /** The revision is offered after the row is gone, and an equal or newer one was already sent. */
  predicate Belated(s: State, e: Event) {
    e.Upsert? && s.row.None? && s.claimed != [] && e.revision < s.claimed[|s.claimed| - 1]
  }

  /** An order kept so far is broken exactly by a belated offer. */
  lemma OrderBrokenExactly(s: State, e: Event)
    requires Ordered(s)
    ensures Ordered(Step(s, e)) <==> !Belated(s, e)
  {
  }

  lemma {:induction false} NoBelatedOfferOrdered(es: seq<Event>)
    requires forall j :: 0 <= j < |es| ==> !Belated(Exec(es[..j]), es[j])
    ensures Sorted(Exec(es).claimed) && Ordered(Exec(es))
    decreases |es|
  {
    if es != [] {
      var front := es[..|es| - 1];
      forall j | 0 <= j < |front| ensures !Belated(Exec(front[..j]), front[j]) {
        assert front[..j] == es[..j];
      }
      NoBelatedOfferOrdered(front);
      OrderBrokenExactly(Exec(front), es[|es| - 1]);
    }
  }

  /** After revision 2 is delivered and its row removed, an offer of revision 1 is sent as well. */
  lemma OlderRevisionSentAgain(p: string, q: string)
    ensures
      var es := [Upsert(2, p), Claim(0, 90), Answer(0), Complete(2, 0), Upsert(1, q), Claim(1, 90)];
      Exec(es).claimed == [2, 1] && Exec(es).delivered == {2} && !Sorted(Exec(es).claimed)
  {
    var e1 := [Upsert(2, p)];
    ExecStep([], Upsert(2, p));
    assert [] + e1 == e1;
    ExecStep(e1, Claim(0, 90));
    ExecStep(e1 + [Claim(0, 90)], Answer(0));
    ExecStep(e1 + [Claim(0, 90)] + [Answer(0)], Complete(2, 0));
    var e4 := e1 + [Claim(0, 90)] + [Answer(0)] + [Complete(2, 0)];
    assert Exec(e4).row.None? && Exec(e4).claimed == [2] && Exec(e4).delivered == {2};
    ExecStep(e4, Upsert(1, q));
    var e5 := e4 + [Upsert(1, q)];
    assert Claims(Exec(e5), 1);
    ExecStep(e5, Claim(1, 90));
    var claimed := Exec(e5 + [Claim(1, 90)]).claimed;
    assert claimed == [2] + [1] && claimed[0] > claimed[1];
    assert e5 + [Claim(1, 90)] == [Upsert(2, p), Claim(0, 90), Answer(0), Complete(2, 0), Upsert(1, q), Claim(1, 90)];
  }

  // ----- how often one revision is tried ------------------------------------------

  /** Claims of `x` still possible without adopting it again. */
  function Remaining(s: State, x: nat): nat {
    if s.row.Some? && s.row.value.revision == x && s.row.value.attemptCount <= MAX_ATTEMPTS
    then MAX_ATTEMPTS - s.row.value.attemptCount else 0
  }

  predicate WithinBudget(s: State, x: nat) {
    && WellFormed(s)
    && (s.row.Some? ==> s.row.value.attemptCount <= MAX_ATTEMPTS
                        && (s.row.value.status == Pending ==> s.row.value.attemptCount < MAX_ATTEMPTS))
    && Count(s.claimed, x) + Remaining(s, x) <= MAX_ATTEMPTS * Count(s.adopted, x)
  }

  lemma StepWithinBudget(s: State, e: Event, x: nat)
    requires WithinBudget(s, x)
    ensures WithinBudget(Step(s, e), x)
  {
    match e
    case Upsert(revision, _) =>
      if Adopts(s, revision) { CountAppend(s.adopted, revision, x); }
    case Claim(_, _) =>
      if s.row.Some? { CountAppend(s.claimed, s.row.value.revision, x); }
    case _ =>
  }

  /** Every revision is claimed at most max_attempts times for each time it became the row's revision. */
  lemma {:induction false} ClaimsBounded(es: seq<Event>, x: nat)
    ensures WithinBudget(Exec(es), x)
    ensures Count(Exec(es).claimed, x) <= MAX_ATTEMPTS * Count(Exec(es).adopted, x)
    decreases |es|
  {
    if es != [] {
      ClaimsBounded(es[..|es| - 1], x);
      StepWithinBudget(Exec(es[..|es| - 1]), es[|es| - 1], x);
    }
  }

  predicate Strict(xs: seq<nat>) {
    forall i, k :: 0 <= i < k < |xs| ==> xs[i] < xs[k]
  }

  predicate AtMost(xs: seq<nat>, bound: nat) {
    forall i :: 0 <= i < |xs| ==> xs[i] <= bound
  }

  /** Offers in increasing order are adopted at most once each. */
  predicate AdoptedOnce(s: State) {
    Strict(s.adopted) && AtMost(s.adopted, Highest(s.offered)) && (s.offered == [] ==> s.adopted == [])
  }

  lemma {:induction false} CountStrict(xs: seq<nat>, x: nat)
    requires Strict(xs)
    ensures Count(xs, x) <= 1
    decreases |xs|
  {
    if xs != [] {
      CountStrict(xs[1..], x);
      CountPositive(xs[1..], x);
    }
  }

  lemma AppendAbove(xs: seq<nat>, bound: nat, x: nat)
    requires Strict(xs) && AtMost(xs, bound) && (bound < x || xs == [])
    ensures Strict(xs + [x]) && AtMost(xs + [x], x) && AtMost(xs, if bound < x then x else bound)
  {
  }

  lemma OfferedAbove(offered: seq<(nat, string)>, o: (nat, string))
    requires Increasing(offered + [o])
    ensures offered != [] ==> Highest(offered) < o.0
    ensures Highest(offered + [o]) == o.0
  {
    var all := offered + [o];
    IncreasingHighest(all);
    if offered != [] {
      assert forall i :: 0 <= i < |offered| ==> all[i] == offered[i];
      IncreasingHighest(offered);
      assert all[|offered| - 1].0 < all[|offered|].0;
    }
  }

  lemma StepAdoptedOnce(s: State, e: Event)
    requires AdoptedOnce(s) && Increasing(Step(s, e).offered)
    ensures AdoptedOnce(Step(s, e))
  {
    if e.Upsert? {
      OfferedAbove(s.offered, (e.revision, e.payload));
      AppendAbove(s.adopted, Highest(s.offered), e.revision);
    }
  }

  lemma {:induction false} IncreasingAdoptedOnce(es: seq<Event>)
    requires Increasing(Exec(es).offered)
    ensures AdoptedOnce(Exec(es))
    decreases |es|
  {
    if es != [] {
      var s := Exec(es[..|es| - 1]);
      assert s.offered <= Exec(es).offered;
      IncreasingAdoptedOnce(es[..|es| - 1]);
      StepAdoptedOnce(s, es[|es| - 1]);
    }
  }

  /** When publications arrive in order, every revision is claimed at most max_attempts times. */
  lemma ClaimedWithinAttempts(es: seq<Event>, x: nat)
    requires Increasing(Exec(es).offered)
    ensures Count(Exec(es).claimed, x) <= MAX_ATTEMPTS
  {
    ClaimsBounded(es, x);
    IncreasingAdoptedOnce(es);
    CountStrict(Exec(es).adopted, x);
  }

  lemma ExecStep(es: seq<Event>, e: Event)
    ensures Exec(es + [e]) == Step(Exec(es), e)
  {
    assert (es + [e])[..|es|] == es;
  }
}
