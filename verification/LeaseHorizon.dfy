/**
 What the annotation mirror and the resource cleanup outbox share: one row per
 remote resource, leased to one worker at a time, re-enqueued at will.

 A claim starts a remote operation.  It is in flight until its holder has the
 answer, and in any case it is over once its lease horizon has passed.  A holder
 that gives up waiting has no answer: the operation may still take effect.  The
 question is whether two operations on one resource can be in flight together.
 */
module LeaseHorizon {
  import opened Nullable

  datatype Phase = Waiting(next: int) | Busy(token: nat, leaseUntil: int) | Parked

  /** `endless` rows are rescheduled instead of parked when their attempts run out. */
  datatype Row = Row(phase: Phase, attempts: nat, max: nat, endless: bool)

  /** `inFlight` maps each operation whose holder has no answer yet to its lease horizon. */
  datatype State = State(now: int, row: Option<Row>, inFlight: map<nat, int>, nextToken: nat)

  datatype Event =
    | Idle
    | Tick(to: int)
    | Enqueue(notBefore: int, max: nat, endless: bool)
    /** Tokens are new: never below `nextToken`. */
    | Claim(token: nat, leaseUntil: int)
    | Answer(token: nat)
    | Retry(token: nat, next: int)
    | Complete(token: nat)
    | FailExhausted
    /** A waiting row is put off, never brought forward. */
    | Postpone(notBefore: int)
    | Remove

  const HOUR := 3600

  function Max(a: int, b: int): int {
    if a < b then b else a
  }

  predicate Claimable(r: Row, now: int) {
    match r.phase
    case Waiting(next) => next <= now
    case Busy(_, leaseUntil) => leaseUntil < now && r.attempts < r.max
    case Parked => false
  }

  predicate Exhausted(r: Row, now: int) {
    r.phase.Busy? && r.phase.leaseUntil < now && r.attempts >= r.max
  }

  /** Re-enqueueing waits for the lease on the row, if there is one, and otherwise only for `notBefore`. */
  function Requeued(r: Row, notBefore: int, now: int): Row {
    var horizon := if r.phase.Busy? then r.phase.leaseUntil else now;
    r.(phase := Waiting(Max(notBefore, horizon)), attempts := 0)
  }

  predicate Holds(s: State, token: nat) {
    s.row.Some? && s.row.value.phase.Busy? && s.row.value.phase.token == token
  }

  /** A retry out of attempts parks the row. */
  predicate Parks(r: Row) {
    !r.endless && r.attempts >= r.max
  }

  /** The claim takes effect. */
  predicate Claims(s: State, token: nat) {
    s.row.Some? && Claimable(s.row.value, s.now) && token >= s.nextToken
  }

  function Step(s: State, e: Event): State {
    match e
    case Idle => s
    case Tick(to) => s.(now := Max(s.now, to))
    case Enqueue(notBefore, max, endless) =>
      if s.row.None? then s.(row := Some(Row(Waiting(notBefore), 0, max, endless)))
      else s.(row := Some(Requeued(s.row.value, notBefore, s.now)))
    case Claim(token, leaseUntil) =>
      if Claims(s, token) then
        s.(row := Some(s.row.value.(phase := Busy(token, leaseUntil), attempts := s.row.value.attempts + 1)),
           inFlight := s.inFlight[token := leaseUntil], nextToken := token + 1)
      else s
    case Answer(token) => s.(inFlight := s.inFlight - {token})
    case Retry(token, next) =>
      // on any error, a timeout included: the statement looks at the row alone
      if Holds(s, token) then
        s.(row := Some(s.row.value.(phase := if Parks(s.row.value) then Parked else Waiting(next))))
      else s
    case Complete(token) =>
      // only after success, which is an answer
      if token !in s.inFlight && Holds(s, token) then s.(row := None) else s
    case FailExhausted =>
      if s.row.Some? && Exhausted(s.row.value, s.now) then
        var r := s.row.value;
        s.(row := Some(r.(phase := if r.endless then Waiting(s.now + HOUR) else Parked)))
      else s
    case Postpone(notBefore) =>
      if s.row.Some? && s.row.value.phase.Waiting? then
        s.(row := Some(s.row.value.(phase := Waiting(Max(s.row.value.phase.next, notBefore)))))
      else s
    case Remove => s.(row := None)
  }

  /** Some operation may still be running at time `t`. */
  predicate RunningAt(s: State, t: int) {
    exists token :: token in s.inFlight && s.inFlight[token] > t
  }

  /**
   No claim can come before the horizon of an operation in flight: the row is
   busy with that very operation, or waits at least as long.
   */
  predicate Serialized(s: State) {
    && (forall token :: token in s.inFlight ==> token < s.nextToken)
    && (s.row.Some? && s.row.value.phase.Busy? ==> s.row.value.phase.token < s.nextToken)
    && forall token :: token in s.inFlight && s.inFlight[token] > s.now ==>
         && s.row.Some?
         && match s.row.value.phase
            case Waiting(next) => s.inFlight[token] <= next
            case Busy(holder, leaseUntil) => holder == token && leaseUntil == s.inFlight[token]
            case Parked => false
  }

  /** No operation in flight outlives the time at which the row would next be claimable. */
  predicate Careful(s: State, e: Event) {
    match e
    case Enqueue(notBefore, _, _) =>
      s.row.Some? && s.row.value.phase.Waiting? ==> !RunningAt(s, Max(notBefore, s.now))
    case Retry(token, next) =>
      Holds(s, token) ==> !RunningAt(s, if Parks(s.row.value) then s.now else Max(next, s.now))
    case Remove => !RunningAt(s, s.now)
    case _ => true
  }

  lemma CarefulKeepsSerialized(s: State, e: Event)
    requires Serialized(s) && Careful(s, e)
    ensures Serialized(Step(s, e))
  {
  }

  /** Where an event that is not careful goes wrong. */
  lemma CarelessWitness(s: State, e: Event) returns (token: nat)
    requires Serialized(s) && !Careful(s, e)
    ensures token in s.inFlight && s.inFlight[token] > s.now && Step(s, e).inFlight == s.inFlight && Step(s, e).now == s.now
    ensures Step(s, e).row.Some? && Step(s, e).row.value.phase.Waiting? ==> s.inFlight[token] > Step(s, e).row.value.phase.next
    ensures Step(s, e).row.Some? ==> !Step(s, e).row.value.phase.Busy?
  {
    var t :=
      match e
      case Enqueue(notBefore, _, _) => Max(notBefore, s.now)
      case Retry(_, next) => if Parks(s.row.value) then s.now else Max(next, s.now)
      case _ => s.now;
    token :| token in s.inFlight && s.inFlight[token] > t;
  }

  /** The condition is exact, for every event: one that breaks it always breaks serialization. */
  lemma CarelessBreaksSerialized(s: State, e: Event)
    requires Serialized(s)
    ensures Serialized(Step(s, e)) <==> Careful(s, e)
  {
    if Careful(s, e) {
      CarefulKeepsSerialized(s, e);
    } else {
      var token := CarelessWitness(s, e);
      assert token in Step(s, e).inFlight;
    }
  }

  /** Replacing the work of a busy row is always careful: the first supersession cannot lose the horizon. */
  lemma FirstSupersessionIsCareful(s: State, notBefore: int, max: nat, endless: bool)
    requires Serialized(s) && s.row.Some? && !s.row.value.phase.Waiting?
    ensures Careful(s, Enqueue(notBefore, max, endless))
    ensures s.row.value.phase.Busy? ==>
      Step(s, Enqueue(notBefore, max, endless)).row.value.phase.next >= s.row.value.phase.leaseUntil
  {
  }

  // ----- what the row itself shows ----------------------------------------------

  /** The time up to which the row shows that an operation may be running. */
  function ShownUntil(r: Row): int {
    match r.phase
    case Waiting(next) => next
    case Busy(_, leaseUntil) => leaseUntil
    case Parked => 0
  }

  /**
   What a caller can check by reading the row: a waiting row may be re-enqueued
   only to a time that is not earlier than its own, a holder may give its row back
   only to a time that is not before its lease ends, and a row may be removed or
   parked only when neither its due time nor its lease lies ahead.
   */
  predicate RowAllows(now: int, row: Option<Row>, e: Event) {
    match e
    case Enqueue(notBefore, _, _) =>
      row.Some? && row.value.phase.Waiting? ==> row.value.phase.next <= Max(notBefore, now)
    case Retry(token, next) =>
      row.Some? && row.value.phase.Busy? && row.value.phase.token == token ==>
        row.value.phase.leaseUntil <= if Parks(row.value) then now else Max(next, now)
    case Remove =>
      row.Some? ==> ShownUntil(row.value) <= now || row.value.phase.Parked?
    case _ => true
  }

  lemma RowAllowsIsCareful(s: State, e: Event)
    requires Serialized(s) && RowAllows(s.now, s.row, e)
    ensures Careful(s, e)
  {
  }

  /**
   No weaker test of the row will do: where it fails, some serialized state with
   this very row is broken by the event.
   */
  lemma RowAllowsExactly(now: int, row: Option<Row>, e: Event)
    ensures RowAllows(now, row, e) <==>
      forall inFlight, nextToken :: Serialized(State(now, row, inFlight, nextToken)) ==> Careful(State(now, row, inFlight, nextToken), e)
  {
    if RowAllows(now, row, e) {
      forall inFlight, nextToken | Serialized(State(now, row, inFlight, nextToken))
        ensures Careful(State(now, row, inFlight, nextToken), e)
      {
        RowAllowsIsCareful(State(now, row, inFlight, nextToken), e);
      }
    } else {
      var r := row.value;
      var token := if r.phase.Busy? then r.phase.token else 0;
      var s := State(now, row, map[token := ShownUntil(r)], token + 1);
      assert token in s.inFlight && s.inFlight[token] == ShownUntil(r);
      assert Serialized(s) && !Careful(s, e);
    }
  }

  // ----- runs -------------------------------------------------------------------

  const Start := State(0, None, map[], 0)

  function Exec(es: seq<Event>): State {
    if es == [] then Start else Step(Exec(es[..|es| - 1]), es[|es| - 1])
  }

  predicate ClaimsAt(es: seq<Event>, c: nat) {
    c < |es| && es[c].Claim? && Claims(Exec(es[..c]), es[c].token)
  }

  /** The holder gives the row back. */
  predicate RetriesAt(es: seq<Event>, j: nat) {
    j < |es| && es[j].Retry? && Holds(Exec(es[..j]), es[j].token)
  }

  /** The lease is dropped from the row: by a re-enqueue, or by its holder. */
  predicate ReleasesAt(es: seq<Event>, i: nat) {
    i < |es| && (es[i].Enqueue? || RetriesAt(es, i))
  }

  /** When the row falls due, or goes away, by event `e`. */
  function DueBy(s: State, e: Event): int {
    match e
    case Enqueue(notBefore, _, _) => Max(notBefore, s.now)
    case Retry(_, next) => if s.row.Some? && Parks(s.row.value) then s.now else Max(next, s.now)
    case _ => s.now
  }

  /** By event `j` the claim at `c` has its answer, or its lease ends before the row falls due or goes away. */
  predicate HorizonPassed(es: seq<Event>, c: nat, j: nat)
    requires ClaimsAt(es, c) && j < |es|
  {
    var s := Exec(es[..j]);
    es[c].token !in s.inFlight || es[c].leaseUntil <= DueBy(s, es[j])
  }

  /**
   After each claim, once the lease has been dropped from the row, the row is
   re-enqueued only when the claim is answered or its lease ends in time; it is not
   removed before then either.
   */
  predicate SupersededAtMostOnce(es: seq<Event>) {
    && (forall c, i, j :: 0 <= c < i < j < |es| && ClaimsAt(es, c) && ReleasesAt(es, i) && es[j].Enqueue? ==> HorizonPassed(es, c, j))
    && (forall c, j :: 0 <= c < j < |es| && ClaimsAt(es, c) && es[j].Remove? ==> HorizonPassed(es, c, j))
  }

  /** A holder gives its row back only with its answer, or to a time after its lease. */
  predicate RetriedInTime(es: seq<Event>) {
    forall c, j :: 0 <= c < j < |es| && ClaimsAt(es, c) && RetriesAt(es, j) && es[j].token == es[c].token ==> HorizonPassed(es, c, j)
  }

  lemma PrefixSame(es: seq<Event>, j: nat)
    requires es != [] && j < |es| - 1
    ensures var front := es[..|es| - 1];
      && front[..j] == es[..j] && front[j] == es[j]
      && (ClaimsAt(front, j) <==> ClaimsAt(es, j)) && (RetriesAt(front, j) <==> RetriesAt(es, j)) && (ReleasesAt(front, j) <==> ReleasesAt(es, j))
  {
    assert es[..|es| - 1][..j] == es[..j];
  }

  lemma PrefixOnce(es: seq<Event>)
    requires SupersededAtMostOnce(es) && es != []
    ensures SupersededAtMostOnce(es[..|es| - 1])
  {
    var front := es[..|es| - 1];
    forall c, i, j | 0 <= c < i < j < |front| && ClaimsAt(front, c) && ReleasesAt(front, i) && front[j].Enqueue?
      ensures HorizonPassed(front, c, j)
    {
      PrefixSame(es, c);
      PrefixSame(es, i);
      PrefixSame(es, j);
      assert HorizonPassed(es, c, j);
    }
    forall c, j | 0 <= c < j < |front| && ClaimsAt(front, c) && front[j].Remove?
      ensures HorizonPassed(front, c, j)
    {
      PrefixSame(es, c);
      PrefixSame(es, j);
      assert HorizonPassed(es, c, j);
    }
  }

  lemma PrefixInTime(es: seq<Event>)
    requires RetriedInTime(es) && es != []
    ensures RetriedInTime(es[..|es| - 1])
  {
    var front := es[..|es| - 1];
    forall c, j | 0 <= c < j < |front| && ClaimsAt(front, c) && RetriesAt(front, j) && front[j].token == front[c].token
      ensures HorizonPassed(front, c, j)
    {
      PrefixSame(es, c);
      PrefixSame(es, j);
      assert HorizonPassed(es, c, j);
    }
  }

  /** The token's operation is the claim at `c`; unless it still holds the row, its lease was dropped since. */
  predicate Origin(es: seq<Event>, token: nat, c: nat) {
    && token in Exec(es).inFlight && token < Exec(es).nextToken
    && ClaimsAt(es, c) && es[c].token == token && es[c].leaseUntil == Exec(es).inFlight[token]
    && (Holds(Exec(es), token) ==> Exec(es).row.value.phase.leaseUntil == es[c].leaseUntil)
    && (Exec(es).inFlight[token] <= Exec(es).now || Holds(Exec(es), token) || exists i :: c < i < |es| && ReleasesAt(es, i))
  }

  lemma {:induction false} FindOrigin(es: seq<Event>, token: nat) returns (c: nat)
    requires SupersededAtMostOnce(es) && token in Exec(es).inFlight
    ensures Origin(es, token, c)
    decreases |es|
  {
    var n := |es| - 1;
    var front, e := es[..n], es[n];
    var s := Exec(front);
    if e.Claim? && Claims(s, e.token) && e.token == token {
      c := n;
    } else {
      PrefixOnce(es);
      c := FindOrigin(front, token);
      PrefixSame(es, c);
      if e.Remove? { assert HorizonPassed(es, c, n); }
      if i :| c < i < |front| && ReleasesAt(front, i) {
        PrefixSame(es, i);
      } else if e.Enqueue? || e.Retry? {
        assert e.Enqueue? || Holds(s, e.token) ==> ReleasesAt(es, n);
      }
    }
  }

  /** Every run that supersedes at most once per horizon, and retries in time, stays serialized. */
  lemma {:induction false} RunSerialized(es: seq<Event>)
    requires SupersededAtMostOnce(es) && RetriedInTime(es)
    ensures Serialized(Exec(es))
    decreases |es|
  {
    if es != [] {
      var n := |es| - 1;
      PrefixOnce(es);
      PrefixInTime(es);
      RunSerialized(es[..n]);
      OnceIsCareful(es);
      CarefulKeepsSerialized(Exec(es[..n]), es[n]);
    }
  }

  lemma OnceIsCareful(es: seq<Event>)
    requires es != [] && SupersededAtMostOnce(es) && RetriedInTime(es)
    requires Serialized(Exec(es[..|es| - 1]))
    ensures Careful(Exec(es[..|es| - 1]), es[|es| - 1])
  {
    var n := |es| - 1;
    var front, e := es[..n], es[n];
    var s := Exec(front);
    PrefixOnce(es);
    if e.Remove? || RetriesAt(es, n) || (e.Enqueue? && s.row.Some? && s.row.value.phase.Waiting?) {
      forall token | token in s.inFlight ensures s.inFlight[token] <= DueBy(s, e) {
        var c := FindOrigin(front, token);
        PrefixSame(es, c);
        if e.Remove? || (e.Retry? && e.token == token) {
          assert HorizonPassed(es, c, n);
        } else if e.Enqueue? {
          if i :| c < i < |front| && ReleasesAt(front, i) {
            PrefixSame(es, i);
            assert HorizonPassed(es, c, n);
          }
        }
      }
    }
  }

  /**
   If no row is superseded twice before its lease horizon passes, and none is given
   back to a time before it, no operation starts while another one on the resource
   may still be running.
   */
  lemma WindowsNeverOverlap(es: seq<Event>, token: nat)
    requires SupersededAtMostOnce(es) && RetriedInTime(es) && Claims(Exec(es), token)
    ensures !RunningAt(Exec(es), Exec(es).now)
  {
    RunSerialized(es);
  }

  /** The same for callers who read the row before each re-enqueue, retry and removal. */
  predicate RowsRead(es: seq<Event>) {
    forall j :: 0 <= j < |es| ==> RowAllows(Exec(es[..j]).now, Exec(es[..j]).row, es[j])
  }

  lemma {:induction false} RowsReadSerialized(es: seq<Event>)
    requires RowsRead(es)
    ensures Serialized(Exec(es))
    decreases |es|
  {
    if es != [] {
      var front := es[..|es| - 1];
      forall j | 0 <= j < |front| ensures RowAllows(Exec(front[..j]).now, Exec(front[..j]).row, front[j]) {
        assert front[..j] == es[..j];
      }
      RowsReadSerialized(front);
      RowAllowsIsCareful(Exec(front), es[|es| - 1]);
      CarefulKeepsSerialized(Exec(front), es[|es| - 1]);
    }
  }

  /** Wait until a waiting row is due; put any other row, or none, in the queue. */
  function Reopened(t: State, max: nat, endless: bool): State {
    if t.row.Some? && t.row.value.phase.Waiting? then Step(t, Tick(t.row.value.phase.next))
    else Step(t, Enqueue(t.now, max, endless))
  }

  /**
   Without the condition the promise fails in every case, not just in one: after
   any careless event, waiting for the row to come due, or enqueueing it where
   it no longer waits, and claiming it starts an operation beside one that may
   still be running.
   */
  lemma CarelessOverlaps(s: State, e: Event, max: nat, endless: bool)
    requires Serialized(s) && !Careful(s, e)
    ensures var due := Reopened(Step(s, e), max, endless); Claims(due, due.nextToken) && RunningAt(due, due.now)
  {
    var t := Step(s, e);
    var due := Reopened(t, max, endless);
    var token := CarelessWitness(s, e);
    assert due.inFlight == s.inFlight && token in due.inFlight && due.inFlight[token] > due.now;
    assert Claimable(due.row.value, due.now);
  }

  /** The shortest such run: claim, supersede twice inside the lease, claim again. */
  lemma SecondSupersessionLosesTheHorizon(max: nat, endless: bool)
    ensures
      var es := [Enqueue(0, max, endless), Claim(0, 90), Enqueue(0, max, endless), Enqueue(0, max, endless)];
      Claims(Exec(es), 1) && RunningAt(Exec(es), Exec(es).now) && !SupersededAtMostOnce(es)
  {
    var es := [Enqueue(0, max, endless), Claim(0, 90), Enqueue(0, max, endless), Enqueue(0, max, endless)];
    var s1 := Step(Start, es[0]);
    assert es[..1] == [es[0]] && Exec(es[..1]) == s1 by { assert es[..1][..0] == []; }
    assert es[..2][..1] == es[..1] && es[..3][..2] == es[..2] && es[..4][..3] == es[..3] && es[..4] == es;
    var s2 := Step(s1, es[1]);
    assert Exec(es[..2]) == s2;
    var s3 := Step(s2, es[2]);
    assert Exec(es[..3]) == s3 && s3.row.value.phase == Waiting(90);
    var s4 := Step(s3, es[3]);
    assert Exec(es) == s4 && s4.row.value.phase == Waiting(0);
    assert 0 in s4.inFlight && s4.inFlight[0] == 90;
    assert ClaimsAt(es, 1) && ReleasesAt(es, 2) && es[3].Enqueue? && !HorizonPassed(es, 1, 3);
  }

  /**
   A worker that gives up after its 15 second request timeout and puts the row back
   for one second later: no supersession, and the row is claimable beside an operation
   whose lease has 74 seconds to run.
   */
  lemma TimedOutRetryLosesTheHorizon(max: nat, endless: bool)
    requires max > 1
    ensures
      var es := [Enqueue(0, max, endless), Claim(0, 90), Tick(15), Retry(0, 16), Tick(16)];
      && Claims(Exec(es), 1) && RunningAt(Exec(es), Exec(es).now)
      && SupersededAtMostOnce(es) && !RetriedInTime(es)
  {
    var es := [Enqueue(0, max, endless), Claim(0, 90), Tick(15), Retry(0, 16), Tick(16)];
    assert es[..1] == [es[0]] && Exec(es[..1]) == Step(Start, es[0]) by { assert es[..1][..0] == []; }
    assert es[..2][..1] == es[..1] && es[..3][..2] == es[..2] && es[..4][..3] == es[..3] && es[..5][..4] == es[..4] && es[..5] == es;
    var s3 := State(15, Some(Row(Busy(0, 90), 1, max, endless)), map[0 := 90], 1);
    assert Exec(es[..2]) == s3.(now := 0);
    assert Exec(es[..3]) == s3;
    assert Exec(es[..4]) == s3.(row := Some(Row(Waiting(16), 1, max, endless)));
    assert Exec(es) == s3.(row := Some(Row(Waiting(16), 1, max, endless)), now := 16);
    assert 0 in Exec(es).inFlight;
    assert ClaimsAt(es, 1) && RetriesAt(es, 3) && !HorizonPassed(es, 1, 3);
    assert forall c: nat :: ClaimsAt(es, c) ==> c == 1;
  }

  /**
   For the workers' own times: a lease of `lease` seconds from the claim, given up
   after `elapsed` seconds and put back `delay` seconds later.  The row test holds
   exactly when the two together reach the end of the lease.
   */
  lemma WorkerRetryExactly(row: Row, token: nat, claimed: int, lease: nat, elapsed: nat, delay: nat)
    requires row.phase == Busy(token, claimed + lease)
    ensures RowAllows(claimed + elapsed, Some(row), Retry(token, claimed + elapsed + delay))
       <==> elapsed + (if Parks(row) then 0 else delay) >= lease
  {
  }

  // ----- attempts -----------------------------------------------------------

  /** A row that can park is waiting only while it has attempts left. */
  predicate Budgeted(s: State) {
    s.row.Some? && !s.row.value.endless ==>
      && s.row.value.attempts <= s.row.value.max
      && (s.row.value.phase.Waiting? ==> s.row.value.attempts < s.row.value.max)
  }

  /**
   Although a claim of a waiting row never looks at the attempt count, no
   finite row is ever claimed past its budget.
   */
  lemma StepKeepsBudget(s: State, e: Event)
    requires Budgeted(s) && (e.Enqueue? ==> e.max > 0)
    requires s.row.Some? ==> s.row.value.max > 0
    ensures Budgeted(Step(s, e))
  {
  }

  /** An endless row is never parked. */
  lemma EndlessNeverParks(s: State, e: Event)
    requires s.row.Some? && s.row.value.endless ==> !s.row.value.phase.Parked?
    ensures var t := Step(s, e); t.row.Some? && t.row.value.endless ==> !t.row.value.phase.Parked?
  {
  }

  /** When an endless row next becomes claimable if nobody touches it but the exhaustion sweep. */
  function RipeAt(r: Row, now: int): int {
    match r.phase
    case Waiting(next) => next
    case Busy(_, leaseUntil) => Max(now, leaseUntil + 1) + (if r.attempts < r.max then 0 else HOUR)
    case Parked => now
  }

  /** The claim transaction sweeps exhausted rows first; two passes an hour apart always reach an endless row. */
  lemma EndlessBecomesClaimable(s: State)
    requires s.row.Some? && s.row.value.endless && !s.row.value.phase.Parked?
    ensures
      var expired := Step(Step(s, Tick(if s.row.value.phase.Busy? then s.row.value.phase.leaseUntil + 1 else s.now)), FailExhausted);
      var ripe := Step(expired, Tick(RipeAt(s.row.value, s.now)));
      ripe.row.Some? && Claimable(ripe.row.value, ripe.now)
  {
  }
}
