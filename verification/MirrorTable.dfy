/**
 The mirror outbox as one table of many images.  Every image's row is what its own
 run leads to, so what is proved about runs holds of the store's transactions.
 */
module MirrorTable {
  import opened Nullable
  import opened MirrorOutbox
  import H = LeaseHorizon

  datatype Table = Table(now: int, rows: map<nat, Row>, nextToken: nat)

  /** For each image ever offered, the run its row has been through. */
  type History = map<nat, seq<Event>>

  function Lookup(t: Table, image: nat): Option<Row> {
    if image in t.rows then Some(t.rows[image]) else None
  }

  predicate Shows(s: State, t: Table, image: nat) {
    s.now == t.now && s.row == Lookup(t, image) && s.nextToken <= t.nextToken
  }

  ghost predicate Explains(h: History, t: Table) {
    t.now >= 0 && t.rows.Keys <= h.Keys && forall image :: image in h ==> Shows(Exec(h[image]), t, image)
  }

  /** An image never offered has only seen time pass. */
  function RunOf(h: History, t: Table, image: nat): seq<Event> {
    if image in h then h[image] else [Tick(t.now)]
  }

  lemma RunShows(h: History, t: Table, image: nat)
    requires Explains(h, t)
    ensures Shows(Exec(RunOf(h, t, image)), t, image)
  {
    if image !in h {
      ExecStep([], Tick(t.now));
      assert [] + [Tick(t.now)] == [Tick(t.now)];
    }
  }

  function Extended(h: History, t: Table, image: nat, e: Event): History {
    h[image := RunOf(h, t, image) + [e]]
  }

  function ExtendedAll(h: History, e: Event): History {
    map image | image in h :: h[image] + [e]
  }

  /** A longer run of one image, every other row as it was. */
  lemma ExplainsRun(h: History, t: Table, image: nat, run: seq<Event>, t': Table)
    requires Explains(h, t) && t'.now == t.now && t.nextToken <= t'.nextToken
    requires forall i :: i != image ==> Lookup(t', i) == Lookup(t, i)
    requires Shows(Exec(run), t', image)
    ensures Explains(h[image := run], t')
  {
    var h' := h[image := run];
    forall i | i in t'.rows ensures i in h' {
      if i != image { assert Lookup(t', i) == Lookup(t, i); }
    }
    forall i | i in h' ensures Shows(Exec(h'[i]), t', i) {
      if i != image { assert Shows(Exec(h[i]), t, i) && Lookup(t', i) == Lookup(t, i); }
    }
  }

  /** An event on one image. */
  lemma ExplainsOne(h: History, t: Table, image: nat, e: Event, t': Table)
    requires Explains(h, t) && t'.now == t.now && t.nextToken <= t'.nextToken
    requires forall i :: i != image ==> Lookup(t', i) == Lookup(t, i)
    requires Shows(Step(Exec(RunOf(h, t, image)), e), t', image)
    ensures Explains(Extended(h, t, image, e), t')
  {
    ExecStep(RunOf(h, t, image), e);
    ExplainsRun(h, t, image, RunOf(h, t, image) + [e], t');
  }

  /** An event on every image. */
  lemma ExplainsAll(h: History, t: Table, e: Event, t': Table)
    requires Explains(h, t) && t'.now >= 0 && t'.rows.Keys == t.rows.Keys
    requires forall image :: image in h ==> Shows(Step(Exec(h[image]), e), t', image)
    ensures Explains(ExtendedAll(h, e), t')
  {
    forall image | image in h ensures Shows(Exec(h[image] + [e]), t', image) {
      ExecStep(h[image], e);
    }
  }

  // ----- transactions -----------------------------------------------------------------

  function UpsertTable(t: Table, image: nat, revision: nat, payload: string): Table {
    t.(rows := t.rows[image := UpsertRow(Lookup(t, image), revision, payload, t.now)])
  }

  lemma UpsertExplained(h: History, t: Table, image: nat, revision: nat, payload: string)
    requires Explains(h, t)
    ensures Explains(Extended(h, t, image, Upsert(revision, payload)), UpsertTable(t, image, revision, payload))
  {
    RunShows(h, t, image);
    ExplainsOne(h, t, image, Upsert(revision, payload), UpsertTable(t, image, revision, payload));
  }

  function SweepTable(t: Table): Table {
    t.(rows := map i | i in t.rows :: SweptRow(t.rows[i], t.now))
  }

  lemma SweepExplained(h: History, t: Table)
    requires Explains(h, t)
    ensures Explains(ExtendedAll(h, Sweep), SweepTable(t))
  {
    forall image | image in h ensures Shows(Step(Exec(h[image]), Sweep), SweepTable(t), image) {
      assert Shows(Exec(h[image]), t, image);
    }
    ExplainsAll(h, t, Sweep, SweepTable(t));
  }

  function LeaseTable(t: Table, image: nat, leaseUntil: int): Table
    requires image in t.rows
  {
    t.(rows := t.rows[image := ClaimedRow(t.rows[image], t.nextToken, leaseUntil)], nextToken := t.nextToken + 1)
  }

  lemma LeaseExplained(h: History, t: Table, image: nat, leaseUntil: int)
    requires Explains(h, t) && image in t.rows && Claimable(t.rows[image], t.now)
    ensures Explains(Extended(h, t, image, Claim(t.nextToken, leaseUntil)), LeaseTable(t, image, leaseUntil))
    ensures Claims(Exec(RunOf(h, t, image)), t.nextToken)
  {
    RunShows(h, t, image);
    ExplainsOne(h, t, image, Claim(t.nextToken, leaseUntil), LeaseTable(t, image, leaseUntil));
  }

  function CompleteTable(t: Table, image: nat, revision: nat, token: nat): Table {
    if image in t.rows && HeldBy(t.rows[image], revision, token) then t.(rows := t.rows - {image}) else t
  }

  function RetryTable(t: Table, image: nat, revision: nat, token: nat, next: int, error: string): Table {
    if image in t.rows && HeldBy(t.rows[image], revision, token)
    then t.(rows := t.rows[image := RetriedRow(t.rows[image], next, error)]) else t
  }

  /** The worker of `token` has its answer. */
  ghost predicate Answered(h: History, t: Table, image: nat, token: nat) {
    token !in Exec(RunOf(h, t, image)).inFlight
  }

  lemma CompleteExplained(h: History, t: Table, image: nat, revision: nat, token: nat)
    requires Explains(h, t) && Answered(h, t, image, token)
    ensures Explains(Extended(h, t, image, Complete(revision, token)), CompleteTable(t, image, revision, token))
    ensures CompleteTable(t, image, revision, token) != t <==> Completes(Exec(RunOf(h, t, image)), revision, token)
  {
    RunShows(h, t, image);
    ExplainsOne(h, t, image, Complete(revision, token), CompleteTable(t, image, revision, token));
  }

  lemma RetryExplained(h: History, t: Table, image: nat, revision: nat, token: nat, next: int, error: string)
    requires Explains(h, t)
    ensures Explains(Extended(h, t, image, Retry(revision, token, next, error)), RetryTable(t, image, revision, token, next, error))
  {
    RunShows(h, t, image);
    ExplainsOne(h, t, image, Retry(revision, token, next, error), RetryTable(t, image, revision, token, next, error));
  }

  lemma TickExplained(h: History, t: Table, to: int)
    requires Explains(h, t)
    ensures Explains(ExtendedAll(h, Tick(to)), t.(now := H.Max(t.now, to)))
  {
    var t' := t.(now := H.Max(t.now, to));
    forall image | image in h ensures Shows(Step(Exec(h[image]), Tick(to)), t', image) {
      assert Shows(Exec(h[image]), t, image);
    }
    ExplainsAll(h, t, Tick(to), t');
  }

  lemma AnswerExplained(h: History, t: Table, image: nat, token: nat)
    requires Explains(h, t)
    ensures Explains(Extended(h, t, image, Answer(token)), t)
  {
    RunShows(h, t, image);
    ExplainsOne(h, t, image, Answer(token), t);
  }

  // ----- the store ----------------------------------------------------------------------

  class Outbox {
    var t: Table
    ghost var h: History

    ghost predicate Valid()
      reads this
    {
      Explains(h, t)
    }

    constructor ()
      ensures Valid() && h == map[]
    {
      t, h := Table(0, map[], 0), map[];
    }

    method Advance(to: int)
      requires Valid()
      modifies this
      ensures Valid() && h == ExtendedAll(old(h), Tick(to)) && t.now == H.Max(old(t).now, to)
    {
      TickExplained(h, t, to);
      h := ExtendedAll(h, Tick(to));
      t := t.(now := H.Max(t.now, to));
    }

    /** The worker hears back from the presentation server. */
    ghost method Hear(image: nat, token: nat)
      requires Valid()
      modifies this`h
      ensures Valid() && h == Extended(old(h), t, image, Answer(token))
    {
      AnswerExplained(h, t, image, token);
      h := Extended(h, t, image, Answer(token));
    }

    method Upsert(image: nat, revision: nat, payload: string)
      requires Valid()
      modifies this
      ensures Valid() && h == Extended(old(h), old(t), image, Event.Upsert(revision, payload))
    {
      UpsertExplained(h, t, image, revision, payload);
      h := Extended(h, t, image, Event.Upsert(revision, payload));
      var r := InsertedRow(revision, payload, t.now);
      if image in t.rows { r := AssignColumns(t.rows[image], revision, payload, t.now); }
      t := t.(rows := t.rows[image := r]);
    }

    /** ORDER BY next_attempt_at LIMIT 1 over the claimable rows. */
    method SelectForUpdate() returns (found: Option<nat>)
      ensures found.None? ==> forall i :: i in t.rows ==> !Claimable(t.rows[i], t.now)
      ensures found.Some? ==>
        && found.value in t.rows && Claimable(t.rows[found.value], t.now)
        && forall i :: i in t.rows && Claimable(t.rows[i], t.now) ==> t.rows[found.value].nextAttemptAt <= t.rows[i].nextAttemptAt
    {
      var rest := t.rows.Keys;
      found := None;
      while rest != {}
        invariant rest <= t.rows.Keys
        invariant found.None? ==> forall i :: i in t.rows && i !in rest ==> !Claimable(t.rows[i], t.now)
        invariant found.Some? ==>
          && found.value in t.rows && Claimable(t.rows[found.value], t.now)
          && forall i :: i in t.rows && i !in rest && Claimable(t.rows[i], t.now) ==>
               t.rows[found.value].nextAttemptAt <= t.rows[i].nextAttemptAt
        decreases rest
      {
        var i :| i in rest;
        if Claimable(t.rows[i], t.now) && (found.None? || t.rows[i].nextAttemptAt < t.rows[found.value].nextAttemptAt) {
          found := Some(i);
        }
        rest := rest - {i};
      }
    }

    /**
     The claim transaction: every row is swept, then an earliest due one is leased
     under a new token; nothing is leased only when nothing is claimable.
     */
    method ClaimNext(leaseUntil: int) returns (claimed: Option<nat>)
      requires Valid()
      modifies this
      ensures Valid()
      ensures claimed.None? ==> h == ExtendedAll(old(h), Sweep) && forall i :: i in t.rows ==> !Claimable(t.rows[i], t.now)
      ensures claimed.Some? ==>
        && claimed.value in old(h) && Claims(Exec(old(h)[claimed.value] + [Sweep]), old(t).nextToken)
        && h == ExtendedAll(old(h), Sweep)[claimed.value := old(h)[claimed.value] + [Sweep] + [Claim(old(t).nextToken, leaseUntil)]]
    {
      SweepExplained(h, t);
      h := ExtendedAll(h, Sweep);
      t := SweepTable(t);
      claimed := SelectForUpdate();
      if claimed.Some? {
        LeaseExplained(h, t, claimed.value, leaseUntil);
        h := Extended(h, t, claimed.value, Claim(t.nextToken, leaseUntil));
        t := LeaseTable(t, claimed.value, leaseUntil);
      }
    }

    /** Called once the worker has its answer; only the holder of this revision removes the row. */
    method Complete(image: nat, revision: nat, token: nat) returns (affected: bool)
      requires Valid() && Answered(h, t, image, token)
      modifies this
      ensures Valid() && h == Extended(old(h), old(t), image, Event.Complete(revision, token))
      ensures affected <==> Completes(Exec(RunOf(old(h), old(t), image)), revision, token)
    {
      CompleteExplained(h, t, image, revision, token);
      h := Extended(h, t, image, Event.Complete(revision, token));
      affected := image in t.rows && HeldBy(t.rows[image], revision, token);
      if affected { t := t.(rows := t.rows - {image}); }
    }

    /** Called on any error, with or without an answer. */
    method Retry(image: nat, revision: nat, token: nat, next: int, error: string) returns (affected: bool)
      requires Valid()
      modifies this
      ensures Valid() && h == Extended(old(h), old(t), image, Event.Retry(revision, token, next, error))
      ensures affected <==> Holds(Exec(RunOf(old(h), old(t), image)), revision, token)
    {
      RunShows(h, t, image);
      RetryExplained(h, t, image, revision, token, next, error);
      h := Extended(h, t, image, Event.Retry(revision, token, next, error));
      affected := image in t.rows && HeldBy(t.rows[image], revision, token);
      if affected { t := t.(rows := t.rows[image := RetriedRow(t.rows[image], next, error)]); }
    }
  }
}
