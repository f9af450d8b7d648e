/**
 The cleanup outbox as one table of many resources.  Every resource's row is what
 its own run leads to, so what is proved about runs holds of the store's
 transactions.
 */
module CleanupTable {
  import opened Nullable
  import opened CleanupOutbox
  import H = LeaseHorizon

  type Key = (Kind, string)

  datatype Table = Table(now: int, rows: map<Key, Row>, nextToken: nat, nextId: nat)

  /** For each resource ever enqueued, the run its row has been through. */
  type History = map<Key, seq<Event>>

  function Lookup(t: Table, k: Key): Option<Row> {
    if k in t.rows then Some(t.rows[k]) else None
  }

  predicate Shows(s: State, t: Table, k: Key) {
    && s.now == t.now && s.kind == k.0 && s.row == Lookup(t, k)
    && s.nextToken <= t.nextToken && s.nextId <= t.nextId
  }

  ghost predicate Explains(h: History, t: Table) {
    && t.now >= 0 && t.nextId >= 1 && t.rows.Keys <= h.Keys
    && forall k :: k in h ==> Shows(Exec(k.0, h[k]), t, k)
  }

  /** A resource never enqueued has only seen time pass. */
  function RunOf(h: History, t: Table, k: Key): seq<Event> {
    if k in h then h[k] else [Tick(t.now)]
  }

  function StateOf(h: History, t: Table, k: Key): State {
    Exec(k.0, RunOf(h, t, k))
  }

  lemma RunShows(h: History, t: Table, k: Key)
    requires Explains(h, t)
    ensures Shows(StateOf(h, t, k), t, k)
  {
    if k !in h {
      ExecStep(k.0, [], Tick(t.now));
      assert [] + [Tick(t.now)] == [Tick(t.now)];
    }
  }

  function Extended(h: History, t: Table, k: Key, e: Event): History {
    h[k := RunOf(h, t, k) + [e]]
  }

  function ExtendedAll(h: History, e: Event): History {
    map k | k in h :: h[k] + [e]
  }

  /** A longer run of one resource, every other row as it was. */
  lemma ExplainsRun(h: History, t: Table, k: Key, run: seq<Event>, t': Table)
    requires Explains(h, t) && t'.now == t.now && t.nextToken <= t'.nextToken && t.nextId <= t'.nextId
    requires forall i :: i != k ==> Lookup(t', i) == Lookup(t, i)
    requires Shows(Exec(k.0, run), t', k)
    ensures Explains(h[k := run], t')
  {
    var h' := h[k := run];
    forall i | i in t'.rows ensures i in h' {
      if i != k { assert Lookup(t', i) == Lookup(t, i); }
    }
    forall i | i in h' ensures Shows(Exec(i.0, h'[i]), t', i) {
      if i != k { assert Shows(Exec(i.0, h[i]), t, i) && Lookup(t', i) == Lookup(t, i); }
    }
  }

  /** An event on one resource. */
  lemma ExplainsOne(h: History, t: Table, k: Key, e: Event, t': Table)
    requires Explains(h, t) && t'.now == t.now && t.nextToken <= t'.nextToken && t.nextId <= t'.nextId
    requires forall i :: i != k ==> Lookup(t', i) == Lookup(t, i)
    requires Shows(Step(StateOf(h, t, k), e), t', k)
    ensures Explains(Extended(h, t, k, e), t')
  {
    ExecStep(k.0, RunOf(h, t, k), e);
    ExplainsRun(h, t, k, RunOf(h, t, k) + [e], t');
  }

  /** An event on every resource. */
  lemma ExplainsAll(h: History, t: Table, e: Event, t': Table)
    requires Explains(h, t) && t'.now >= 0 && t'.nextId >= 1 && t'.rows.Keys == t.rows.Keys
    requires forall k :: k in h ==> Shows(Step(Exec(k.0, h[k]), e), t', k)
    ensures Explains(ExtendedAll(h, e), t')
  {
    forall k | k in h ensures Shows(Exec(k.0, h[k] + [e]), t', k) {
      ExecStep(k.0, h[k], e);
    }
  }

  // ----- transactions -----------------------------------------------------------------

  function WithRow(t: Table, k: Key, r: Row): Table {
    t.(rows := t.rows[k := r])
  }

  function UpsertTable(t: Table, k: Key, workspace: nat, bytes: nat, notBefore: int): Table {
    if k in t.rows then WithRow(t, k, RequeuedRow(t.rows[k], workspace, bytes, notBefore, t.now))
    else WithRow(t, k, InsertedRow(t.nextId, k.0, workspace, bytes, notBefore)).(nextId := t.nextId + 1)
  }

  lemma UpsertExplained(h: History, t: Table, k: Key, workspace: nat, bytes: nat, notBefore: int)
    requires Explains(h, t)
    ensures Explains(Extended(h, t, k, Upsert(t.nextId, workspace, bytes, notBefore)), UpsertTable(t, k, workspace, bytes, notBefore))
  {
    RunShows(h, t, k);
    ExplainsOne(h, t, k, Upsert(t.nextId, workspace, bytes, notBefore), UpsertTable(t, k, workspace, bytes, notBefore));
  }

  function SweepTable(t: Table): Table {
    t.(rows := map k | k in t.rows :: SweptRow(t.rows[k], t.now))
  }

  lemma SweepExplained(h: History, t: Table)
    requires Explains(h, t)
    ensures Explains(ExtendedAll(h, Sweep), SweepTable(t))
  {
    forall k | k in h ensures Shows(Step(Exec(k.0, h[k]), Sweep), SweepTable(t), k) {
      assert Shows(Exec(k.0, h[k]), t, k);
    }
    ExplainsAll(h, t, Sweep, SweepTable(t));
  }

  function LeaseTable(t: Table, k: Key, leaseUntil: int): Table
    requires k in t.rows
  {
    WithRow(t, k, ClaimedRow(t.rows[k], t.nextToken, leaseUntil)).(nextToken := t.nextToken + 1)
  }

  lemma LeaseExplained(h: History, t: Table, k: Key, leaseUntil: int)
    requires Explains(h, t) && k in t.rows && Claimable(t.rows[k], t.now)
    ensures Explains(Extended(h, t, k, Claim(t.nextToken, leaseUntil)), LeaseTable(t, k, leaseUntil))
    ensures Claims(StateOf(h, t, k), t.nextToken)
  {
    RunShows(h, t, k);
    ExplainsOne(h, t, k, Claim(t.nextToken, leaseUntil), LeaseTable(t, k, leaseUntil));
  }

  function CompleteTable(t: Table, k: Key, id: nat, generation: nat, token: nat, fenced: bool): Table {
    if k in t.rows
       && (if fenced then FencedCompletes(t.rows[k], id, generation, token) else PlainCompletes(t.rows[k], id, generation, token))
    then t.(rows := t.rows - {k}) else t
  }

  function RetryTable(t: Table, k: Key, id: nat, generation: nat, token: nat, next: int): Table {
    if k in t.rows && HeldBy(t.rows[k], id, generation, token) then WithRow(t, k, RetriedRow(t.rows[k], next)) else t
  }

  function FenceTable(t: Table, k: Key, id: nat, generation: nat, token: nat): Table {
    if k in t.rows && HeldBy(t.rows[k], id, generation, token) && t.rows[k].kind == UploadBlob
    then WithRow(t, k, FencedRow(t.rows[k], t.now)) else t
  }

  function ResizeTable(t: Table, k: Key, workspace: nat, bytes: nat, notBefore: int): Table {
    if k in t.rows && k.0 == UploadBlob then WithRow(t, k, ResizedRow(t.rows[k], workspace, bytes, notBefore)) else t
  }

  /** The worker of `token` has its answer. */
  ghost predicate Answered(h: History, t: Table, k: Key, token: nat) {
    token !in StateOf(h, t, k).inFlight
  }

  lemma CompleteExplained(h: History, t: Table, k: Key, id: nat, generation: nat, token: nat, fenced: bool)
    requires Explains(h, t) && Answered(h, t, k, token)
    ensures Explains(Extended(h, t, k, Complete(id, generation, token, fenced)), CompleteTable(t, k, id, generation, token, fenced))
    ensures CompleteTable(t, k, id, generation, token, fenced) != t <==> Completes(StateOf(h, t, k), id, generation, token, fenced)
  {
    RunShows(h, t, k);
    ExplainsOne(h, t, k, Complete(id, generation, token, fenced), CompleteTable(t, k, id, generation, token, fenced));
  }

  lemma RetryExplained(h: History, t: Table, k: Key, id: nat, generation: nat, token: nat, next: int)
    requires Explains(h, t)
    ensures Explains(Extended(h, t, k, Retry(id, generation, token, next)), RetryTable(t, k, id, generation, token, next))
  {
    RunShows(h, t, k);
    ExplainsOne(h, t, k, Retry(id, generation, token, next), RetryTable(t, k, id, generation, token, next));
  }

  lemma FenceExplained(h: History, t: Table, k: Key, id: nat, generation: nat, token: nat)
    requires Explains(h, t)
    ensures Explains(Extended(h, t, k, Fence(id, generation, token)), FenceTable(t, k, id, generation, token))
  {
    RunShows(h, t, k);
    RunRefines(k.0, RunOf(h, t, k));
    ExplainsOne(h, t, k, Fence(id, generation, token), FenceTable(t, k, id, generation, token));
  }

  lemma ResizeExplained(h: History, t: Table, k: Key, workspace: nat, bytes: nat, notBefore: int)
    requires Explains(h, t)
    ensures Explains(Extended(h, t, k, Resize(workspace, bytes, notBefore)), ResizeTable(t, k, workspace, bytes, notBefore))
  {
    RunShows(h, t, k);
    ExplainsOne(h, t, k, Resize(workspace, bytes, notBefore), ResizeTable(t, k, workspace, bytes, notBefore));
  }

  lemma DropExplained(h: History, t: Table, k: Key)
    requires Explains(h, t)
    ensures Explains(Extended(h, t, k, Drop), t.(rows := t.rows - {k}))
  {
    RunShows(h, t, k);
    ExplainsOne(h, t, k, Drop, t.(rows := t.rows - {k}));
  }

  lemma TickExplained(h: History, t: Table, to: int)
    requires Explains(h, t)
    ensures Explains(ExtendedAll(h, Tick(to)), t.(now := H.Max(t.now, to)))
  {
    var t' := t.(now := H.Max(t.now, to));
    forall k | k in h ensures Shows(Step(Exec(k.0, h[k]), Tick(to)), t', k) {
      assert Shows(Exec(k.0, h[k]), t, k);
    }
    ExplainsAll(h, t, Tick(to), t');
  }

  lemma AnswerExplained(h: History, t: Table, k: Key, token: nat)
    requires Explains(h, t)
    ensures Explains(Extended(h, t, k, Answer(token)), t)
  {
    RunShows(h, t, k);
    ExplainsOne(h, t, k, Answer(token), t);
  }

  // ----- the store ----------------------------------------------------------------------

  class Outbox {
    var t: Table
    ghost var h: History

    ghost predicate Valid()
      reads this
    {
      Explains(h, t)
    }

    constructor ()
      ensures Valid() && h == map[]
    {
      t, h := Table(0, map[], 0, 1), map[];
    }

    method Advance(to: int)
      requires Valid()
      modifies this
      ensures Valid() && h == ExtendedAll(old(h), Tick(to)) && t.now == H.Max(old(t).now, to)
    {
      TickExplained(h, t, to);
      h := ExtendedAll(h, Tick(to));
      t := t.(now := H.Max(t.now, to));
    }

    /** The worker hears back about its deletion. */
    ghost method Hear(k: Key, token: nat)
      requires Valid()
      modifies this`h
      ensures Valid() && h == Extended(old(h), t, k, Answer(token))
    {
      AnswerExplained(h, t, k, token);
      h := Extended(h, t, k, Answer(token));
    }

    method Upsert(k: Key, workspace: nat, bytes: nat, notBefore: int)
      requires Valid()
      modifies this
      ensures Valid() && h == Extended(old(h), old(t), k, Event.Upsert(old(t).nextId, workspace, bytes, notBefore))
    {
      UpsertExplained(h, t, k, workspace, bytes, notBefore);
      h := Extended(h, t, k, Event.Upsert(t.nextId, workspace, bytes, notBefore));
      if k in t.rows {
        var r := AssignColumns(t.rows[k], workspace, bytes, notBefore, t.now);
        t := WithRow(t, k, r);
      } else {
        t := WithRow(t, k, InsertedRow(t.nextId, k.0, workspace, bytes, notBefore)).(nextId := t.nextId + 1);
      }
    }

    /** ORDER BY next_attempt_at LIMIT 1 over the claimable rows. */
    method SelectForUpdate() returns (found: Option<Key>)
      ensures found.None? ==> forall k :: k in t.rows ==> !Claimable(t.rows[k], t.now)
      ensures found.Some? ==>
        && found.value in t.rows && Claimable(t.rows[found.value], t.now)
        && forall k :: k in t.rows && Claimable(t.rows[k], t.now) ==> t.rows[found.value].nextAttemptAt <= t.rows[k].nextAttemptAt
    {
      var rest := t.rows.Keys;
      found := None;
      while rest != {}
        invariant rest <= t.rows.Keys
        invariant found.None? ==> forall k :: k in t.rows && k !in rest ==> !Claimable(t.rows[k], t.now)
        invariant found.Some? ==>
          && found.value in t.rows && Claimable(t.rows[found.value], t.now)
          && forall k :: k in t.rows && k !in rest && Claimable(t.rows[k], t.now) ==>
               t.rows[found.value].nextAttemptAt <= t.rows[k].nextAttemptAt
        decreases rest
      {
        var k :| k in rest;
        if Claimable(t.rows[k], t.now) && (found.None? || t.rows[k].nextAttemptAt < t.rows[found.value].nextAttemptAt) {
          found := Some(k);
        }
        rest := rest - {k};
      }
    }

    /**
     The claim transaction: every row is swept, then an earliest due one is leased
     under a new token; nothing is leased only when nothing is claimable.
     */
    method ClaimNext(leaseUntil: int) returns (claimed: Option<Key>)
      requires Valid()
      modifies this
      ensures Valid()
      ensures claimed.None? ==> h == ExtendedAll(old(h), Sweep) && forall k :: k in t.rows ==> !Claimable(t.rows[k], t.now)
      ensures claimed.Some? ==>
        && claimed.value in old(h) && Claims(Exec(claimed.value.0, old(h)[claimed.value] + [Sweep]), old(t).nextToken)
        && h == ExtendedAll(old(h), Sweep)[claimed.value := old(h)[claimed.value] + [Sweep] + [Claim(old(t).nextToken, leaseUntil)]]
    {
      SweepExplained(h, t);
      h := ExtendedAll(h, Sweep);
      t := SweepTable(t);
      claimed := SelectForUpdate();
      if claimed.Some? {
        LeaseExplained(h, t, claimed.value, leaseUntil);
        h := Extended(h, t, claimed.value, Claim(t.nextToken, leaseUntil));
        t := LeaseTable(t, claimed.value, leaseUntil);
      }
    }

    /** Called once the worker has its answer: both completion statements, picked by what it did with the blob. */
    method Complete(k: Key, id: nat, generation: nat, token: nat, fenced: bool) returns (affected: bool)
      requires Valid() && Answered(h, t, k, token)
      modifies this
      ensures Valid() && h == Extended(old(h), old(t), k, Event.Complete(id, generation, token, fenced))
      ensures affected <==> Completes(StateOf(old(h), old(t), k), id, generation, token, fenced)
    {
      CompleteExplained(h, t, k, id, generation, token, fenced);
      h := Extended(h, t, k, Event.Complete(id, generation, token, fenced));
      affected := k in t.rows &&
        (if fenced then FencedCompletes(t.rows[k], id, generation, token) else PlainCompletes(t.rows[k], id, generation, token));
      if affected { t := t.(rows := t.rows - {k}); }
    }

    /** Called on any error, with or without an answer. */
    method Retry(k: Key, id: nat, generation: nat, token: nat, next: int) returns (affected: bool)
      requires Valid()
      modifies this
      ensures Valid() && h == Extended(old(h), old(t), k, Event.Retry(id, generation, token, next))
      ensures affected <==> Holds(StateOf(old(h), old(t), k), id, generation, token)
    {
      RunShows(h, t, k);
      RetryExplained(h, t, k, id, generation, token, next);
      h := Extended(h, t, k, Event.Retry(id, generation, token, next));
      affected := k in t.rows && HeldBy(t.rows[k], id, generation, token);
      if affected { t := WithRow(t, k, RetriedRow(t.rows[k], next)); }
    }

    method Fence(k: Key, id: nat, generation: nat, token: nat) returns (affected: bool)
      requires Valid()
      modifies this
      ensures Valid() && h == Extended(old(h), old(t), k, Event.Fence(id, generation, token))
      ensures affected ==> k in t.rows && t.rows[k].deleteFencedAt.Some? && k in old(t).rows && HeldBy(old(t).rows[k], id, generation, token)
    {
      FenceExplained(h, t, k, id, generation, token);
      h := Extended(h, t, k, Event.Fence(id, generation, token));
      affected := k in t.rows && HeldBy(t.rows[k], id, generation, token) && t.rows[k].kind == UploadBlob;
      if affected { t := WithRow(t, k, FencedRow(t.rows[k], t.now)); }
    }

    method Resize(key: string, workspace: nat, bytes: nat, notBefore: int)
      requires Valid()
      modifies this
      ensures Valid() && h == Extended(old(h), old(t), (UploadBlob, key), Event.Resize(workspace, bytes, notBefore))
    {
      var k := (UploadBlob, key);
      ResizeExplained(h, t, k, workspace, bytes, notBefore);
      h := Extended(h, t, k, Event.Resize(workspace, bytes, notBefore));
      if k in t.rows { t := WithRow(t, k, ResizedRow(t.rows[k], workspace, bytes, notBefore)); }
    }

    method Delete(k: Key) returns (affected: bool)
      requires Valid()
      modifies this
      ensures Valid() && h == Extended(old(h), old(t), k, Drop) && affected == (k in old(t).rows)
    {
      DropExplained(h, t, k);
      h := Extended(h, t, k, Drop);
      affected := k in t.rows;
      t := t.(rows := t.rows - {k});
    }
  }
}
