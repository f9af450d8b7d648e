/** Creating, deleting and reconciling provider secrets, call by call. */
module ProviderSecretManager {
  import opened Nullable
  import opened ProviderSecrets

  /** How a call to the database or to Vault ends: a failed one may have taken effect all the same. */
  datatype Call = Done | FailsBefore | FailsAfter

  predicate Applies(c: Call) {
    c != FailsBefore
  }

  /** The calls of one cleanup attempt: mark the row, delete the material, delete the row. */
  datatype Cleanup = Cleanup(mark: Call, vault: Call, drop: Call)

  /** The calls of one create request; `cleanup` is tried when the write fails. */
  datatype Creation = Creation(insert: Call, write: Call, activate: Call, cleanup: Cleanup)

  function RowOf(rows: map<nat, Lifecycle>, id: nat): Option<Lifecycle> {
    if id in rows then Some(rows[id]) else None
  }

  /** What a cleanup attempt leaves of a candidate row. */
  function RowAfter(l: Lifecycle, f: Cleanup): Option<Lifecycle> {
    if l == PendingWrite && f.mark != Done then Some(if Applies(f.mark) then CleanupPending else PendingWrite)
    else if f.vault != Done || !Applies(f.drop) then Some(CleanupPending)
    else None
  }

  predicate MaterialSpared(l: Lifecycle, f: Cleanup) {
    (l == PendingWrite && f.mark != Done) || !Applies(f.vault)
  }

  /** Every call made reports success. */
  predicate Succeeds(l: Lifecycle, f: Cleanup) {
    (l == PendingWrite ==> f.mark == Done) && f.vault == Done && f.drop == Done
  }

  /** The row is gone although its deletion reported a failure. */
  predicate GoneUnreported(l: Lifecycle, f: Cleanup) {
    (l == PendingWrite ==> f.mark == Done) && f.vault == Done && f.drop == FailsAfter
  }

  predicate Replied(c: Creation) {
    c.insert == Done && c.write == Done && c.activate == Done
  }

  /** What a create request leaves of its row. */
  function RowCreated(c: Creation): Option<Lifecycle> {
    if !Applies(c.insert) then None
    else if c.insert == FailsAfter then Some(PendingWrite)
    else if c.write != Done then RowAfter(PendingWrite, c.cleanup)
    else Some(if Applies(c.activate) then Active else PendingWrite)
  }

  predicate MaterialCreated(c: Creation) {
    && c.insert == Done && Applies(c.write)
    && (c.write != Done ==> MaterialSpared(PendingWrite, c.cleanup))
  }

  /** What is left of a create request, in terms of which of its calls failed and how. */
  lemma CreationExactly(c: Creation)
    ensures RowCreated(c).None? <==>
      || c.insert == FailsBefore
      || (c.insert == Done && c.write != Done && c.cleanup.mark == Done && c.cleanup.vault == Done && c.cleanup.drop != FailsBefore)
    ensures RowCreated(c) == Some(Active) <==> c.insert == Done && c.write == Done && c.activate != FailsBefore
    ensures RowCreated(c) == Some(CleanupPending) <==>
      && c.insert == Done && c.write != Done && c.cleanup.mark != FailsBefore
      && (c.cleanup.mark == FailsAfter || c.cleanup.vault != Done || c.cleanup.drop == FailsBefore)
    ensures MaterialCreated(c) <==>
      && c.insert == Done
      && (c.write == Done || (c.write == FailsAfter && (c.cleanup.mark != Done || c.cleanup.vault == FailsBefore)))
  {
  }

  /** A request that got its reply left an active row with its material; one whose row is gone left none. */
  lemma CreationNeverStrays(c: Creation)
    ensures Replied(c) ==> RowCreated(c) == Some(Active) && MaterialCreated(c)
    ensures MaterialCreated(c) ==> RowCreated(c).Some?
    ensures RowCreated(c) == Some(Active) ==> MaterialCreated(c)
    ensures RowCreated(c) == Some(CleanupPending) && c.cleanup.mark == Done && MaterialCreated(c) ==> c.cleanup.vault == FailsBefore
  {
  }

  /** What a cleanup attempt leaves: the row goes last, and only after the material. */
  lemma CleanupExactly(l: Lifecycle, f: Cleanup)
    requires l == PendingWrite || l == CleanupPending
    ensures RowAfter(l, f).None? <==> (l == PendingWrite ==> f.mark == Done) && f.vault == Done && f.drop != FailsBefore
    ensures RowAfter(l, f) == Some(PendingWrite) <==> l == PendingWrite && f.mark == FailsBefore
    ensures RowAfter(l, f) != Some(Active)
    ensures MaterialSpared(l, f) <==> f.vault == FailsBefore || (l == PendingWrite && f.mark != Done)
    ensures RowAfter(l, f).None? ==> !MaterialSpared(l, f)
    ensures Succeeds(l, f) ==> RowAfter(l, f).None?
    ensures RowAfter(l, f).None? <==> Succeeds(l, f) || GoneUnreported(l, f)
  {
  }

  function SetRow(rows: map<nat, Lifecycle>, id: nat, l: Option<Lifecycle>): map<nat, Lifecycle> {
    if l.Some? then rows[id := l.value] else rows - {id}
  }

  /** The candidates are distinct rows of the table. */
  predicate Batch(rows: map<nat, Lifecycle>, locators: map<nat, Locator>, candidates: seq<nat>, faults: seq<Cleanup>) {
    && |candidates| == |faults|
    && (forall id :: id in candidates ==> id in rows && id in locators)
    && forall i, j :: 0 <= i < j < |candidates| ==> candidates[i] != candidates[j]
  }

  /** Each candidate is tried once, in order, on what the query returned. */
  function RowsAfter(rows: map<nat, Lifecycle>, candidates: seq<nat>, faults: seq<Cleanup>, n: nat): map<nat, Lifecycle>
    requires n <= |candidates| == |faults| && forall id :: id in candidates ==> id in rows
  {
    if n == 0 then rows
    else SetRow(RowsAfter(rows, candidates, faults, n - 1), candidates[n - 1], RowAfter(rows[candidates[n - 1]], faults[n - 1]))
  }

  function VaultAfter(vault: set<string>, rows: map<nat, Lifecycle>, locators: map<nat, Locator>,
                      candidates: seq<nat>, faults: seq<Cleanup>, n: nat): set<string>
    requires n <= |candidates| == |faults| && forall id :: id in candidates ==> id in rows && id in locators
  {
    if n == 0 then vault
    else
      var rest := VaultAfter(vault, rows, locators, candidates, faults, n - 1);
      if MaterialSpared(rows[candidates[n - 1]], faults[n - 1]) then rest else rest - {locators[candidates[n - 1]].path}
  }

  function Successes(rows: map<nat, Lifecycle>, candidates: seq<nat>, faults: seq<Cleanup>, n: nat): nat
    requires n <= |candidates| == |faults| && forall id :: id in candidates ==> id in rows
  {
    if n == 0 then 0
    else Successes(rows, candidates, faults, n - 1) + if Succeeds(rows[candidates[n - 1]], faults[n - 1]) then 1 else 0
  }

  lemma {:induction false} AllSucceed(rows: map<nat, Lifecycle>, candidates: seq<nat>, faults: seq<Cleanup>, n: nat)
    requires n <= |candidates| == |faults| && forall id :: id in candidates ==> id in rows
    ensures Successes(rows, candidates, faults, n) <= n
    ensures Successes(rows, candidates, faults, n) == n <==> forall i :: 0 <= i < n ==> Succeeds(rows[candidates[i]], faults[i])
  {
    if n > 0 { AllSucceed(rows, candidates, faults, n - 1); }
  }

  /** One candidate's failure never disturbs another's cleanup, and no other row is touched. */
  lemma {:induction false} BatchRows(rows: map<nat, Lifecycle>, locators: map<nat, Locator>, candidates: seq<nat>, faults: seq<Cleanup>, n: nat, id: nat)
    requires Batch(rows, locators, candidates, faults) && n <= |candidates|
    ensures forall i :: 0 <= i < n && candidates[i] == id ==>
      RowOf(RowsAfter(rows, candidates, faults, n), id) == RowAfter(rows[id], faults[i])
    ensures id !in candidates[..n] ==> RowOf(RowsAfter(rows, candidates, faults, n), id) == RowOf(rows, id)
  {
    if n > 0 { BatchRows(rows, locators, candidates, faults, n - 1, id); }
  }

  lemma {:induction false} BatchVault(vault: set<string>, rows: map<nat, Lifecycle>, locators: map<nat, Locator>,
                                      candidates: seq<nat>, faults: seq<Cleanup>, n: nat, p: string)
    requires Batch(rows, locators, candidates, faults) && n <= |candidates|
    ensures p in VaultAfter(vault, rows, locators, candidates, faults, n) <==>
      (p in vault && forall i :: 0 <= i < n && locators[candidates[i]].path == p ==> MaterialSpared(rows[candidates[i]], faults[i]))
  {
    if n > 0 { BatchVault(vault, rows, locators, candidates, faults, n - 1, p); }
  }

  /** A pass without faults removes exactly the candidates and exactly their material. */
  lemma CleanPassRemovesAll(vault: set<string>, rows: map<nat, Lifecycle>, locators: map<nat, Locator>, candidates: seq<nat>, faults: seq<Cleanup>)
    requires Batch(rows, locators, candidates, faults)
    requires Successes(rows, candidates, faults, |candidates|) == |candidates|
    ensures RowsAfter(rows, candidates, faults, |candidates|).Keys == rows.Keys - set id | id in candidates
    ensures VaultAfter(vault, rows, locators, candidates, faults, |candidates|)
         == vault - set id | id in candidates :: locators[id].path
  {
    var n := |candidates|;
    AllSucceed(rows, candidates, faults, n);
    assert candidates[..n] == candidates;
    forall id ensures id in RowsAfter(rows, candidates, faults, n) <==> id in rows && id !in candidates {
      BatchRows(rows, locators, candidates, faults, n, id);
      if id in candidates {
        var i :| 0 <= i < n && candidates[i] == id;
        assert RowOf(RowsAfter(rows, candidates, faults, n), id) == RowAfter(rows[id], faults[i]);
      }
    }
    forall p ensures p in VaultAfter(vault, rows, locators, candidates, faults, n)
                <==> p in vault && p !in set id | id in candidates :: locators[id].path
    {
      BatchVault(vault, rows, locators, candidates, faults, n, p);
      if p in set id | id in candidates :: locators[id].path {
        var id :| id in candidates && locators[id].path == p;
        var i :| 0 <= i < n && candidates[i] == id;
        assert locators[candidates[i]].path == p && Succeeds(rows[candidates[i]], faults[i]);
      }
    }
  }

  /** How many of the first n rows are gone although their deletion reported a failure. */
  function Unreported(rows: map<nat, Lifecycle>, candidates: seq<nat>, faults: seq<Cleanup>, n: nat): nat
    requires n <= |candidates| == |faults| && forall id :: id in candidates ==> id in rows
  {
    if n == 0 then 0
    else Unreported(rows, candidates, faults, n - 1) + if GoneUnreported(rows[candidates[n - 1]], faults[n - 1]) then 1 else 0
  }

  lemma {:induction false} NoneUnreported(rows: map<nat, Lifecycle>, candidates: seq<nat>, faults: seq<Cleanup>, n: nat)
    requires n <= |candidates| == |faults| && forall id :: id in candidates ==> id in rows
    ensures Unreported(rows, candidates, faults, n) == 0 <==> forall i :: 0 <= i < n ==> !GoneUnreported(rows[candidates[i]], faults[i])
  {
    if n > 0 { NoneUnreported(rows, candidates, faults, n - 1); }
  }

  /** Until its turn comes, a candidate's row is as the query returned it. */
  lemma CandidateWaits(rows: map<nat, Lifecycle>, locators: map<nat, Locator>, candidates: seq<nat>, faults: seq<Cleanup>, n: nat)
    requires Batch(rows, locators, candidates, faults) && n < |candidates|
    ensures RowOf(RowsAfter(rows, candidates, faults, n), candidates[n]) == Some(rows[candidates[n]])
  {
    BatchRows(rows, locators, candidates, faults, n, candidates[n]);
    assert candidates[n] !in candidates[..n];
  }

  /** Rows left, rows reported removed and rows removed without a report. */
  predicate Accounted(total: nat, left: map<nat, Lifecycle>, reported: nat, unreported: nat) {
    |left| + reported + unreported == total
  }

  lemma CandidateAccounted(total: nat, left: map<nat, Lifecycle>, reported: nat, unreported: nat, id: nat, l: Lifecycle, f: Cleanup)
    requires id in left && Accounted(total, left, reported, unreported)
    ensures Accounted(total, SetRow(left, id, RowAfter(l, f)),
      reported + (if Succeeds(l, f) then 1 else 0), unreported + (if GoneUnreported(l, f) then 1 else 0))
  {
    SetRowSize(left, id, RowAfter(l, f));
  }

  ghost predicate BatchAccounted(rows: map<nat, Lifecycle>, candidates: seq<nat>, faults: seq<Cleanup>, n: nat)
    requires n <= |candidates| == |faults| && forall id :: id in candidates ==> id in rows
  {
    Accounted(|rows|, RowsAfter(rows, candidates, faults, n), Successes(rows, candidates, faults, n), Unreported(rows, candidates, faults, n))
  }

  lemma NextAccounted(rows: map<nat, Lifecycle>, candidates: seq<nat>, faults: seq<Cleanup>, n: nat)
    requires n < |candidates| == |faults| && forall id :: id in candidates ==> id in rows
    requires BatchAccounted(rows, candidates, faults, n) && candidates[n] in RowsAfter(rows, candidates, faults, n)
    ensures BatchAccounted(rows, candidates, faults, n + 1)
  {
    CandidateAccounted(|rows|, RowsAfter(rows, candidates, faults, n), Successes(rows, candidates, faults, n),
                       Unreported(rows, candidates, faults, n), candidates[n], rows[candidates[n]], faults[n]);
  }

  lemma RowsAccounted(rows: map<nat, Lifecycle>, locators: map<nat, Locator>, candidates: seq<nat>, faults: seq<Cleanup>)
    requires Batch(rows, locators, candidates, faults)
    ensures BatchAccounted(rows, candidates, faults, |candidates|)
  {
    for n := 0 to |candidates|
      invariant BatchAccounted(rows, candidates, faults, n)
    {
      CandidateWaits(rows, locators, candidates, faults, n);
      NextAccounted(rows, candidates, faults, n);
    }
  }

  /** The reported count never exceeds the rows removed, and equals it exactly when no deletion's reply was lost. */
  lemma CountedExactly(rows: map<nat, Lifecycle>, locators: map<nat, Locator>, candidates: seq<nat>, faults: seq<Cleanup>)
    requires Batch(rows, locators, candidates, faults)
    ensures
      var removed := |rows| - |RowsAfter(rows, candidates, faults, |candidates|)|;
      var reported := Successes(rows, candidates, faults, |candidates|);
      && reported <= removed
      && (reported == removed <==> forall i :: 0 <= i < |candidates| ==> !GoneUnreported(rows[candidates[i]], faults[i]))
  {
    RowsAccounted(rows, locators, candidates, faults);
    NoneUnreported(rows, candidates, faults, |candidates|);
  }

  lemma InsertedThenSet(rows: map<nat, Lifecycle>, id: nat, l: Option<Lifecycle>)
    requires id !in rows
    ensures SetRow(rows[id := PendingWrite], id, l) == SetRow(rows, id, l)
    ensures SetRow(rows, id, None) == rows && SetRow(rows, id, Some(PendingWrite)) == rows[id := PendingWrite]
  {
  }

  lemma SetRowSize(rows: map<nat, Lifecycle>, id: nat, l: Option<Lifecycle>)
    requires id in rows
    ensures |SetRow(rows, id, l)| == if l.Some? then |rows| else |rows| - 1
  {
    assert SetRow(rows, id, l).Keys == if l.Some? then rows.Keys else rows.Keys - {id};
    assert |SetRow(rows, id, l)| == |SetRow(rows, id, l).Keys| && |rows| == |rows.Keys|;
  }

  /** What the candidate query may return: cleanup_pending rows and pending rows older than the grace. */
  predicate Candidate(rows: map<nat, Lifecycle>, locators: map<nat, Locator>, now: int, id: nat) {
    && id in rows && id in locators
    && (rows[id] == CleanupPending || (rows[id] == PendingWrite && locators[id].created < now - PENDING_GRACE))
  }

  lemma ExecStep(es: seq<Event>, e: Event)
    ensures Exec(es + [e]) == Step(Exec(es), e)
  {
    assert (es + [e])[..|es|] == es;
  }

  class Manager {
    var now: int
    var rows: map<nat, Lifecycle>
    var locators: map<nat, Locator>
    var vault: set<string>
    /** The protocol steps taken so far. */
    ghost var trace: seq<Event>
    /** The protocol state they lead to. */
    ghost var protocol: State

    /** The tables and Vault are where the protocol's steps put them. */
    ghost predicate Valid()
      reads this
    {
      && protocol == Exec(trace)
      && protocol.now == now && protocol.rows == rows && protocol.locators == locators && protocol.vault == vault
    }

    ghost method Take(e: Event)
      requires protocol == Exec(trace)
      modifies this`trace, this`protocol
      ensures protocol == Exec(trace) && trace == old(trace) + [e] && protocol == Step(old(protocol), e)
    {
      ExecStep(trace, e);
      trace, protocol := trace + [e], Step(protocol, e);
    }

    constructor ()
      ensures Valid() && trace == []
    {
      now, rows, locators, vault, trace, protocol := 0, map[], map[], {}, [], Empty;
    }

    /** The caller has seen this row become, or already be, cleanup_pending. */
    method CleanupTracked(id: nat, f: Cleanup) returns (ok: bool)
      requires Valid() && id in protocol.tickets && id in locators && Has(rows, id, CleanupPending)
      modifies this
      ensures Valid() && locators == old(locators) && now == old(now)
      ensures ok == Succeeds(CleanupPending, f)
      ensures rows == SetRow(old(rows), id, RowAfter(CleanupPending, f))
      ensures vault == if MaterialSpared(CleanupPending, f) then old(vault) else old(vault) - {locators[id].path}
    {
      if Applies(f.vault) {
        Take(DeleteMaterial(id));
        vault := vault - {locators[id].path};
      }
      if f.vault != Done { return false; }
      if Applies(f.drop) {
        Take(DropRow(id));
        rows := rows - {id};
      }
      return f.drop == Done;
    }

    method MarkPendingCleanup(id: nat)
      requires Valid() && Has(rows, id, PendingWrite) && Candidate(rows, locators, now, id)
      modifies this
      ensures Valid() && locators == old(locators) && now == old(now) && vault == old(vault)
      ensures rows == old(rows)[id := CleanupPending] && id in protocol.tickets
    {
      Take(ReadStale(id));
      Take(MarkStale(id));
      rows := rows[id := CleanupPending];
    }

    /** One candidate, as the reconciler read it. */
    method ReconcileOne(id: nat, f: Cleanup) returns (ok: bool)
      requires Valid() && Candidate(rows, locators, now, id)
      modifies this
      ensures Valid() && locators == old(locators) && now == old(now)
      ensures ok == Succeeds(old(rows)[id], f)
      ensures rows == SetRow(old(rows), id, RowAfter(old(rows)[id], f))
      ensures vault == if MaterialSpared(old(rows)[id], f) then old(vault) else old(vault) - {locators[id].path}
    {
      if rows[id] == PendingWrite {
        if Applies(f.mark) { MarkPendingCleanup(id); }
        if f.mark != Done { return false; }
      } else {
        Take(ReadCleanup(id));
      }
      ok := CleanupTracked(id, f);
    }

    /** Every candidate is tried once, whatever happens to the others. */
    method Reconcile(candidates: seq<nat>, faults: seq<Cleanup>) returns (cleaned: nat, err: bool)
      requires Valid() && Batch(rows, locators, candidates, faults)
      requires forall i :: 0 <= i < |candidates| ==> Candidate(rows, locators, now, candidates[i])
      modifies this
      ensures Valid() && locators == old(locators)
      ensures cleaned == Successes(old(rows), candidates, faults, |candidates|)
      ensures err <==> cleaned < |candidates|
      ensures rows == RowsAfter(old(rows), candidates, faults, |candidates|)
      ensures vault == VaultAfter(old(vault), old(rows), locators, candidates, faults, |candidates|)
    {
      cleaned := 0;
      var failed := 0;
      ghost var rows0 := rows;
      for i := 0 to |candidates|
        invariant Valid() && locators == old(locators) && now == old(now)
        invariant cleaned == Successes(rows0, candidates, faults, i) && cleaned + failed == i
        invariant rows == RowsAfter(rows0, candidates, faults, i)
        invariant vault == VaultAfter(old(vault), rows0, locators, candidates, faults, i)
      {
        var id := candidates[i];
        CandidateWaits(rows0, locators, candidates, faults, i);
        var ok := ReconcileOne(id, faults[i]);
        if ok { cleaned := cleaned + 1; } else { failed := failed + 1; }
      }
      err := failed > 0;
    }

    predicate HasRoom(workspace: nat)
      reads this
    {
      |set i | i in rows && i in locators && locators[i].workspace == workspace| < MAX_SECRETS
    }

    /** The locator is committed before any material is written. */
    method PersistLocator(id: nat, workspace: nat, path: string, insert: Call) returns (ok: bool)
      requires Valid() && id !in locators && FreshPath(protocol, path)
      modifies this
      ensures Valid() && vault == old(vault) && now == old(now)
      ensures ok <==> old(HasRoom(workspace)) && insert == Done
      ensures old(HasRoom(workspace)) && Applies(insert) ==>
        && rows == old(rows)[id := PendingWrite] && locators == old(locators)[id := Locator(workspace, path, now)]
        && id in protocol.creators && protocol.creators[id] == Ready
      ensures !(old(HasRoom(workspace)) && Applies(insert)) ==> rows == old(rows) && locators == old(locators)
    {
      assert InWorkspace(protocol, workspace) == set i | i in rows && i in locators && locators[i].workspace == workspace;
      if !HasRoom(workspace) || !Applies(insert) { return false; }
      Take(ProviderSecrets.Create(id, workspace, path));
      locators, rows := locators[id := Locator(workspace, path, now)], rows[id := PendingWrite];
      return insert == Done;
    }

    method WriteMaterial(id: nat, write: Call)
      requires Valid() && id in locators && locators[id].created == now
      requires id in protocol.creators && protocol.creators[id] == Ready
      modifies this
      ensures Valid() && locators == old(locators) && rows == old(rows) && now == old(now)
      ensures vault == if Applies(write) then old(vault) + {locators[id].path} else old(vault)
      ensures id in protocol.creators && protocol.creators[id] == if write == Done then WriteSucceeded else WriteFailed
    {
      Take(StartWrite(id));
      if Applies(write) {
        Take(Land(id));
        vault := vault + {locators[id].path};
      }
      Take(WriteReturns(id, write == Done));
    }

    /** After a failed write: no material is touched unless the row is known to be marked. */
    method ScheduleCleanup(id: nat, f: Cleanup)
      requires Valid() && id in locators && Has(rows, id, PendingWrite)
      requires id in protocol.creators && protocol.creators[id] == WriteFailed
      modifies this
      ensures Valid() && locators == old(locators)
      ensures rows == SetRow(old(rows), id, RowAfter(PendingWrite, f))
      ensures vault == if MaterialSpared(PendingWrite, f) then old(vault) else old(vault) - {locators[id].path}
    {
      if !Applies(f.mark) { return; }
      Take(AbandonWrite(id));
      rows := rows[id := CleanupPending];
      if f.mark != Done { return; }
      var _ := CleanupTracked(id, f);
    }

    /**
     Locator first, material second, activation last.  A success means an active
     row with its material.  A failure leaves an active row exactly when the
     activation took effect and only its reply was lost.  Whatever was written has
     a row that points at it.
     */
    method Create(id: nat, workspace: nat, path: string, c: Creation) returns (ok: bool)
      requires Valid() && id !in locators && id !in rows && FreshPath(protocol, path)
      modifies this
      ensures Valid() && rows - {id} == old(rows)
      ensures ok <==> old(HasRoom(workspace)) && Replied(c)
      ensures !ok && Has(rows, id, Active) <==>
        old(HasRoom(workspace)) && c.insert == Done && c.write == Done && c.activate == FailsAfter
      ensures RowOf(rows, id) == if old(HasRoom(workspace)) then RowCreated(c) else None
      ensures vault == old(vault) + if old(HasRoom(workspace)) && MaterialCreated(c) then {path} else {}
      ensures ok ==> Has(rows, id, Active) && path in vault
      ensures path in vault ==> id in rows && id in locators && locators[id].path == path
    {
      assert path !in vault by {
        RunConsistent(trace);
        NoMaterialAtFreshPath(protocol, path);
      }
      ok := CreateAt(id, workspace, path, c);
    }

    method CreateAt(id: nat, workspace: nat, path: string, c: Creation) returns (ok: bool)
      requires Valid() && id !in locators && id !in rows && FreshPath(protocol, path) && path !in vault
      modifies this
      ensures Valid()
      ensures ok <==> old(HasRoom(workspace)) && Replied(c)
      ensures rows == SetRow(old(rows), id, if old(HasRoom(workspace)) then RowCreated(c) else None)
      ensures vault == old(vault) + if old(HasRoom(workspace)) && MaterialCreated(c) then {path} else {}
      ensures id in rows ==> id in locators && locators[id].path == path
    {
      ghost var rows0, room := rows, HasRoom(workspace);
      InsertedThenSet(rows0, id, RowCreated(c));
      ok := PersistLocator(id, workspace, path, c.insert);
      if ok {
        ok := WriteThenActivate(id, c);
        assert rows == SetRow(rows0, id, RowCreated(c));
      } else {
        assert rows == SetRow(rows0, id, if room then RowCreated(c) else None);
      }
    }

    method WriteThenActivate(id: nat, c: Creation) returns (ok: bool)
      requires Valid() && c.insert == Done
      requires id in locators && locators[id].created == now && Has(rows, id, PendingWrite)
      requires id in protocol.creators && protocol.creators[id] == Ready && locators[id].path !in vault
      modifies this
      ensures Valid() && locators == old(locators)
      ensures ok <==> Replied(c)
      ensures rows == SetRow(old(rows), id, RowCreated(c))
      ensures vault == old(vault) + if MaterialCreated(c) then {locators[id].path} else {}
    {
      WriteMaterial(id, c.write);
      if c.write != Done {
        ScheduleCleanup(id, c.cleanup);
        return false;
      }
      if Applies(c.activate) { ActivateRow(id); }
      // A failed activation returns no row identity, so nothing is looked up or
      // scheduled: the row stays as the activation left it.
      return c.activate == Done;
    }

    method ActivateRow(id: nat)
      requires Valid() && Has(rows, id, PendingWrite)
      requires id in protocol.creators && protocol.creators[id] == WriteSucceeded
      modifies this
      ensures Valid() && locators == old(locators) && vault == old(vault) && rows == old(rows)[id := Active]
    {
      Take(ProviderSecrets.Activate(id));
      rows := rows[id := Active];
    }

    /** Hide the row first; only then touch the material. */
    method Delete(id: nat, f: Cleanup) returns (ok: bool)
      requires Valid() && id in locators
      modifies this
      ensures Valid() && locators == old(locators)
      ensures !Has(old(rows), id, Active) ==> !ok && rows == old(rows) && vault == old(vault)
      ensures ok <==> Has(old(rows), id, Active) && f == Cleanup(Done, Done, Done)
      ensures Has(rows, id, Active) <==> Has(old(rows), id, Active) && !Applies(f.mark)
      ensures ok ==> id !in rows && locators[id].path !in vault
      ensures Has(old(rows), id, Active) && id !in rows ==> locators[id].path !in vault
      ensures rows - {id} == old(rows) - {id} && vault >= old(vault) - {locators[id].path}
    {
      if !(id in rows && rows[id] == Active) || !Applies(f.mark) { return false; }
      Take(ProviderSecrets.Delete(id));
      rows := rows[id := CleanupPending];
      if f.mark != Done { return false; }
      ok := CleanupTracked(id, f);
    }
  }
}
