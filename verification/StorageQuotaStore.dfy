/** The quota tables as the store updates them, statement by statement. */
module StorageQuotaStore {
  import opened Nullable
  import opened Sums
  import opened StorageQuota
  import opened StorageQuotaRuns

  function Elements(ids: seq<string>): set<string> {
    set id | id in ids
  }

  predicate Distinct(ids: seq<string>) {
    forall i, j :: 0 <= i < j < |ids| ==> ids[i] != ids[j]
  }

  lemma ReservedOneMoreCell(reservations: map<string, Reservation>, ids: set<string>, id: string, c: Column)
    requires id in reservations && id !in ids
    ensures ReservedTotal(reservations, ids + {id}, c) == ReservedTotal(reservations, ids, c) + Cell(AsReserved(reservations[id].amount), c)
  {
    var cells := ReservedCells(reservations, ids, c);
    var more := Cell(AsReserved(reservations[id].amount), c);
    SumUpdate(cells, id, more);
    assert ReservedCells(reservations, ids + {id}, c) == cells[id := more];
  }

  /** One more reservation adds its amount to the total. */
  lemma ReservedOneMore(reservations: map<string, Reservation>, ids: set<string>, id: string)
    requires id in reservations && id !in ids
    ensures ReservedOf(reservations, ids + {id}) == Plus(ReservedOf(reservations, ids), AsReserved(reservations[id].amount))
  {
    ReservedOneMoreCell(reservations, ids, id, RBlob);
    ReservedOneMoreCell(reservations, ids, id, RDurable);
    ReservedOneMoreCell(reservations, ids, id, RItems);
    ReservedOneMoreCell(reservations, ids, id, RImages);
  }

  /** Column by column, with the 64-bit overflow checks. */
  function AddRequests(a: Request, b: Request): (r: Option<Request>)
    ensures r.Some? ==> AsReserved(r.value) == Plus(AsReserved(a), AsReserved(b))
    ensures r.None? ==> !Fits(Plus(AsReserved(a), AsReserved(b)))
  {
    match (AddUint64(a.bytes, b.bytes), AddUint64(a.durable, b.durable), AddUint64(a.items, b.items), AddUint64(a.images, b.images))
    case (Some(bytes), Some(durable), Some(items), Some(images)) => Some(Request(bytes, durable, items, images))
    case _ => None
  }

  lemma BatchOneMore(reservations: map<string, Reservation>, ids: seq<string>, i: nat, t: Request)
    requires i < |ids| && ids[i] in reservations && ids[i] !in Elements(ids[..i])
    requires AsReserved(t) == ReservedOf(reservations, Elements(ids[..i]))
    ensures ReservedOf(reservations, Elements(ids[..i + 1])) == Plus(AsReserved(t), AsReserved(reservations[ids[i]].amount))
  {
    ReservedOneMore(reservations, Elements(ids[..i]), ids[i]);
    assert Elements(ids[..i + 1]) == Elements(ids[..i]) + {ids[i]};
  }

  class Store {
    var rows: map<nat, Usage>
    var reservations: map<string, Reservation>

    ghost function State(): Quota
      reads this
    {
      Quota(rows, reservations)
    }

    constructor ()
      ensures State() == Start
    {
      rows, reservations := map[0 := Zero], map[];
    }

    // ----- statements ------------------------------------------------------------------

    method Add(workspace: nat, d: Usage)
      modifies this`rows
      ensures rows == AddTo(old(rows), workspace, d)
    {
      if 0 in rows { rows := rows[0 := Plus(rows[0], d)]; }
      if workspace in rows && workspace != 0 { rows := rows[workspace := Plus(rows[workspace], d)]; }
    }

    /** Returns the number of rows matched: each of the two rows is guarded on its own. */
    method Subtract(workspace: nat, d: Usage) returns (affected: nat)
      requires workspace != 0
      modifies this`rows
      ensures rows == SubtractFrom(old(rows), workspace, d)
      ensures affected == 2 <==> BothCover(old(rows), workspace, d)
    {
      affected := 0;
      if 0 in rows && Covers(rows[0], d) {
        rows := rows[0 := Minus(rows[0], d)];
        affected := affected + 1;
      }
      if workspace in rows && Covers(rows[workspace], d) {
        rows := rows[workspace := Minus(rows[workspace], d)];
        affected := affected + 1;
      }
    }

    method DeleteReservation(id: string, workspace: nat) returns (affected: nat)
      modifies this`reservations
      ensures affected == if id in old(reservations) && old(reservations)[id].workspace == workspace then 1 else 0
      ensures reservations == if affected == 1 then old(reservations) - {id} else old(reservations)
    {
      affected := 0;
      if id in reservations && reservations[id].workspace == workspace {
        reservations := reservations - {id};
        affected := 1;
      }
    }

    // ----- transactions: an error leaves both tables as they were -------------------------------

    method Reserve(id: string, workspace: nat, amount: Request, expires: int, limits: Limits) returns (ok: bool)
      modifies this
      ensures State() == Step(old(State()), Event.Reserve(id, workspace, amount, expires, limits))
      ensures ok <==> State() != old(State())
      ensures ok ==> id in reservations
    {
      ok := false;
      if workspace == 0 || amount == Nothing { return; }
      if workspace !in rows || 0 !in rows { return; }
      if !Admits(rows[0], rows[workspace], amount, limits) { return; }
      if id in reservations { return; }
      reservations := reservations[id := Reservation(workspace, amount, None, expires)];
      Add(workspace, AsReserved(amount));
      ok := true;
    }

    /** The counter side of resizing and staging. */
    method Replace(id: string, next: Request, spent: Request, key: Option<string>, expires: int, limits: Limits) returns (ok: bool)
      modifies this
      ensures State() == Step(old(State()), Event.Replace(id, next, spent, key, expires, limits))
      ensures !ok ==> State() == old(State())
    {
      ok := false;
      if id !in reservations { return; }
      var r := reservations[id];
      if r.workspace == 0 || r.workspace !in rows || 0 !in rows { return; }
      if !AdmitsReplacement(rows[0], rows[r.workspace], r.amount, next, spent, limits) { return; }
      ok := SwapCounters(r.workspace, r.amount, next, spent);
      reservations := reservations[id := Reservation(r.workspace, next, key, expires)];
    }

    /** Drop `current` from the reserved side, add `next` to it, add `spent` to the used side; empty steps are skipped. */
    method SwapCounters(workspace: nat, current: Request, next: Request, spent: Request) returns (ok: bool)
      requires workspace != 0 && BothCover(rows, workspace, AsReserved(current))
      modifies this`rows
      ensures ok && rows == ReplaceRows(old(rows), workspace, current, next, spent)
    {
      ok := true;
      if current != Nothing {
        var affected := Subtract(workspace, AsReserved(current));
        if affected != 2 { return false; }
      }
      assert rows == SubtractFrom(old(rows), workspace, AsReserved(current));
      if next != Nothing { Add(workspace, AsReserved(next)); }
      assert rows == AddTo(SubtractFrom(old(rows), workspace, AsReserved(current)), workspace, AsReserved(next));
      if spent != Nothing { Add(workspace, AsUsed(spent)); }
    }

    /** Move committed usage out of a reservation; limits are not consulted because nothing grows. */
    method Transfer(id: string, consumed: Request) returns (ok: bool)
      modifies this
      ensures !ok ==> State() == old(State())
      ensures ok ==>
        && id in old(reservations)
        && var r := old(reservations)[id];
           && CoversRequest(r.amount, consumed)
           && State() == Step(old(State()), Event.Replace(id, Less(r.amount, consumed), consumed, r.key, r.expires, Unbounded))
           && Checked(old(State()), Event.Replace(id, Less(r.amount, consumed), consumed, r.key, r.expires, Unbounded), Unbounded)
    {
      ok := false;
      if id !in reservations || consumed == Nothing { return; }
      var r := reservations[id];
      if !CoversRequest(r.amount, consumed) { return; }
      ok := Replace(id, Less(r.amount, consumed), consumed, r.key, r.expires, Unbounded);
    }

    /** Releasing an absent reservation succeeds and does nothing. */
    method Release(id: string, workspace: nat) returns (ok: bool)
      requires Balanced(State())
      modifies this
      ensures workspace != 0 && workspace in old(rows) && 0 in old(rows) ==> ok
      ensures State() ==
        if id in old(reservations) && old(reservations)[id].workspace == workspace && ok
        then Step(old(State()), Event.Release(id)) else old(State())
      ensures ok ==> !(id in reservations && reservations[id].workspace == workspace)
    {
      if workspace == 0 || workspace !in rows {
        assert forall i :: i in reservations ==> reservations[i].workspace != 0 && reservations[i].workspace in rows;
        return workspace == 0;
      }
      if !(id in reservations && reservations[id].workspace == workspace) { return true; }
      ghost var before := State();
      var amount := reservations[id].amount;
      SingleReservation(reservations, id);
      ReleaseNeverUnderflows(State(), {id}, workspace);
      if amount != Nothing {
        var affected := Subtract(workspace, AsReserved(amount));
        if affected != 2 { return false; }
      }
      assert rows == SubtractFrom(before.rows, workspace, AsReserved(amount));
      var affected := DeleteReservation(id, workspace);
      return true;
    }

    /** Total of a batch of reservations; None on 64-bit overflow. */
    method TotalOf(ids: seq<string>) returns (total: Option<Request>)
      requires Distinct(ids) && forall id :: id in ids ==> id in reservations
      ensures total.Some? ==> AsReserved(total.value) == ReservedOf(reservations, Elements(ids))
      ensures total.None? ==> !Fits(ReservedOf(reservations, Elements(ids)))
    {
      var t := Nothing;
      EmptyReserved(reservations);
      assert Elements(ids[..0]) == {};
      for i := 0 to |ids|
        invariant AsReserved(t) == ReservedOf(reservations, Elements(ids[..i]))
      {
        assert ids[i] !in Elements(ids[..i]);
        BatchOneMore(reservations, ids, i, t);
        var next := AddRequests(t, reservations[ids[i]].amount);
        if next.None? {
          ReservedGrows(reservations, Elements(ids[..i + 1]), Elements(ids));
          return None;
        }
        t := next.value;
      }
      assert ids[..|ids|] == ids;
      total := Some(t);
    }

    method DeleteAll(ids: seq<string>, workspace: nat) returns (ok: bool)
      requires Distinct(ids) && forall id :: id in ids ==> id in reservations && reservations[id].workspace == workspace
      modifies this`reservations
      ensures ok && reservations == old(reservations) - Elements(ids)
    {
      ok := true;
      for i := 0 to |ids|
        invariant reservations == old(reservations) - Elements(ids[..i])
      {
        assert ids[i] !in Elements(ids[..i]);
        var affected := DeleteReservation(ids[i], workspace);
        assert Elements(ids[..i + 1]) == Elements(ids[..i]) + {ids[i]};
        if affected != 1 { return false; }
      }
      assert ids[..|ids|] == ids;
    }

    /** Sweep one batch `ids` of expired reservations of one workspace. */
    method Sweep(ids: seq<string>, workspace: nat) returns (ok: bool)
      requires Balanced(State()) && Fits(if 0 in rows then rows[0] else Zero)
      requires Distinct(ids) && workspace != 0 && workspace in rows
      requires forall id :: id in ids ==> id in reservations && reservations[id].workspace == workspace
      modifies this
      ensures ok && State() == Step(old(State()), Event.Sweep(workspace, Elements(ids)))
      ensures reservations == old(reservations) - Elements(ids)
    {
      ghost var before := State();
      ghost var d := ReservedOf(reservations, Elements(ids));
      ReleaseNeverUnderflows(State(), Elements(ids), workspace);
      var total := TotalOf(ids);
      if total.None? { return false; }
      if total.value != Nothing {
        var affected := Subtract(workspace, AsReserved(total.value));
        if affected != 2 { return false; }
      }
      assert rows == SubtractFrom(before.rows, workspace, d);
      ok := DeleteAll(ids, workspace);
    }
  }

  lemma ReservedGrowsCell(reservations: map<string, Reservation>, some: set<string>, all: set<string>, c: Column)
    requires some <= all
    ensures ReservedTotal(reservations, some, c) <= ReservedTotal(reservations, all, c)
  {
    var cells := ReservedCells(reservations, all, c);
    SumSplit(cells, some);
    assert Sums.Within(cells, some) == ReservedCells(reservations, some, c);
    SumNonnegative(cells - some);
  }

  lemma ReservedGrows(reservations: map<string, Reservation>, some: set<string>, all: set<string>)
    requires some <= all
    ensures Covers(ReservedOf(reservations, all), ReservedOf(reservations, some))
  {
    ReservedGrowsCell(reservations, some, all, RBlob);
    ReservedGrowsCell(reservations, some, all, RDurable);
    ReservedGrowsCell(reservations, some, all, RItems);
    ReservedGrowsCell(reservations, some, all, RImages);
  }

  predicate CoversRequest(a: Request, b: Request) {
    a.bytes >= b.bytes && a.durable >= b.durable && a.items >= b.items && a.images >= b.images
  }

  function Less(a: Request, b: Request): (r: Request)
    requires CoversRequest(a, b)
    ensures StorageQuotaRuns.Add(r, b) == a
  {
    Request(a.bytes - b.bytes, a.durable - b.durable, a.items - b.items, a.images - b.images)
  }
}
