/** What every quota transaction keeps, and what a rebuild may change. */
module StorageQuotaRuns {
  import opened Nullable
  import opened Sums
  import opened StorageQuota

  // ----- the books stay balanced ---------------------------------------------------

  lemma EnsureKeeps(q: Quota, w: nat)
    requires Balanced(q)
    ensures Balanced(Step(q, Ensure(w)))
  {
    if w !in q.rows { NewRowKeeps(q, w); }
  }

  lemma NewRowKeeps(q: Quota, w: nat)
    requires Balanced(q) && w !in q.rows
    ensures Balanced(q.(rows := q.rows[w := Zero]))
  {
    var rows := q.rows[w := Zero];
    assert w != 0;
    forall c: Column ensures Cell(rows[0], c) == Sum(TenantCells(rows, c)) {
      SumUpdate(TenantCells(q.rows, c), w, 0);
      assert TenantCells(rows, c) == TenantCells(q.rows, c)[w := 0];
    }
    forall c: Column ensures Cell(Zero, c) == ReservedTotal(q.reservations, OwnedBy(q.reservations, w), c) {
      assert OwnedBy(q.reservations, w) == {};
      assert ReservedCells(q.reservations, {}, c) == map[];
    }
  }

  /** Setting one reservation of `w`, with the tenant's reserved counters moved by the same amount. */
  lemma SetReservationKeeps(q: Quota, rows: map<nat, Usage>, id: string, r: Reservation)
    requires ReservedIsSum(q) && r.workspace != 0 && r.workspace in q.rows
    requires id in q.reservations ==> q.reservations[id].workspace == r.workspace
    requires rows.Keys == q.rows.Keys
    requires forall w, c: Column :: w in rows && w != 0 && IsReserved(c) ==>
      Cell(rows[w], c) == Cell(q.rows[w], c)
        - (if w == r.workspace && id in q.reservations then Cell(AsReserved(q.reservations[id].amount), c) else 0)
        + (if w == r.workspace then Cell(AsReserved(r.amount), c) else 0)
    ensures ReservedIsSum(Quota(rows, q.reservations[id := r]))
  {
    var t := Quota(rows, q.reservations[id := r]);
    forall w, c: Column | w in t.rows && w != 0 && IsReserved(c)
      ensures Cell(t.rows[w], c) == ReservedTotal(t.reservations, OwnedBy(t.reservations, w), c)
    {
      ReservationSet(q.reservations, id, r, w, c);
    }
  }

  lemma DropReservationsKeeps(q: Quota, rows: map<nat, Usage>, ids: set<string>, owner: nat)
    requires ReservedIsSum(q)
    requires forall id :: id in ids ==> id in q.reservations && q.reservations[id].workspace == owner
    requires rows.Keys == q.rows.Keys
    requires forall w, c: Column :: w in rows && w != 0 && IsReserved(c) ==>
      Cell(rows[w], c) == Cell(q.rows[w], c) - DroppedFrom(q.reservations, ids, owner, w, c)
    ensures ReservedIsSum(Quota(rows, q.reservations - ids))
  {
    forall w, c: Column | w in rows && w != 0 && IsReserved(c)
      ensures Cell(rows[w], c) == OwnedTotal(q.reservations - ids, w, c)
    {
      DroppedTotal(q.reservations, ids, owner, w, c);
    }
  }

  ghost function OwnedTotal(reservations: map<string, Reservation>, w: nat, c: Column): nat {
    ReservedTotal(reservations, OwnedBy(reservations, w), c)
  }

  lemma DroppedTotal(reservations: map<string, Reservation>, ids: set<string>, owner: nat, w: nat, c: Column)
    requires forall id :: id in ids ==> id in reservations && reservations[id].workspace == owner
    ensures OwnedTotal(reservations - ids, w, c) == OwnedTotal(reservations, w, c) - DroppedFrom(reservations, ids, owner, w, c)
  {
    ReservationsDropped(reservations, ids, owner, w, c);
  }

  ghost function DroppedFrom(reservations: map<string, Reservation>, ids: set<string>, owner: nat, w: nat, c: Column): nat {
    if w == owner then ReservedTotal(reservations, ids, c) else 0
  }

  lemma ReserveKeeps(q: Quota, e: Event)
    requires Balanced(q) && e.Reserve?
    ensures Balanced(Step(q, e))
  {
    if Step(q, e) != q {
      AddKeepsGlobal(q.rows, e.workspace, AsReserved(e.amount));
      SetReservationKeeps(q, AddTo(q.rows, e.workspace, AsReserved(e.amount)), e.id,
                          Reservation(e.workspace, e.amount, None, e.expires));
    }
  }

  /** The three counter updates of a replacement, cell by cell. */
  lemma ReplaceCells(rows: map<nat, Usage>, w: nat, current: Request, next: Request, spent: Request, v: nat, c: Column)
    requires BothCover(rows, w, AsReserved(current)) && v in rows
    ensures v in ReplaceRows(rows, w, current, next, spent)
    ensures Cell(ReplaceRows(rows, w, current, next, spent)[v], c) == Cell(rows[v], c)
      + (if v == 0 || v == w then Cell(AsReserved(next), c) + Cell(AsUsed(spent), c) - Cell(AsReserved(current), c) else 0)
  {
  }

  lemma ReplaceKeepsGlobal(rows: map<nat, Usage>, w: nat, current: Request, next: Request, spent: Request)
    requires GlobalIsSum(rows) && w != 0 && BothCover(rows, w, AsReserved(current))
    ensures GlobalIsSum(ReplaceRows(rows, w, current, next, spent))
  {
    SubtractKeepsGlobal(rows, w, AsReserved(current));
    AddKeepsGlobal(SubtractFrom(rows, w, AsReserved(current)), w, AsReserved(next));
    AddKeepsGlobal(AddTo(SubtractFrom(rows, w, AsReserved(current)), w, AsReserved(next)), w, AsUsed(spent));
  }

  lemma ReplaceKeeps(q: Quota, e: Event)
    requires Balanced(q) && e.Replace?
    ensures Balanced(Step(q, e))
  {
    if e.id in q.reservations && Step(q, e) != q {
      var r := q.reservations[e.id];
      var rows := ReplaceRows(q.rows, r.workspace, r.amount, e.next, e.spent);
      ReplaceKeepsGlobal(q.rows, r.workspace, r.amount, e.next, e.spent);
      forall w, c: Column | w in rows && w != 0 && IsReserved(c)
        ensures Cell(rows[w], c) == Cell(q.rows[w], c)
          - (if w == r.workspace then Cell(AsReserved(r.amount), c) else 0)
          + (if w == r.workspace then Cell(AsReserved(e.next), c) else 0)
      {
        ReplaceCells(q.rows, r.workspace, r.amount, e.next, e.spent, w, c);
      }
      SetReservationKeeps(q, rows, e.id, Reservation(r.workspace, e.next, e.key, e.expires));
    }
  }

  lemma RetireRowsKeep(q: Quota, id: string, spent: Request)
    requires Balanced(q) && id in q.reservations
    requires BothCover(q.rows, q.reservations[id].workspace, AsReserved(q.reservations[id].amount))
    ensures
      var r := q.reservations[id];
      Balanced(Quota(ReplaceRows(q.rows, r.workspace, r.amount, Nothing, spent), q.reservations - {id}))
  {
    var r := q.reservations[id];
    var rows := ReplaceRows(q.rows, r.workspace, r.amount, Nothing, spent);
    ReplaceKeepsGlobal(q.rows, r.workspace, r.amount, Nothing, spent);
    forall w, c: Column | w in rows && w != 0 && IsReserved(c)
      ensures Cell(rows[w], c) == Cell(q.rows[w], c)
        - DroppedFrom(q.reservations, {id}, r.workspace, w, c)
    {
      ReplaceCells(q.rows, r.workspace, r.amount, Nothing, spent, w, c);
      SingleReservationCell(q.reservations, id, c);
    }
    DropReservationsKeeps(q, rows, {id}, r.workspace);
  }

  /** Dropping reservations together with what they hold. */
  lemma DropKeeps(q: Quota, w: nat, ids: set<string>)
    requires Balanced(q) && w != 0 && BothCover(q.rows, w, ReservedOf(q.reservations, ids))
    requires forall id :: id in ids ==> id in q.reservations && q.reservations[id].workspace == w
    ensures Balanced(Quota(SubtractFrom(q.rows, w, ReservedOf(q.reservations, ids)), q.reservations - ids))
  {
    var d := ReservedOf(q.reservations, ids);
    var rows := SubtractFrom(q.rows, w, d);
    SubtractKeepsGlobal(q.rows, w, d);
    forall v, c: Column | v in rows && v != 0 && IsReserved(c)
      ensures Cell(rows[v], c) == Cell(q.rows[v], c) - DroppedFrom(q.reservations, ids, w, v, c)
    {
      if v == w { CellPlus(q.rows[v], d, c); }
    }
    DropReservationsKeeps(q, rows, ids, w);
  }

  lemma UsedKeeps(q: Quota, rows: map<nat, Usage>)
    requires Balanced(q) && GlobalIsSum(rows) && rows.Keys == q.rows.Keys
    requires forall w, c: Column :: w in rows && IsReserved(c) ==> Cell(rows[w], c) == Cell(q.rows[w], c)
    ensures Balanced(q.(rows := rows))
  {
  }

  lemma SweepKeeps(q: Quota, e: Event)
    requires Balanced(q) && (e.Release? || e.Sweep?)
    ensures Balanced(Step(q, e))
  {
    if e.Sweep? && e.ids == {} {
      EmptyReserved(q.reservations);
      assert q.reservations - {} == q.reservations;
      assert SubtractFrom(q.rows, e.workspace, Zero) == q.rows;
    } else if Step(q, e) != q {
      if e.Release? {
        SingleReservation(q.reservations, e.id);
        DropKeeps(q, q.reservations[e.id].workspace, {e.id});
      } else {
        DropKeeps(q, e.workspace, e.ids);
      }
    }
  }

  lemma UsedEventKeeps(q: Quota, e: Event)
    requires Balanced(q) && (e.Grow? || e.AddUsed? || e.SubtractUsed?)
    ensures Balanced(Step(q, e))
  {
    if Step(q, e) != q {
      if e.SubtractUsed? {
        SubtractKeepsGlobal(q.rows, e.workspace, AsUsed(e.amount));
        UsedKeeps(q, SubtractFrom(q.rows, e.workspace, AsUsed(e.amount)));
      } else {
        AddKeepsGlobal(q.rows, e.workspace, AsUsed(e.amount));
        UsedKeeps(q, AddTo(q.rows, e.workspace, AsUsed(e.amount)));
      }
    }
  }

  /** Every transaction but the rebuild keeps row 0 and the reserved counters exact. */
  lemma StepKeepsBalanced(q: Quota, e: Event)
    requires Balanced(q) && !e.Rebuild?
    ensures Balanced(Step(q, e))
  {
    match e
    case Ensure(w) => EnsureKeeps(q, w);
    case Reserve(_, _, _, _, _) => ReserveKeeps(q, e);
    case Replace(_, _, _, _, _, _) => ReplaceKeeps(q, e);
    case Retire(id, spent, _) => if Step(q, e) != q { RetireRowsKeep(q, id, spent); }
    case Release(_) => SweepKeeps(q, e);
    case Sweep(_, _) => SweepKeeps(q, e);
    case Grow(_, _, _) => UsedEventKeeps(q, e);
    case AddUsed(_, _) => UsedEventKeeps(q, e);
    case SubtractUsed(_, _) => UsedEventKeeps(q, e);
  }

  lemma EmptyReserved(reservations: map<string, Reservation>)
    ensures ReservedOf(reservations, {}) == Zero
  {
    forall c: Column ensures ReservedTotal(reservations, {}, c) == 0 {
      assert ReservedCells(reservations, {}, c) == map[];
    }
  }

  const Start := Quota(map[0 := Zero], map[])

  lemma StartBalanced()
    ensures Balanced(Start)
  {
    forall c: Column ensures Cell(Start.rows[0], c) == Sum(TenantCells(Start.rows, c)) {
      assert TenantCells(Start.rows, c) == map[];
    }
  }

  // ----- rebuild -----------------------------------------------------------------------

  lemma OwnerlessHasNoReservations(q: Quota, workspaces: set<nat>, w: nat)
    requires Balanced(q) && w in q.rows && w != 0 && w !in Owners(q, workspaces)
    ensures forall c: Column :: IsReserved(c) ==> Cell(q.rows[w], c) == 0
  {
    assert OwnedBy(q.reservations, w) == {} by {
      forall id | id in q.reservations ensures q.reservations[id].workspace != w {
        assert q.reservations[id].workspace in set i | i in q.reservations :: q.reservations[i].workspace;
      }
    }
    forall c: Column | IsReserved(c) ensures Cell(q.rows[w], c) == 0 {
      assert ReservedCells(q.reservations, {}, c) == map[];
    }
  }

  lemma RebuiltRowReserved(q: Quota, used: map<nat, Request>, w: nat, c: Column)
    requires Balanced(q) && IsReserved(c) && w in q.rows && w != 0
    ensures Cell(RebuiltRow(q, used, w), c) == Cell(q.rows[w], c)
  {
  }

  lemma OwnersReserved(q: Quota, owners: set<nat>, used: map<nat, Request>, c: Column)
    requires Balanced(q) && IsReserved(c) && owners <= q.rows.Keys && 0 !in owners
    ensures TenantCells(RebuiltRows(q, owners, used), c) == Sums.Within(TenantCells(q.rows, c), owners)
  {
    forall w | w in owners ensures Cell(RebuiltRow(q, used, w), c) == Cell(q.rows[w], c) {
      RebuiltRowReserved(q, used, w, c);
    }
  }

  lemma OwnerlessReserveNothing(q: Quota, workspaces: set<nat>, c: Column)
    requires Balanced(q) && IsReserved(c)
    ensures Sum(TenantCells(q.rows, c) - Owners(q, workspaces)) == 0
  {
    var rest := TenantCells(q.rows, c) - Owners(q, workspaces);
    forall w | w in rest ensures rest[w] == 0 {
      OwnerlessHasNoReservations(q, workspaces, w);
    }
    SumZero(rest);
  }

  /** Row 0 as the rebuild computes it, the total of the owners' rows, has the reserved counters it had. */
  lemma RebuildKeepsTotalReserved(q: Quota, workspaces: set<nat>, used: map<nat, Request>, c: Column)
    requires Balanced(q) && IsReserved(c) && Owners(q, workspaces) <= q.rows.Keys
    ensures Cell(TotalRow(RebuiltRows(q, Owners(q, workspaces), used)), c) == Cell(q.rows[0], c)
  {
    var owners := Owners(q, workspaces);
    OwnersReserved(q, owners, used, c);
    SumSplit(TenantCells(q.rows, c), owners);
    OwnerlessReserveNothing(q, workspaces, c);
    TotalRowCell(RebuiltRows(q, owners, used), c);
  }

  /** On balanced books a rebuild changes no reserved counter, in row 0 or in any other, and removes only zero rows. */
  lemma RebuildKeepsReserved(q: Quota, workspaces: set<nat>, used: map<nat, Request>, w: nat, c: Column)
    requires Balanced(q) && IsReserved(c) && w in q.rows
    ensures var t := Step(q, Rebuild(workspaces, used)); w in t.rows ==> Cell(t.rows[w], c) == Cell(q.rows[w], c)
    ensures var t := Step(q, Rebuild(workspaces, used)); w !in t.rows ==> q.rows[w] == Zero
  {
    RebuildTxKeepsReserved(q, workspaces, used, w, c);
    RebuildIsTx(q, workspaces, used);
  }

  lemma RebuildTxKeepsReserved(q: Quota, workspaces: set<nat>, used: map<nat, Request>, w: nat, c: Column)
    requires Balanced(q) && IsReserved(c) && w in q.rows
    ensures var t := RebuildTx(q, Owners(q, workspaces), used); w in t.rows ==> Cell(t.rows[w], c) == Cell(q.rows[w], c)
    ensures var t := RebuildTx(q, Owners(q, workspaces), used); w !in t.rows ==> q.rows[w] == Zero
  {
    var part := RebuiltRows(q, Owners(q, workspaces), used);
    if Owners(q, workspaces) <= q.rows.Keys && Fits(TotalRow(part)) {
      if w == 0 {
        RebuildKeepsTotalReserved(q, workspaces, used, c);
      } else if w in part {
        RebuiltRowReserved(q, used, w, c);
      }
    }
  }

  lemma TotalRowCell(rows: map<nat, Usage>, c: Column)
    ensures Cell(TotalRow(rows), c) == Sum(TenantCells(rows, c))
  {
  }

  lemma OwnersPart(rows: map<nat, Usage>, part: map<nat, Usage>, total: Usage, c: Column)
    requires part.Keys <= rows.Keys && 0 !in part
    ensures Sums.Within(TenantCells(Rebuilt(rows, part, total), c), part.Keys) == TenantCells(part, c)
  {
  }

  /** Tenant rows after a rebuild: the rebuilt owners, and the non-owners that were not all zero. */
  lemma RebuiltSplit(rows: map<nat, Usage>, part: map<nat, Usage>, c: Column)
    requires part.Keys <= rows.Keys && 0 in rows && 0 !in part
    ensures
      var after := Rebuilt(rows, part, TotalRow(part));
      Sum(TenantCells(after, c)) == Cell(after[0], c) + Sum(TenantCells(after, c) - part.Keys)
  {
    SumSplit(TenantCells(Rebuilt(rows, part, TotalRow(part)), c), part.Keys);
    OwnersPart(rows, part, TotalRow(part), c);
    TotalRowCell(part, c);
  }

  /** Row 0 of rebuilt rows is the grand total exactly when every row that was not rebuilt was all zero. */
  lemma RebuiltGlobalExactly(rows: map<nat, Usage>, part: map<nat, Usage>)
    requires part.Keys <= rows.Keys && 0 in rows && 0 !in part
    ensures GlobalIsSum(Rebuilt(rows, part, TotalRow(part)))
       <==> NoStrays(rows, part.Keys)
  {
    var after := Rebuilt(rows, part, TotalRow(part));
    forall c: Column ensures Sum(TenantCells(after, c)) == Cell(after[0], c) + Sum(TenantCells(after, c) - part.Keys) {
      RebuiltSplit(rows, part, c);
    }
    LeftoversDecide(after, part.Keys);
  }

  /**
   A rebuild keeps the books balanced exactly when every workspace it does not
   own has an all-zero row: row 0 is the total of the owners alone.
   */
  lemma RebuildBalancedExactly(q: Quota, workspaces: set<nat>, used: map<nat, Request>)
    requires 0 in q.rows && Owners(q, workspaces) <= q.rows.Keys
    requires Fits(TotalRow(RebuiltRows(q, Owners(q, workspaces), used)))
    ensures GlobalIsSum(Step(q, Rebuild(workspaces, used)).rows) <==> NoStrays(q.rows, Owners(q, workspaces))
  {
    RebuiltBooks(q, Owners(q, workspaces), used);
    RebuildIsTx(q, workspaces, used);
  }

  lemma RebuildIsTx(q: Quota, workspaces: set<nat>, used: map<nat, Request>)
    ensures Step(q, Rebuild(workspaces, used)) == RebuildTx(q, Owners(q, workspaces), used)
  {
  }

  lemma RebuiltBooks(q: Quota, owners: set<nat>, used: map<nat, Request>)
    requires 0 in q.rows && 0 !in owners && owners <= q.rows.Keys && Fits(TotalRow(RebuiltRows(q, owners, used)))
    ensures GlobalIsSum(RebuildTx(q, owners, used).rows) <==> NoStrays(q.rows, owners)
  {
    var part := RebuiltRows(q, owners, used);
    assert part.Keys == owners;
    RebuiltGlobalExactly(q.rows, part);
  }

  /** A workspace that is gone while its row still counts something: the rebuild drops it from row 0 only. */
  lemma StrayRowUnbalances(w: nat, amount: Request)
    requires w != 0 && amount != Nothing && Fits(AsUsed(amount))
    ensures
      var q := Step(Step(Start, Ensure(w)), AddUsed(w, amount));
      Balanced(q) && !Balanced(Step(q, Rebuild({}, map[])))
  {
    var q1 := Step(Start, Ensure(w));
    var q := Step(q1, AddUsed(w, amount));
    StartBalanced();
    EnsureKeeps(Start, w);
    UsedEventKeeps(q1, AddUsed(w, amount));
    assert q.rows[w] == AsUsed(amount);
    assert Owners(q, {}) == {};
    assert RebuiltRows(q, {}, map[]) == map[];
    forall c: Column ensures Sum(TenantCells(map[], c)) == 0 { assert TenantCells(map[], c) == map[]; }
    RebuildBalancedExactly(q, {}, map[]);
    assert !NoStrays(q.rows, {});
  }

  /** Every tenant row outside `owners` is all zero. */
  predicate NoStrays(rows: map<nat, Usage>, owners: set<nat>) {
    forall w :: w in rows && w != 0 && w !in owners ==> rows[w] == Zero
  }

  /** If row 0 totals the owners alone, it is the grand total exactly when no other row holds anything. */
  lemma LeftoversDecide(rows: map<nat, Usage>, owners: set<nat>)
    requires 0 in rows
    requires forall c: Column :: Sum(TenantCells(rows, c)) == Cell(rows[0], c) + Sum(TenantCells(rows, c) - owners)
    ensures GlobalIsSum(rows) <==> NoStrays(rows, owners)
  {
    if NoStrays(rows, owners) {
      forall c: Column ensures Sum(TenantCells(rows, c) - owners) == 0 {
        SumZero(TenantCells(rows, c) - owners);
      }
    } else {
      var w :| w in rows && w != 0 && w !in owners && rows[w] != Zero;
      var c := NonzeroColumn(rows[w]);
      SumBounds(TenantCells(rows, c) - owners, w);
    }
  }

  lemma {:induction false} SumZero(m: map<nat, int>)
    requires forall w :: w in m ==> m[w] == 0
    ensures Sum(m) == 0
    decreases |m|
  {
    if m != map[] {
      var w :| w in m;
      SumRemove(m, w);
      SumZero(m - {w});
    }
  }

  function NonzeroColumn(u: Usage): (c: Column)
    requires u != Zero
    ensures Cell(u, c) > 0
  {
    if u.blob > 0 then Blob else if u.durable > 0 then Durable else if u.items > 0 then Items
    else if u.images > 0 then Images else if u.reservedBlob > 0 then RBlob
    else if u.reservedDurable > 0 then RDurable else if u.reservedItems > 0 then RItems else RImages
  }

  // ----- whole runs -------------------------------------------------------------------------

  /** A rebuild with no stray rows, or any other transaction. */
  ghost predicate Orderly(q: Quota, e: Event) {
    e.Rebuild? ==> NoStrays(q.rows, Owners(q, e.workspaces))
  }

  ghost function Exec(es: seq<Event>): Quota {
    if es == [] then Start else Step(Exec(es[..|es| - 1]), es[|es| - 1])
  }

  ghost predicate OrderlyRun(es: seq<Event>)
    decreases |es|
  {
    es == [] || (OrderlyRun(es[..|es| - 1]) && Orderly(Exec(es[..|es| - 1]), es[|es| - 1]))
  }

  lemma RebuildKeepsBalanced(q: Quota, e: Event)
    requires Balanced(q) && e.Rebuild? && Orderly(q, e)
    ensures Balanced(Step(q, e))
  {
    RebuildTxKeepsBalanced(q, e.workspaces, e.used);
    RebuildIsTx(q, e.workspaces, e.used);
  }

  lemma RebuildTxKeepsBalanced(q: Quota, workspaces: set<nat>, used: map<nat, Request>)
    requires Balanced(q) && NoStrays(q.rows, Owners(q, workspaces))
    ensures Balanced(RebuildTx(q, Owners(q, workspaces), used))
  {
    var owners := Owners(q, workspaces);
    if owners <= q.rows.Keys && Fits(TotalRow(RebuiltRows(q, owners, used))) {
      RebuiltBooks(q, owners, used);
      var t := RebuildTx(q, owners, used);
      forall w, c: Column | w in t.rows && w != 0 && IsReserved(c)
        ensures Cell(t.rows[w], c) == ReservedTotal(t.reservations, OwnedBy(t.reservations, w), c)
      {
        RebuildTxKeepsReserved(q, workspaces, used, w, c);
      }
      forall id | id in t.reservations ensures t.reservations[id].workspace in t.rows {
        assert t.reservations[id].workspace in set i | i in q.reservations :: q.reservations[i].workspace;
      }
    }
  }

  /**
   In every run row 0 equals the sum of all tenant rows and each tenant's
   reserved counters equal the sum of its reservation rows.
   */
  lemma {:induction false} CountersStayExact(es: seq<Event>)
    requires OrderlyRun(es)
    ensures Balanced(Exec(es))
    decreases |es|
  {
    if es == [] {
      StartBalanced();
    } else {
      var q := Exec(es[..|es| - 1]);
      CountersStayExact(es[..|es| - 1]);
      if es[|es| - 1].Rebuild? { RebuildKeepsBalanced(q, es[|es| - 1]); }
      else { StepKeepsBalanced(q, es[|es| - 1]); }
    }
  }

  // ----- quotas are never exceeded ------------------------------------------------------------

  /** Every row, reservations included, is within the limits. */
  predicate InLimits(q: Quota, l: Limits) {
    && 0 in q.rows && RowWithin(q.rows[0], l.bytesTotal, l.itemsTotal, l.imagesTotal)
    && forall w :: w in q.rows && w != 0 ==> RowWithin(q.rows[w], l.bytesPerWorkspace, l.itemsPerWorkspace, l.imagesPerWorkspace)
  }

  function Add(a: Request, b: Request): Request {
    Request(a.bytes + b.bytes, a.durable + b.durable, a.items + b.items, a.images + b.images)
  }

  /**
   Growth is checked against `l`.  A transfer is checked against nothing, but
   moves no more than it frees; starting an upload batch and rebuilding are not
   checked at all.
   */
  predicate Checked(q: Quota, e: Event, l: Limits) {
    match e
    case Reserve(_, _, _, _, limits) => limits == l
    case Replace(id, next, spent, _, _, limits) =>
      limits == l || (id in q.reservations && Add(next, spent) == q.reservations[id].amount)
    case Retire(_, _, limits) => limits == l
    case Grow(_, _, limits) => limits == l
    case AddUsed(_, _) => false
    case Rebuild(_, _) => false
    case _ => true
  }

  /** One row of a replacement stays within limits if they were checked, or if it frees what it takes. */
  lemma ReplacedRowWithin(u: Usage, current: Request, next: Request, spent: Request, bytes: nat, items: nat, images: nat)
    requires Covers(u, AsReserved(current)) && RowWithin(u, bytes, items, images)
    requires
      || Add(next, spent) == current
      || RowWithin(Plus(Plus(Minus(u, AsReserved(current)), AsUsed(spent)), AsReserved(next)), bytes, items, images)
    ensures RowWithin(Plus(Plus(Minus(u, AsReserved(current)), AsReserved(next)), AsUsed(spent)), bytes, items, images)
  {
  }

  lemma ReplaceInLimits(q: Quota, id: string, next: Request, spent: Request, limits: Limits, l: Limits)
    requires InLimits(q, l) && LimitsFit(l) && id in q.reservations && Locked(q, q.reservations[id].workspace)
    requires
      var r := q.reservations[id];
      && AdmitsReplacement(q.rows[0], q.rows[r.workspace], r.amount, next, spent, limits)
      && (limits == l || Add(next, spent) == r.amount)
    ensures var r := q.reservations[id]; InLimits(q.(rows := ReplaceRows(q.rows, r.workspace, r.amount, next, spent)), l)
  {
    var r := q.reservations[id];
    var global := Plus(Minus(q.rows[0], AsReserved(r.amount)), AsUsed(spent));
    var tenant := Plus(Minus(q.rows[r.workspace], AsReserved(r.amount)), AsUsed(spent));
    if limits == l { AdmitsExactly(global, tenant, next, l); }
    ReplacedRowWithin(q.rows[0], r.amount, next, spent, l.bytesTotal, l.itemsTotal, l.imagesTotal);
    ReplacedRowWithin(q.rows[r.workspace], r.amount, next, spent, l.bytesPerWorkspace, l.itemsPerWorkspace, l.imagesPerWorkspace);
  }

  lemma FitsInLimits(q: Quota, l: Limits)
    requires InLimits(q, l) && LimitsFit(l)
    ensures forall w :: w in q.rows ==> Fits(q.rows[w])
  {
  }

  /** Reserved or used, an admitted amount leaves the rows within limits. */
  lemma AddInLimits(q: Quota, w: nat, amount: Request, l: Limits)
    requires InLimits(q, l) && LimitsFit(l) && Locked(q, w) && Admits(q.rows[0], q.rows[w], amount, l)
    ensures InLimits(q.(rows := AddTo(q.rows, w, AsReserved(amount))), l)
    ensures InLimits(q.(rows := AddTo(q.rows, w, AsUsed(amount))), l)
  {
    FitsInLimits(q, l);
    AdmitsExactly(q.rows[0], q.rows[w], amount, l);
  }

  lemma SubtractInLimits(q: Quota, w: nat, d: Usage, l: Limits)
    requires InLimits(q, l)
    ensures InLimits(q.(rows := SubtractFrom(q.rows, w, d)), l)
  {
  }

  lemma StepInLimits(q: Quota, e: Event, l: Limits)
    requires Balanced(q) && InLimits(q, l) && LimitsFit(l) && Checked(q, e, l)
    ensures InLimits(Step(q, e), l)
  {
    if Step(q, e) != q {
      match e
      case Ensure(_) =>
      case Reserve(_, w, amount, _, _) => AddInLimits(q, w, amount, l);
      case Grow(w, amount, _) => AddInLimits(q, w, amount, l);
      case Replace(id, next, spent, _, _, limits) => ReplaceInLimits(q, id, next, spent, limits, l);
      case Retire(id, spent, limits) => ReplaceInLimits(q, id, Nothing, spent, limits, l);
      case Release(id) => SubtractInLimits(q, q.reservations[id].workspace, AsReserved(q.reservations[id].amount), l);
      case Sweep(w, ids) => SubtractInLimits(q, w, ReservedOf(q.reservations, ids), l);
      case SubtractUsed(w, amount) => SubtractInLimits(q, w, AsUsed(amount), l);
    }
  }

  ghost predicate CheckedRun(es: seq<Event>, l: Limits)
    decreases |es|
  {
    es == [] || (CheckedRun(es[..|es| - 1], l) && Checked(Exec(es[..|es| - 1]), es[|es| - 1], l))
  }

  /** In every checked run no workspace and no total ever exceeds its quota, reservations included. */
  lemma {:induction false} QuotaNeverExceeded(es: seq<Event>, l: Limits)
    requires CheckedRun(es, l) && LimitsFit(l)
    ensures OrderlyRun(es) && InLimits(Exec(es), l)
    decreases |es|
  {
    if es != [] {
      QuotaNeverExceeded(es[..|es| - 1], l);
      CountersStayExact(es[..|es| - 1]);
      StepInLimits(Exec(es[..|es| - 1]), es[|es| - 1], l);
    }
  }
}
