/** What each quota transaction adds to and takes from the counters, column by column, and when. */
module StorageQuotaEffects {
  import opened Nullable
  import opened Sums
  import opened StorageQuota

  /** What an amount means for each column, as used or as reserved. */
  function Used(r: Request, c: Column): int {
    match c
    case Blob => r.bytes
    case Durable => r.durable
    case Items => r.items
    case Images => r.images
    case _ => 0
  }

  function Held(r: Request, c: Column): int {
    match c
    case RBlob => r.bytes
    case RDurable => r.durable
    case RItems => r.items
    case RImages => r.images
    case _ => 0
  }

  /** Row 0 and the tenant's row move by `d` in every column; no other row moves. */
  ghost predicate Moved(rows: map<nat, Usage>, after: map<nat, Usage>, w: nat, d: Column -> int) {
    && after.Keys == rows.Keys
    && forall v, c: Column :: v in rows ==>
         Cell(after[v], c) == Cell(rows[v], c) + if v == 0 || v == w then d(c) else 0
  }

  /** A row with everything reserved on it, and `r` besides, stays within the limits. */
  predicate Room(u: Usage, r: Request, bytes: nat, items: nat, images: nat) {
    && u.blob + u.durable + u.reservedBlob + u.reservedDurable + r.bytes + r.durable <= bytes
    && u.items + u.reservedItems + r.items <= items
    && u.images + u.reservedImages + r.images <= images
  }

  predicate RoomFor(q: Quota, w: nat, r: Request, l: Limits)
    requires 0 in q.rows && w in q.rows
  {
    && Room(q.rows[w], r, l.bytesPerWorkspace, l.itemsPerWorkspace, l.imagesPerWorkspace)
    && Room(q.rows[0], r, l.bytesTotal, l.itemsTotal, l.imagesTotal)
  }

  predicate RowsFit(q: Quota) {
    forall w :: w in q.rows ==> Fits(q.rows[w])
  }

  lemma RoomExactly(q: Quota, w: nat, r: Request, l: Limits)
    requires 0 in q.rows && w in q.rows && RowsFit(q) && LimitsFit(l)
    ensures Admits(q.rows[0], q.rows[w], r, l) <==> RoomFor(q, w, r, l)
  {
    AdmitsExactly(q.rows[0], q.rows[w], r, l);
  }

  /**
   A reservation is made exactly when the workspace is known, the amount is not
   nothing, the identifier is new and both rows have room; then the amount is reserved
   on both rows, and otherwise nothing changes.
   */
  lemma ReserveExactly(q: Quota, id: string, w: nat, amount: Request, expires: int, l: Limits)
    requires 0 in q.rows && RowsFit(q) && LimitsFit(l)
    ensures var t := Step(q, Reserve(id, w, amount, expires, l));
      if w != 0 && w in q.rows && amount != Nothing && id !in q.reservations && RoomFor(q, w, amount, l)
      then Moved(q.rows, t.rows, w, c => Held(amount, c)) && t.reservations == q.reservations[id := Reservation(w, amount, None, expires)]
      else t == q
  {
    if w in q.rows { RoomExactly(q, w, amount, l); }
  }

  /** Growth is admitted exactly when both rows have room, and is then used on both. */
  lemma GrowExactly(q: Quota, w: nat, amount: Request, l: Limits)
    requires 0 in q.rows && RowsFit(q) && LimitsFit(l)
    ensures var t := Step(q, Grow(w, amount, l));
      && t.reservations == q.reservations
      && if w != 0 && w in q.rows && RoomFor(q, w, amount, l) then Moved(q.rows, t.rows, w, c => Used(amount, c)) else t == q
  {
    if w in q.rows { RoomExactly(q, w, amount, l); }
  }

  /** An unchecked addition fails only when a column would overflow. */
  lemma AddUsedExactly(q: Quota, w: nat, amount: Request)
    requires 0 in q.rows
    ensures var t := Step(q, AddUsed(w, amount));
      && t.reservations == q.reservations
      && if w != 0 && w in q.rows
            && forall c: Column :: Cell(q.rows[0], c) + Used(amount, c) <= MAX_UINT64 && Cell(q.rows[w], c) + Used(amount, c) <= MAX_UINT64
         then Moved(q.rows, t.rows, w, c => Used(amount, c)) else t == q
  {
    if w != 0 && w in q.rows {
      FitsExactly(q.rows[0], amount);
      FitsExactly(q.rows[w], amount);
    }
  }

  lemma FitsExactly(u: Usage, amount: Request)
    ensures Fits(Plus(u, AsUsed(amount))) <==> forall c: Column :: Cell(u, c) + Used(amount, c) <= MAX_UINT64
  {
    if Fits(Plus(u, AsUsed(amount))) {
      forall c: Column ensures Cell(u, c) + Used(amount, c) <= MAX_UINT64 { match c case _ => }
    } else {
      assert Cell(u, Blob) == u.blob && Cell(u, Durable) == u.durable && Cell(u, Items) == u.items && Cell(u, Images) == u.images;
      assert Cell(u, RBlob) == u.reservedBlob && Cell(u, RDurable) == u.reservedDurable;
      assert Cell(u, RItems) == u.reservedItems && Cell(u, RImages) == u.reservedImages;
    }
  }

  /** Both rows hold at least this much in every used column. */
  predicate UsedCovers(q: Quota, w: nat, amount: Request) {
    && 0 in q.rows && w in q.rows
    && (forall c: Column :: Cell(q.rows[0], c) >= Used(amount, c)) && forall c: Column :: Cell(q.rows[w], c) >= Used(amount, c)
  }

  lemma SubtractExactly(q: Quota, w: nat, amount: Request)
    ensures var t := Step(q, SubtractUsed(w, amount));
      && t.reservations == q.reservations
      && if w != 0 && UsedCovers(q, w, amount) then Moved(q.rows, t.rows, w, c => -Used(amount, c)) else t == q
  {
    if 0 in q.rows && w in q.rows {
      CoversExactly(q.rows[0], amount);
      CoversExactly(q.rows[w], amount);
    }
  }

  lemma CoversExactly(u: Usage, amount: Request)
    ensures Covers(u, AsUsed(amount)) <==> forall c: Column :: Cell(u, c) >= Used(amount, c)
  {
    if Covers(u, AsUsed(amount)) {
      forall c: Column ensures Cell(u, c) >= Used(amount, c) { match c case _ => }
    } else {
      assert Cell(u, Blob) == u.blob && Cell(u, Durable) == u.durable && Cell(u, Items) == u.items && Cell(u, Images) == u.images;
    }
  }

  lemma ReplacedCells(rows: map<nat, Usage>, w: nat, current: Request, next: Request, spent: Request)
    requires BothCover(rows, w, AsReserved(current))
    ensures Moved(rows, ReplaceRows(rows, w, current, next, spent), w, c => Held(next, c) + Used(spent, c) - Held(current, c))
  {
    var after := ReplaceRows(rows, w, current, next, spent);
    forall v, c: Column | v in rows
      ensures Cell(after[v], c) == Cell(rows[v], c) + if v == 0 || v == w then Held(next, c) + Used(spent, c) - Held(current, c) else 0
    {
      match c case _ =>
    }
  }

  /** The row holds `current` in reserve and, without it, has room for `spent` and `next`. */
  predicate Freed(u: Usage, current: Request, spent: Request, next: Request, bytes: nat, items: nat, images: nat) {
    && u.reservedBlob >= current.bytes && u.reservedDurable >= current.durable
    && u.reservedItems >= current.items && u.reservedImages >= current.images
    && u.blob + u.durable + u.reservedBlob + u.reservedDurable - current.bytes - current.durable
         + spent.bytes + spent.durable + next.bytes + next.durable <= bytes
    && u.items + u.reservedItems - current.items + spent.items + next.items <= items
    && u.images + u.reservedImages - current.images + spent.images + next.images <= images
  }

  predicate FreedFor(q: Quota, w: nat, current: Request, spent: Request, next: Request, l: Limits)
    requires 0 in q.rows && w in q.rows
  {
    && Freed(q.rows[w], current, spent, next, l.bytesPerWorkspace, l.itemsPerWorkspace, l.imagesPerWorkspace)
    && Freed(q.rows[0], current, spent, next, l.bytesTotal, l.itemsTotal, l.imagesTotal)
  }

  lemma FreedFits(u: Usage, current: Request, spent: Request, next: Request, bytes: nat, items: nat, images: nat)
    requires Fits(u) && bytes <= MAX_UINT64 && items <= MAX_UINT64 && images <= MAX_UINT64
    requires Freed(u, current, spent, next, bytes, items, images)
    ensures Covers(u, AsReserved(current)) && Fits(Plus(Minus(u, AsReserved(current)), AsUsed(spent)))
  {
  }

  lemma FreedExactly(u: Usage, current: Request, spent: Request, next: Request, bytes: nat, items: nat, images: nat)
    requires Covers(u, AsReserved(current))
    ensures Freed(u, current, spent, next, bytes, items, images)
       <==> RowWithin(Plus(Plus(Minus(u, AsReserved(current)), AsUsed(spent)), AsReserved(next)), bytes, items, images)
  {
  }

  lemma ReplacementExactly(global: Usage, tenant: Usage, current: Request, next: Request, spent: Request, l: Limits)
    requires Fits(global) && Fits(tenant) && LimitsFit(l)
    ensures AdmitsReplacement(global, tenant, current, next, spent, l)
       <==> && Freed(tenant, current, spent, next, l.bytesPerWorkspace, l.itemsPerWorkspace, l.imagesPerWorkspace)
            && Freed(global, current, spent, next, l.bytesTotal, l.itemsTotal, l.imagesTotal)
  {
    if Freed(tenant, current, spent, next, l.bytesPerWorkspace, l.itemsPerWorkspace, l.imagesPerWorkspace)
       && Freed(global, current, spent, next, l.bytesTotal, l.itemsTotal, l.imagesTotal)
    {
      FreedFits(tenant, current, spent, next, l.bytesPerWorkspace, l.itemsPerWorkspace, l.imagesPerWorkspace);
      FreedFits(global, current, spent, next, l.bytesTotal, l.itemsTotal, l.imagesTotal);
    }
    if Covers(global, AsReserved(current)) && Covers(tenant, AsReserved(current)) {
      var g, t := Plus(Minus(global, AsReserved(current)), AsUsed(spent)), Plus(Minus(tenant, AsReserved(current)), AsUsed(spent));
      FreedExactly(tenant, current, spent, next, l.bytesPerWorkspace, l.itemsPerWorkspace, l.imagesPerWorkspace);
      FreedExactly(global, current, spent, next, l.bytesTotal, l.itemsTotal, l.imagesTotal);
      if Fits(g) && Fits(t) { AdmitsExactly(g, t, next, l); }
    }
  }

  /**
   A replacement takes effect exactly when both rows hold the old amount and, without
   it, have room for what is spent and reserved.  Then the old amount is given back,
   the new one reserved and what was spent used, on both rows, and the reservation
   keeps its workspace.
   */
  lemma ReplaceExactly(q: Quota, id: string, next: Request, spent: Request, key: Option<string>, expires: int, l: Limits)
    requires 0 in q.rows && RowsFit(q) && LimitsFit(l)
    requires id in q.reservations && q.reservations[id].workspace != 0 && q.reservations[id].workspace in q.rows
    ensures var t := Step(q, Replace(id, next, spent, key, expires, l)); var r := q.reservations[id];
      if FreedFor(q, r.workspace, r.amount, spent, next, l)
      then
        && Moved(q.rows, t.rows, r.workspace, c => Held(next, c) + Used(spent, c) - Held(r.amount, c))
        && t.reservations == q.reservations[id := Reservation(r.workspace, next, key, expires)]
      else t == q
  {
    var r := q.reservations[id];
    ReplacementExactly(q.rows[0], q.rows[r.workspace], r.amount, next, spent, l);
    if FreedFor(q, r.workspace, r.amount, spent, next, l) { ReplacedCells(q.rows, r.workspace, r.amount, next, spent); }
  }

  /** Consuming a reservation whole does the same with nothing left of it. */
  lemma RetireExactly(q: Quota, id: string, spent: Request, l: Limits)
    requires 0 in q.rows && RowsFit(q) && LimitsFit(l)
    requires id in q.reservations && q.reservations[id].workspace != 0 && q.reservations[id].workspace in q.rows
    ensures var t := Step(q, Retire(id, spent, l)); var r := q.reservations[id];
      if FreedFor(q, r.workspace, r.amount, spent, Nothing, l)
      then Moved(q.rows, t.rows, r.workspace, c => Used(spent, c) - Held(r.amount, c)) && t.reservations == q.reservations - {id}
      else t == q
  {
    var r := q.reservations[id];
    ReplacementExactly(q.rows[0], q.rows[r.workspace], r.amount, Nothing, spent, l);
    if FreedFor(q, r.workspace, r.amount, spent, Nothing, l) { RetiredCells(q.rows, r.workspace, r.amount, spent); }
  }

  lemma RetiredCells(rows: map<nat, Usage>, w: nat, current: Request, spent: Request)
    requires BothCover(rows, w, AsReserved(current))
    ensures Moved(rows, ReplaceRows(rows, w, current, Nothing, spent), w, c => Used(spent, c) - Held(current, c))
  {
    ReplacedCells(rows, w, current, Nothing, spent);
    var after := ReplaceRows(rows, w, current, Nothing, spent);
    forall v, c: Column | v in rows
      ensures Cell(after[v], c) == Cell(rows[v], c) + if v == 0 || v == w then Used(spent, c) - Held(current, c) else 0
    {
      assert Held(Nothing, c) == 0;
    }
  }

  /** A release takes effect exactly when both rows hold the amount: the reservation is gone and its amount given back. */
  lemma ReleaseExactly(q: Quota, id: string)
    ensures var t := Step(q, Release(id));
      if id in q.reservations && BothCover(q.rows, q.reservations[id].workspace, AsReserved(q.reservations[id].amount))
      then Moved(q.rows, t.rows, q.reservations[id].workspace, c => -Held(q.reservations[id].amount, c)) && t.reservations == q.reservations - {id}
      else t == q
  {
  }

  lemma SubtractedCells(rows: map<nat, Usage>, w: nat, d: Usage)
    requires BothCover(rows, w, d)
    ensures Moved(rows, SubtractFrom(rows, w, d), w, c => 0 - Cell(d, c))
  {
  }

  /** The batch is all one workspace's, and both rows hold what its reservations hold together. */
  ghost predicate Sweepable(q: Quota, w: nat, ids: set<string>) {
    && (forall id :: id in ids ==> id in q.reservations && q.reservations[id].workspace == w)
    && BothCover(q.rows, w, ReservedOf(q.reservations, ids))
  }

  /** A sweep gives back exactly what the swept reservations held, reserved column by reserved column. */
  lemma SweepExactly(q: Quota, w: nat, ids: set<string>)
    ensures var t := Step(q, Sweep(w, ids));
      if Sweepable(q, w, ids)
      then t.reservations == q.reservations - ids && Moved(q.rows, t.rows, w, c => 0 - Cell(ReservedOf(q.reservations, ids), c))
      else t == q
    ensures forall c: Column ::
      Cell(ReservedOf(q.reservations, ids), c) == if IsReserved(c) then Sum(ReservedCells(q.reservations, ids, c)) else 0
  {
    if Sweepable(q, w, ids) { SubtractedCells(q.rows, w, ReservedOf(q.reservations, ids)); }
    forall c: Column
      ensures Cell(ReservedOf(q.reservations, ids), c) == if IsReserved(c) then Sum(ReservedCells(q.reservations, ids, c)) else 0
    {
      match c case _ =>
    }
  }

  lemma EnsureExactly(q: Quota, w: nat)
    ensures var t := Step(q, Ensure(w));
      && t.reservations == q.reservations && t.rows.Keys == q.rows.Keys + {w}
      && (forall v :: v in q.rows ==> t.rows[v] == q.rows[v]) && (w !in q.rows ==> forall c: Column :: Cell(t.rows[w], c) == 0)
  {
  }

  /**
   A rebuild takes effect exactly when every owner has a row and the totals fit.  Then
   each owner's row is what the base tables and its own reservations add up to, row 0
   is the total of the owners, and of the other rows exactly the all-zero ones are gone.
   */
  lemma RebuildExactly(q: Quota, workspaces: set<nat>, used: map<nat, Request>)
    ensures var t := RebuildTx(q, Owners(q, workspaces), used); var owners := Owners(q, workspaces);
      if 0 in q.rows && owners <= q.rows.Keys && Fits(TotalRow(RebuiltRows(q, owners, used))) then
        && t.reservations == q.reservations
        && (forall w :: w in t.rows <==> w in q.rows && (w == 0 || w in owners || exists c: Column :: Cell(q.rows[w], c) != 0))
        && (forall w :: w in t.rows && w != 0 && w !in owners ==> t.rows[w] == q.rows[w])
        && (forall w, c: Column :: w in owners ==>
              Cell(t.rows[w], c) == (if w in used then Used(used[w], c) else 0)
                + if IsReserved(c) then ReservedTotal(q.reservations, OwnedBy(q.reservations, w), c) else 0)
        && forall c: Column :: Cell(t.rows[0], c) == Sum(TenantCells(RebuiltRows(q, owners, used), c))
      else t == q
    ensures Step(q, Rebuild(workspaces, used)) == RebuildTx(q, Owners(q, workspaces), used)
  {
    var owners := Owners(q, workspaces);
    var t, part := RebuildTx(q, owners, used), RebuiltRows(q, owners, used);
    if 0 in q.rows && owners <= q.rows.Keys && Fits(TotalRow(part)) {
      forall w | w in q.rows ensures q.rows[w] != Zero <==> exists c: Column :: Cell(q.rows[w], c) != 0 {
        NonzeroExactly(q.rows[w]);
      }
      forall w, c: Column | w in owners
        ensures Cell(t.rows[w], c) == (if w in used then Used(used[w], c) else 0)
                  + if IsReserved(c) then ReservedTotal(q.reservations, OwnedBy(q.reservations, w), c) else 0
      {
        assert t.rows[w] == RebuiltRow(q, used, w);
        RebuiltCell(q, used, w, c);
      }
      forall c: Column ensures Cell(t.rows[0], c) == Sum(TenantCells(part, c)) {
        TotalCell(part, c);
      }
    }
  }

  lemma NonzeroExactly(u: Usage)
    ensures u != Zero <==> exists c: Column :: Cell(u, c) != 0
  {
    if u != Zero {
      assert Cell(u, Blob) != 0 || Cell(u, Durable) != 0 || Cell(u, Items) != 0 || Cell(u, Images) != 0
        || Cell(u, RBlob) != 0 || Cell(u, RDurable) != 0 || Cell(u, RItems) != 0 || Cell(u, RImages) != 0;
    }
  }

  lemma RebuiltCell(q: Quota, used: map<nat, Request>, w: nat, c: Column)
    ensures Cell(RebuiltRow(q, used, w), c) == (if w in used then Used(used[w], c) else 0)
      + if IsReserved(c) then ReservedTotal(q.reservations, OwnedBy(q.reservations, w), c) else 0
  {
    match c case _ =>
  }

  lemma TotalCell(rows: map<nat, Usage>, c: Column)
    ensures Cell(TotalRow(rows), c) == Sum(TenantCells(rows, c))
  {
    match c case _ =>
  }
}
