/**
 Storage quota counters: one row per workspace, and row 0 for all of them
 together.  The counters are maintained by adding and subtracting, and compared
 with a full rebuild.
 */
module StorageQuota {
  import opened Nullable
  import opened Sums

  /** Upload bytes, durable database bytes, items and images. */
  datatype Request = Request(bytes: nat, durable: nat, items: nat, images: nat)

  /** A counter row, or an amount to add to one. */
  datatype Usage = Usage(
    blob: nat, durable: nat, items: nat, images: nat,
    reservedBlob: nat, reservedDurable: nat, reservedItems: nat, reservedImages: nat)

  datatype Reservation = Reservation(workspace: nat, amount: Request, key: Option<string>, expires: int)

  datatype Quota = Quota(rows: map<nat, Usage>, reservations: map<string, Reservation>)

  datatype Limits = Limits(
    bytesPerWorkspace: nat, bytesTotal: nat,
    itemsPerWorkspace: nat, itemsTotal: nat,
    imagesPerWorkspace: nat, imagesTotal: nat)

  const MAX_UINT64 := 0xFFFF_FFFF_FFFF_FFFF

  const Nothing := Request(0, 0, 0, 0)
  const Zero := Usage(0, 0, 0, 0, 0, 0, 0, 0)

  function AsUsed(r: Request): Usage {
    Usage(r.bytes, r.durable, r.items, r.images, 0, 0, 0, 0)
  }

  function AsReserved(r: Request): Usage {
    Usage(0, 0, 0, 0, r.bytes, r.durable, r.items, r.images)
  }

  function Plus(a: Usage, b: Usage): Usage {
    Usage(a.blob + b.blob, a.durable + b.durable, a.items + b.items, a.images + b.images,
          a.reservedBlob + b.reservedBlob, a.reservedDurable + b.reservedDurable,
          a.reservedItems + b.reservedItems, a.reservedImages + b.reservedImages)
  }

  predicate Covers(a: Usage, b: Usage) {
    && a.blob >= b.blob && a.durable >= b.durable && a.items >= b.items && a.images >= b.images
    && a.reservedBlob >= b.reservedBlob && a.reservedDurable >= b.reservedDurable
    && a.reservedItems >= b.reservedItems && a.reservedImages >= b.reservedImages
  }

  function Minus(a: Usage, b: Usage): Usage
    requires Covers(a, b)
  {
    Usage(a.blob - b.blob, a.durable - b.durable, a.items - b.items, a.images - b.images,
          a.reservedBlob - b.reservedBlob, a.reservedDurable - b.reservedDurable,
          a.reservedItems - b.reservedItems, a.reservedImages - b.reservedImages)
  }

  /** BIGINT UNSIGNED. */
  predicate Fits(a: Usage) {
    && a.blob <= MAX_UINT64 && a.durable <= MAX_UINT64 && a.items <= MAX_UINT64 && a.images <= MAX_UINT64
    && a.reservedBlob <= MAX_UINT64 && a.reservedDurable <= MAX_UINT64
    && a.reservedItems <= MAX_UINT64 && a.reservedImages <= MAX_UINT64
  }

  datatype Column = Blob | Durable | Items | Images | RBlob | RDurable | RItems | RImages

  function Cell(u: Usage, c: Column): nat {
    match c
    case Blob => u.blob
    case Durable => u.durable
    case Items => u.items
    case Images => u.images
    case RBlob => u.reservedBlob
    case RDurable => u.reservedDurable
    case RItems => u.reservedItems
    case RImages => u.reservedImages
  }

  predicate IsReserved(c: Column) {
    c == RBlob || c == RDurable || c == RItems || c == RImages
  }

  // ----- the admission check -----------------------------------------------------

  /** Written so that it cannot overflow an unsigned 64-bit integer. */
  function Exceeds(used: nat, reserved: nat, requested: nat, limit: nat): (r: bool)
    ensures r <==> used + reserved + requested > limit
  {
    if used > limit || reserved > limit - used then true
    else requested > limit - used - reserved
  }

  function AddUint64(a: nat, b: nat): Option<nat> {
    if b > MAX_UINT64 - a then None else Some(a + b)
  }

  /** checkStorageQuotaCounters, with its overflow checks. */
  function Admits(global: Usage, workspace: Usage, r: Request, l: Limits): bool {
    match (AddUint64(workspace.blob, workspace.durable), AddUint64(workspace.reservedBlob, workspace.reservedDurable),
           AddUint64(global.blob, global.durable), AddUint64(global.reservedBlob, global.reservedDurable),
           AddUint64(r.bytes, r.durable))
    case (Some(wu), Some(wr), Some(gu), Some(gr), Some(q)) =>
      && !Exceeds(wu, wr, q, l.bytesPerWorkspace)
      && !Exceeds(gu, gr, q, l.bytesTotal)
      && !Exceeds(workspace.items, workspace.reservedItems, r.items, l.itemsPerWorkspace)
      && !Exceeds(global.items, global.reservedItems, r.items, l.itemsTotal)
      && !Exceeds(workspace.images, workspace.reservedImages, r.images, l.imagesPerWorkspace)
      && !Exceeds(global.images, global.reservedImages, r.images, l.imagesTotal)
    case _ => false
  }

  /** A row, with everything reserved on it counted as used, is within one set of limits. */
  predicate RowWithin(u: Usage, bytes: nat, items: nat, images: nat) {
    && u.blob + u.durable + u.reservedBlob + u.reservedDurable <= bytes
    && u.items + u.reservedItems <= items
    && u.images + u.reservedImages <= images
  }

  predicate Within(global: Usage, workspace: Usage, l: Limits) {
    && RowWithin(workspace, l.bytesPerWorkspace, l.itemsPerWorkspace, l.imagesPerWorkspace)
    && RowWithin(global, l.bytesTotal, l.itemsTotal, l.imagesTotal)
  }

  predicate LimitsFit(l: Limits) {
    && l.bytesPerWorkspace <= MAX_UINT64 && l.bytesTotal <= MAX_UINT64 && l.itemsPerWorkspace <= MAX_UINT64
    && l.itemsTotal <= MAX_UINT64 && l.imagesPerWorkspace <= MAX_UINT64 && l.imagesTotal <= MAX_UINT64
  }

  /** The overflow-safe check is the plain one: the request is admitted exactly when both rows stay within the limits. */
  lemma AdmitsExactly(global: Usage, workspace: Usage, r: Request, l: Limits)
    requires Fits(global) && Fits(workspace) && LimitsFit(l)
    ensures Admits(global, workspace, r, l) <==> Within(Plus(global, AsReserved(r)), Plus(workspace, AsReserved(r)), l)
  {
  }

  /** checkStorageQuotaReplacement: drop `current`, add `spent` to the used side, then admit `next`. */
  predicate AdmitsReplacement(global: Usage, workspace: Usage, current: Request, next: Request, spent: Request, l: Limits) {
    && Covers(global, AsReserved(current)) && Covers(workspace, AsReserved(current))
    && Fits(Plus(Minus(global, AsReserved(current)), AsUsed(spent)))
    && Fits(Plus(Minus(workspace, AsReserved(current)), AsUsed(spent)))
    && Admits(Plus(Minus(global, AsReserved(current)), AsUsed(spent)),
              Plus(Minus(workspace, AsReserved(current)), AsUsed(spent)), next, l)
  }

  const Unbounded := Limits(MAX_UINT64, MAX_UINT64, MAX_UINT64, MAX_UINT64, MAX_UINT64, MAX_UINT64)

  // ----- statements ----------------------------------------------------------------

  /** UPDATE ... WHERE workspace_id IN (0, ?). */
  function AddTo(rows: map<nat, Usage>, workspace: nat, d: Usage): map<nat, Usage> {
    map w | w in rows :: if w == 0 || w == workspace then Plus(rows[w], d) else rows[w]
  }

  /** The guarded subtraction tests each of the two rows on its own. */
  function SubtractFrom(rows: map<nat, Usage>, workspace: nat, d: Usage): map<nat, Usage> {
    map w | w in rows :: if (w == 0 || w == workspace) && Covers(rows[w], d) then Minus(rows[w], d) else rows[w]
  }

  predicate BothCover(rows: map<nat, Usage>, workspace: nat, d: Usage) {
    0 in rows && workspace in rows && Covers(rows[0], d) && Covers(rows[workspace], d)
  }

  // ----- transactions ----------------------------------------------------------------

  datatype Event =
    | Ensure(workspace: nat)
    | Reserve(id: string, workspace: nat, amount: Request, expires: int, limits: Limits)
    /** Resize, staging and transfer: the reservation becomes `next`, and `spent` becomes used. */
    | Replace(id: string, next: Request, spent: Request, key: Option<string>, expires: int, limits: Limits)
    /** Single-file ingest: the reservation is consumed whole. */
    | Retire(id: string, spent: Request, limits: Limits)
    | Release(id: string)
    | Sweep(workspace: nat, ids: set<string>)
    | Grow(workspace: nat, amount: Request, limits: Limits)
    | AddUsed(workspace: nat, amount: Request)
    | SubtractUsed(workspace: nat, amount: Request)
    | Rebuild(workspaces: set<nat>, used: map<nat, Request>)

  predicate Locked(q: Quota, workspace: nat) {
    workspace != 0 && workspace in q.rows && 0 in q.rows
  }

  function ReplaceRows(rows: map<nat, Usage>, workspace: nat, current: Request, next: Request, spent: Request): map<nat, Usage> {
    AddTo(AddTo(SubtractFrom(rows, workspace, AsReserved(current)), workspace, AsReserved(next)), workspace, AsUsed(spent))
  }

  ghost function Step(q: Quota, e: Event): Quota {
    match e
    case Ensure(workspace) => if workspace in q.rows then q else q.(rows := q.rows[workspace := Zero])
    case Reserve(id, workspace, amount, expires, limits) =>
      if !Locked(q, workspace) || amount == Nothing || id in q.reservations
         || !Admits(q.rows[0], q.rows[workspace], amount, limits)
      then q
      else Quota(AddTo(q.rows, workspace, AsReserved(amount)),
                 q.reservations[id := Reservation(workspace, amount, None, expires)])
    case Replace(id, next, spent, key, expires, limits) =>
      if id !in q.reservations || !Locked(q, q.reservations[id].workspace) then q else
      var r := q.reservations[id];
      if !AdmitsReplacement(q.rows[0], q.rows[r.workspace], r.amount, next, spent, limits) then q
      else Quota(ReplaceRows(q.rows, r.workspace, r.amount, next, spent),
                 q.reservations[id := Reservation(r.workspace, next, key, expires)])
    case Retire(id, spent, limits) =>
      if id !in q.reservations || !Locked(q, q.reservations[id].workspace) then q else
      var r := q.reservations[id];
      if !AdmitsReplacement(q.rows[0], q.rows[r.workspace], r.amount, Nothing, spent, limits) then q
      else Quota(ReplaceRows(q.rows, r.workspace, r.amount, Nothing, spent), q.reservations - {id})
    case Release(id) =>
      if id !in q.reservations || !BothCover(q.rows, q.reservations[id].workspace, AsReserved(q.reservations[id].amount)) then q
      else Quota(SubtractFrom(q.rows, q.reservations[id].workspace, AsReserved(q.reservations[id].amount)), q.reservations - {id})
    case Sweep(workspace, ids) =>
      if !(forall id :: id in ids ==> id in q.reservations && q.reservations[id].workspace == workspace)
         || !BothCover(q.rows, workspace, ReservedOf(q.reservations, ids))
      then q
      else Quota(SubtractFrom(q.rows, workspace, ReservedOf(q.reservations, ids)), q.reservations - ids)
    case Grow(workspace, amount, limits) =>
      if !Locked(q, workspace) || !Admits(q.rows[0], q.rows[workspace], amount, limits) then q
      else q.(rows := AddTo(q.rows, workspace, AsUsed(amount)))
    case AddUsed(workspace, amount) =>
      if !Locked(q, workspace) || !Fits(Plus(q.rows[0], AsUsed(amount))) || !Fits(Plus(q.rows[workspace], AsUsed(amount))) then q
      else q.(rows := AddTo(q.rows, workspace, AsUsed(amount)))
    case SubtractUsed(workspace, amount) =>
      if workspace == 0 || !BothCover(q.rows, workspace, AsUsed(amount)) then q
      else q.(rows := SubtractFrom(q.rows, workspace, AsUsed(amount)))
    case Rebuild(workspaces, used) => RebuildTx(q, Owners(q, workspaces), used)
  }

  // ----- sums over the tables ----------------------------------------------------------

  function ReservedCells(reservations: map<string, Reservation>, ids: set<string>, c: Column): map<string, int> {
    map id | id in reservations && id in ids :: Cell(AsReserved(reservations[id].amount), c) as int
  }

  ghost function ReservedTotal(reservations: map<string, Reservation>, ids: set<string>, c: Column): nat {
    SumNonnegative(ReservedCells(reservations, ids, c));
    Sum(ReservedCells(reservations, ids, c))
  }

  /** Everything the given reservations hold. */
  ghost function ReservedOf(reservations: map<string, Reservation>, ids: set<string>): Usage {
    Usage(0, 0, 0, 0,
          ReservedTotal(reservations, ids, RBlob), ReservedTotal(reservations, ids, RDurable),
          ReservedTotal(reservations, ids, RItems), ReservedTotal(reservations, ids, RImages))
  }

  /** The reservations of one workspace. */
  function OwnedBy(reservations: map<string, Reservation>, workspace: nat): set<string> {
    set id | id in reservations && reservations[id].workspace == workspace
  }

  function TenantCells(rows: map<nat, Usage>, c: Column): map<nat, int> {
    map w | w in rows && w != 0 :: Cell(rows[w], c) as int
  }

  /** Row 0 is the sum of the tenant rows, column by column. */
  ghost predicate GlobalIsSum(rows: map<nat, Usage>) {
    0 in rows && forall c: Column :: Cell(rows[0], c) == Sum(TenantCells(rows, c))
  }

  /** Each tenant's reserved counters are the sum of its reservation rows. */
  ghost predicate ReservedIsSum(q: Quota) {
    && (forall id :: id in q.reservations ==> q.reservations[id].workspace != 0 && q.reservations[id].workspace in q.rows)
    && forall w, c: Column :: w in q.rows && w != 0 && IsReserved(c) ==>
         Cell(q.rows[w], c) == ReservedTotal(q.reservations, OwnedBy(q.reservations, w), c)
  }

  /** Workspaces to rebuild: the live ones, those with cleanup rows, and those with reservations. */
  function Owners(q: Quota, workspaces: set<nat>): set<nat> {
    (workspaces + set id | id in q.reservations :: q.reservations[id].workspace) - {0}
  }

  /** One row of the rebuild query; `used` is what the base tables add up to. */
  ghost function RebuiltRow(q: Quota, used: map<nat, Request>, w: nat): Usage {
    Plus(AsUsed(if w in used then used[w] else Nothing), ReservedOf(q.reservations, OwnedBy(q.reservations, w)))
  }

  ghost function RebuiltRows(q: Quota, owners: set<nat>, used: map<nat, Request>): map<nat, Usage> {
    map w | w in owners :: RebuiltRow(q, used, w)
  }

  ghost function ColumnTotal(rows: map<nat, Usage>, c: Column): nat {
    SumNonnegative(TenantCells(rows, c));
    Sum(TenantCells(rows, c))
  }

  ghost function TotalRow(rows: map<nat, Usage>): Usage {
    Usage(ColumnTotal(rows, Blob), ColumnTotal(rows, Durable), ColumnTotal(rows, Items), ColumnTotal(rows, Images),
          ColumnTotal(rows, RBlob), ColumnTotal(rows, RDurable), ColumnTotal(rows, RItems), ColumnTotal(rows, RImages))
  }

  /**
   Replace every owner's row, replace row 0 by their total, and delete the rows
   of non-owners that are all zero.
   */
  function Rebuilt(rows: map<nat, Usage>, part: map<nat, Usage>, total: Usage): map<nat, Usage> {
    map w | w in rows && (w == 0 || w in part || rows[w] != Zero) ::
      if w == 0 then total else if w in part then part[w] else rows[w]
  }

  /** An owner without a row aborts the rebuild, and so does a total that does not fit its column. */
  ghost function RebuildTx(q: Quota, owners: set<nat>, used: map<nat, Request>): Quota {
    var part := RebuiltRows(q, owners, used);
    if !(owners <= q.rows.Keys) || 0 !in q.rows || !Fits(TotalRow(part)) then q
    else q.(rows := Rebuilt(q.rows, part, TotalRow(part)))
  }

  ghost predicate Balanced(q: Quota) {
    GlobalIsSum(q.rows) && ReservedIsSum(q)
  }

  lemma CellPlus(a: Usage, b: Usage, c: Column)
    ensures Cell(Plus(a, b), c) == Cell(a, c) + Cell(b, c)
    ensures Covers(a, b) ==> Cell(Minus(a, b), c) == Cell(a, c) - Cell(b, c)
  {
  }

  /** A tenant row never exceeds row 0. */
  lemma GlobalCoversTenant(rows: map<nat, Usage>, w: nat)
    requires GlobalIsSum(rows) && w in rows && w != 0
    ensures Covers(rows[0], rows[w])
  {
    forall c: Column ensures Cell(rows[w], c) <= Cell(rows[0], c) {
      SumBounds(TenantCells(rows, c), w);
    }
    assert Cell(rows[w], Blob) <= Cell(rows[0], Blob) && Cell(rows[w], Durable) <= Cell(rows[0], Durable);
    assert Cell(rows[w], Items) <= Cell(rows[0], Items) && Cell(rows[w], Images) <= Cell(rows[0], Images);
    assert Cell(rows[w], RBlob) <= Cell(rows[0], RBlob) && Cell(rows[w], RDurable) <= Cell(rows[0], RDurable);
    assert Cell(rows[w], RItems) <= Cell(rows[0], RItems) && Cell(rows[w], RImages) <= Cell(rows[0], RImages);
  }

  /** A guarded subtraction matches both rows exactly when the tenant guard holds. */
  lemma TenantGuardDecides(rows: map<nat, Usage>, w: nat, d: Usage)
    requires GlobalIsSum(rows) && w in rows && w != 0
    ensures BothCover(rows, w, d) <==> Covers(rows[w], d)
  {
    GlobalCoversTenant(rows, w);
  }

  lemma AddKeepsGlobal(rows: map<nat, Usage>, w: nat, d: Usage)
    requires GlobalIsSum(rows) && w in rows && w != 0
    ensures GlobalIsSum(AddTo(rows, w, d))
  {
    var after := AddTo(rows, w, d);
    forall c: Column ensures Cell(after[0], c) == Sum(TenantCells(after, c)) {
      CellPlus(rows[0], d, c);
      CellPlus(rows[w], d, c);
      SumUpdate(TenantCells(rows, c), w, Cell(rows[w], c) + Cell(d, c));
      assert TenantCells(after, c) == TenantCells(rows, c)[w := Cell(rows[w], c) + Cell(d, c)];
    }
  }

  lemma SubtractKeepsGlobal(rows: map<nat, Usage>, w: nat, d: Usage)
    requires GlobalIsSum(rows) && w != 0 && BothCover(rows, w, d)
    ensures GlobalIsSum(SubtractFrom(rows, w, d))
  {
    var after := SubtractFrom(rows, w, d);
    forall c: Column ensures Cell(after[0], c) == Sum(TenantCells(after, c)) {
      CellPlus(rows[0], d, c);
      CellPlus(rows[w], d, c);
      SumUpdate(TenantCells(rows, c), w, Cell(rows[w], c) - Cell(d, c));
      assert TenantCells(after, c) == TenantCells(rows, c)[w := Cell(rows[w], c) - Cell(d, c)];
    }
  }

  // ----- reserved counters follow the reservation table ----------------------------------

  /** Adding, changing or dropping one reservation moves its owner's total by that much and no other total. */
  lemma ReservationSet(reservations: map<string, Reservation>, id: string, r: Reservation, w: nat, c: Column)
    requires id in reservations ==> reservations[id].workspace == r.workspace
    ensures
      var after := reservations[id := r];
      ReservedTotal(after, OwnedBy(after, w), c) ==
        ReservedTotal(reservations, OwnedBy(reservations, w), c)
        - (if w == r.workspace && id in reservations then Cell(AsReserved(reservations[id].amount), c) else 0)
        + (if w == r.workspace then Cell(AsReserved(r.amount), c) else 0)
  {
    var after := reservations[id := r];
    var cells := ReservedCells(reservations, OwnedBy(reservations, w), c);
    var cells' := ReservedCells(after, OwnedBy(after, w), c);
    if w == r.workspace {
      SumUpdate(cells, id, Cell(AsReserved(r.amount), c));
      assert cells' == cells[id := Cell(AsReserved(r.amount), c)];
    } else {
      assert cells' == cells;
    }
  }

  lemma DroppedCells(reservations: map<string, Reservation>, ids: set<string>, w: nat, c: Column)
    ensures
      ReservedCells(reservations - ids, OwnedBy(reservations - ids, w), c)
      == ReservedCells(reservations, OwnedBy(reservations, w), c) - ids
  {
  }

  lemma ReservationsDropped(reservations: map<string, Reservation>, ids: set<string>, owner: nat, w: nat, c: Column)
    requires forall id :: id in ids ==> id in reservations && reservations[id].workspace == owner
    ensures
      var after := reservations - ids;
      ReservedTotal(after, OwnedBy(after, w), c) ==
        ReservedTotal(reservations, OwnedBy(reservations, w), c) - (if w == owner then ReservedTotal(reservations, ids, c) else 0)
  {
    var cells := ReservedCells(reservations, OwnedBy(reservations, w), c);
    DroppedCells(reservations, ids, w, c);
    if w == owner {
      SumSplit(cells, ids);
      assert Sums.Within(cells, ids) == ReservedCells(reservations, ids, c);
    } else {
      assert cells - ids == cells;
    }
  }

  lemma OwnerCoversCell(q: Quota, ids: set<string>, w: nat, c: Column)
    requires ReservedIsSum(q) && w in q.rows && w != 0 && IsReserved(c)
    requires forall id :: id in ids ==> id in q.reservations && q.reservations[id].workspace == w
    ensures ReservedTotal(q.reservations, ids, c) <= Cell(q.rows[w], c)
  {
    ReservationsDropped(q.reservations, ids, w, w, c);
  }

  lemma OwnerCoversReservation(q: Quota, ids: set<string>, w: nat)
    requires ReservedIsSum(q) && w in q.rows && w != 0
    requires forall id :: id in ids ==> id in q.reservations && q.reservations[id].workspace == w
    ensures Covers(q.rows[w], ReservedOf(q.reservations, ids))
  {
    OwnerCoversCell(q, ids, w, RBlob);
    OwnerCoversCell(q, ids, w, RDurable);
    OwnerCoversCell(q, ids, w, RItems);
    OwnerCoversCell(q, ids, w, RImages);
  }

  lemma SingleReservationCell(reservations: map<string, Reservation>, id: string, c: Column)
    requires id in reservations
    ensures ReservedTotal(reservations, {id}, c) == Cell(AsReserved(reservations[id].amount), c)
  {
    var cells := ReservedCells(reservations, {id}, c);
    SumRemove(cells, id);
    assert cells - {id} == map[];
  }

  lemma SingleReservation(reservations: map<string, Reservation>, id: string)
    requires id in reservations
    ensures ReservedOf(reservations, {id}) == AsReserved(reservations[id].amount)
  {
    SingleReservationCell(reservations, id, RBlob);
    SingleReservationCell(reservations, id, RDurable);
    SingleReservationCell(reservations, id, RItems);
    SingleReservationCell(reservations, id, RImages);
  }

  /** Releasing or sweeping never underflows and never rolls back: the counters always cover the rows they came from. */
  lemma ReleaseNeverUnderflows(q: Quota, ids: set<string>, w: nat)
    requires Balanced(q) && w in q.rows && w != 0
    requires forall id :: id in ids ==> id in q.reservations && q.reservations[id].workspace == w
    ensures BothCover(q.rows, w, ReservedOf(q.reservations, ids))
  {
    OwnerCoversReservation(q, ids, w);
    TenantGuardDecides(q.rows, w, ReservedOf(q.reservations, ids));
  }
}
