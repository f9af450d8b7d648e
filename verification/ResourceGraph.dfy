/**
 Items, their images, and the payload rows hanging off the images.  There are
 no foreign keys: each query decides for itself which columns say who owns a
 row.  What the measuring queries, the deletes and the rebuild query count is
 compared here.
 */
module ResourceGraph {
  import opened Sums

  /** The payload tables, in the order they are deleted. */
  datatype Kind = Audits | OcrRuns | Published | Annotations | GroundTruth | Pages

  datatype Key = Key(kind: Kind, id: nat)

  datatype Item = Item(workspace: nat, manifest: nat)

  datatype Image = Image(workspace: nat, item: string)

  datatype Payload = Payload(workspace: nat, image: nat, bytes: nat)

  datatype Graph = Graph(items: map<string, Item>, images: map<nat, Image>, payloads: map<Key, Payload>)

  // ----- what each query selects -------------------------------------------------------

  predicate ItemIn(g: Graph, item: string, w: nat) {
    item in g.items && g.items[item].workspace == w
  }

  /** The payload hangs off an image of `item`, whatever workspace the image names. */
  predicate OnItem(g: Graph, k: Key, item: string) {
    k in g.payloads && g.payloads[k].image in g.images && g.images[g.payloads[k].image].item == item
  }

  /** Rebuild: OCR runs belong to their item's workspace, everything else to its own. */
  predicate Rebuilt(g: Graph, k: Key, w: nat) {
    && k in g.payloads
    && if k.kind.OcrRuns?
       then g.payloads[k].image in g.images && ItemIn(g, g.images[g.payloads[k].image].item, w)
       else g.payloads[k].workspace == w
  }

  predicate MeasuredForItem(g: Graph, k: Key, item: string, w: nat) {
    && OnItem(g, k, item)
    && if k.kind.OcrRuns? then ItemIn(g, item, w) else g.payloads[k].workspace == w
  }

  predicate MeasuredForImage(g: Graph, k: Key, m: nat, w: nat) {
    && k in g.payloads && g.payloads[k].image == m
    && (k.kind.OcrRuns? || g.payloads[k].workspace == w)
    && (k.kind.Audits? ==> m in g.images)
  }

  /** The deletes join the image and test its workspace; image 0 selects the whole item. */
  predicate Deleted(g: Graph, k: Key, w: nat, item: string, m: nat) {
    && OnItem(g, k, item)
    && g.images[g.payloads[k].image].workspace == w
    && (m == 0 || g.payloads[k].image == m)
    && g.payloads[k].workspace == w
  }

  /** Measured, but out of reach of the deletes: the payload's image names another workspace. */
  predicate Stray(g: Graph, k: Key, w: nat, item: string) {
    && OnItem(g, k, item) && !k.kind.OcrRuns?
    && g.images[g.payloads[k].image].workspace != w && g.payloads[k].workspace == w
  }

  // ----- sums --------------------------------------------------------------------------------

  function Sizes(g: Graph, ks: set<Key>): map<Key, int> {
    map k | k in g.payloads && k in ks :: g.payloads[k].bytes as int
  }

  ghost function Bytes(g: Graph, ks: set<Key>): int {
    Sum(Sizes(g, ks))
  }

  function Manifests(g: Graph, w: nat): map<string, int> {
    map i | i in g.items && g.items[i].workspace == w :: g.items[i].manifest as int
  }

  function RebuiltKeys(g: Graph, w: nat): set<Key> {
    set k | k in g.payloads && Rebuilt(g, k, w)
  }

  function ItemKeys(g: Graph, item: string, w: nat): set<Key> {
    set k | k in g.payloads && MeasuredForItem(g, k, item, w)
  }

  function ImageKeys(g: Graph, m: nat, w: nat): set<Key> {
    set k | k in g.payloads && MeasuredForImage(g, k, m, w)
  }

  function StrayKeys(g: Graph, w: nat, item: string): set<Key> {
    set k | k in g.payloads && Stray(g, k, w, item)
  }

  /** database_bytes of the rebuild query. */
  ghost function RebuiltBytes(g: Graph, w: nat): int {
    Bytes(g, RebuiltKeys(g, w)) + Sum(Manifests(g, w))
  }

  /** GetItemDurableDatabaseBytes. */
  ghost function ItemBytes(g: Graph, item: string, w: nat): int {
    Bytes(g, ItemKeys(g, item, w)) + (if ItemIn(g, item, w) then g.items[item].manifest else 0)
  }

  /** GetItemImageDurableDatabaseBytes. */
  ghost function ImageBytes(g: Graph, m: nat, w: nat): int {
    Bytes(g, ImageKeys(g, m, w))
  }

  function ItemImages(g: Graph, item: string): set<nat> {
    set m | m in g.images && g.images[m].item == item
  }

  /** image_count of the rebuild query. */
  function CountedImages(g: Graph, w: nat): set<nat> {
    set m | m in g.images && ItemIn(g, g.images[m].item, w)
  }

  // ----- deletion ------------------------------------------------------------------------------

  function DeletedKeys(g: Graph, w: nat, item: string, m: nat): set<Key> {
    set k | k in g.payloads && Deleted(g, k, w, item, m)
  }

  function DeleteItem(g: Graph, w: nat, item: string): Graph {
    var images := set m | m in g.images && g.images[m].workspace == w && g.images[m].item == item;
    Graph(g.items - {item}, g.images - images, g.payloads - DeletedKeys(g, w, item, 0))
  }

  function DeleteImage(g: Graph, w: nat, m: nat): Graph
    requires m in g.images
  {
    Graph(g.items, g.images - {m}, g.payloads - DeletedKeys(g, w, g.images[m].item, m))
  }

  // ----- lemmas about sums -------------------------------------------------------------------------

  lemma BytesSplit(g: Graph, all: set<Key>, some: set<Key>)
    requires some <= all
    ensures Bytes(g, all) == Bytes(g, some) + Bytes(g, all - some)
  {
    SumSplit(Sizes(g, all), some);
    assert Within(Sizes(g, all), some) == Sizes(g, some);
    assert Sizes(g, all) - some == Sizes(g, all - some);
  }

  lemma BytesSame(g: Graph, h: Graph, ks: set<Key>)
    requires forall k :: k in ks ==> k in g.payloads && k in h.payloads && g.payloads[k].bytes == h.payloads[k].bytes
    ensures Bytes(g, ks) == Bytes(h, ks)
  {
    assert Sizes(g, ks) == Sizes(h, ks);
  }

  function OfImage(g: Graph, ks: set<Key>, m: nat): set<Key> {
    set k | k in ks && k in g.payloads && g.payloads[k].image == m
  }

  ghost function BytesPerImage(g: Graph, ks: set<Key>, ms: set<nat>): map<nat, int> {
    map m | m in ms :: Bytes(g, OfImage(g, ks, m))
  }

  lemma {:induction false} BytesByImage(g: Graph, ks: set<Key>, ms: set<nat>)
    requires forall k :: k in ks ==> k in g.payloads && g.payloads[k].image in ms
    ensures Bytes(g, ks) == Sum(BytesPerImage(g, ks, ms))
    decreases |ms|
  {
    if ms == {} {
      assert Sizes(g, ks) == map[] && BytesPerImage(g, ks, ms) == map[];
    } else {
      var m :| m in ms;
      var mine := OfImage(g, ks, m);
      BytesSplit(g, ks, mine);
      BytesByImage(g, ks - mine, ms - {m});
      SumRemove(BytesPerImage(g, ks, ms), m);
      assert forall l :: l in ms - {m} ==> OfImage(g, ks - mine, l) == OfImage(g, ks, l);
      assert BytesPerImage(g, ks, ms) - {m} == BytesPerImage(g, ks - mine, ms - {m});
    }
  }

  // ----- the item measure is the sum of the image measures ---------------------------------------------

  ghost function ImageMeasures(g: Graph, item: string, w: nat): map<nat, int> {
    map m | m in ItemImages(g, item) :: ImageBytes(g, m, w)
  }

  lemma ItemIsSumOfImages(g: Graph, item: string, w: nat)
    requires ItemIn(g, item, w)
    ensures ItemBytes(g, item, w)
         == g.items[item].manifest + Sum(ImageMeasures(g, item, w))
  {
    var ks := ItemKeys(g, item, w);
    BytesByImage(g, ks, ItemImages(g, item));
    assert forall m :: m in ItemImages(g, item) ==> ImageKeys(g, m, w) == OfImage(g, ks, m);
    assert ImageMeasures(g, item, w) == BytesPerImage(g, ks, ItemImages(g, item));
  }

  /** Of an image that is gone, everything that still names it is measured but its audits, which join the image. */
  lemma GoneImageMeasure(g: Graph, m: nat, w: nat)
    requires m !in g.images
    ensures forall k :: k in ImageKeys(g, m, w) <==>
      k in g.payloads && g.payloads[k].image == m && k.kind != Audits && (k.kind == OcrRuns || g.payloads[k].workspace == w)
  {
  }

  // ----- deleting an item --------------------------------------------------------------------------------

  lemma ItemDeletionKeys(g: Graph, w: nat, item: string)
    requires ItemIn(g, item, w)
    ensures
      var h := DeleteItem(g, w, item);
      && RebuiltKeys(h, w) == RebuiltKeys(g, w) - (ItemKeys(g, item, w) - StrayKeys(g, w, item))
      && ItemKeys(g, item, w) <= RebuiltKeys(g, w) && StrayKeys(g, w, item) <= ItemKeys(g, item, w)
  {
  }

  lemma ItemDeletionManifests(g: Graph, w: nat, item: string, v: nat)
    requires ItemIn(g, item, w)
    ensures Sum(Manifests(DeleteItem(g, w, item), v)) == Sum(Manifests(g, v)) - (if v == w then g.items[item].manifest else 0)
  {
    if v == w {
      SumRemove(Manifests(g, w), item);
      assert Manifests(DeleteItem(g, w, item), w) == Manifests(g, w) - {item};
    } else {
      assert Manifests(DeleteItem(g, w, item), v) == Manifests(g, v);
    }
  }

  /** Deleting an item lowers the rebuilt bytes of its workspace by what was measured, less the strays. */
  lemma ItemDeletionDrop(g: Graph, w: nat, item: string)
    requires ItemIn(g, item, w)
    ensures RebuiltBytes(DeleteItem(g, w, item), w)
         == RebuiltBytes(g, w) - ItemBytes(g, item, w) + Bytes(g, StrayKeys(g, w, item))
  {
    var h := DeleteItem(g, w, item);
    var measured, stray := ItemKeys(g, item, w), StrayKeys(g, w, item);
    ItemDeletionKeys(g, w, item);
    ItemDeletionManifests(g, w, item, w);
    BytesSplit(g, RebuiltKeys(g, w), measured - stray);
    BytesSplit(g, measured, stray);
    BytesSame(g, h, RebuiltKeys(h, w));
  }

  /** No other workspace is touched. */
  lemma ItemDeletionElsewhere(g: Graph, w: nat, item: string, v: nat)
    requires ItemIn(g, item, w) && v != w
    ensures RebuiltBytes(DeleteItem(g, w, item), v) == RebuiltBytes(g, v)
    ensures CountedImages(DeleteItem(g, w, item), v) == CountedImages(g, v)
  {
    var h := DeleteItem(g, w, item);
    assert RebuiltKeys(h, v) == RebuiltKeys(g, v);
    BytesSame(g, h, RebuiltKeys(g, v));
    ItemDeletionManifests(g, w, item, v);
  }

  /**
   Subtracting what was measured leaves the counter equal to the rebuild exactly
   when no payload of the item is stray; images are always counted exactly.
   */
  lemma ItemDeletionConserves(g: Graph, w: nat, item: string, counter: int)
    requires ItemIn(g, item, w) && counter == RebuiltBytes(g, w)
    ensures counter - ItemBytes(g, item, w) == RebuiltBytes(DeleteItem(g, w, item), w)
       <==> Bytes(g, StrayKeys(g, w, item)) == 0
    ensures CountedImages(DeleteItem(g, w, item), w) == CountedImages(g, w) - ItemImages(g, item)
    ensures ItemImages(g, item) <= CountedImages(g, w)
  {
    ItemDeletionDrop(g, w, item);
  }

  /** There are no strays when the item's images name the item's own workspace. */
  lemma NoStraysWhenImagesAgree(g: Graph, w: nat, item: string)
    requires forall m :: m in ItemImages(g, item) ==> g.images[m].workspace == w
    ensures Bytes(g, StrayKeys(g, w, item)) == 0
  {
    assert StrayKeys(g, w, item) == {};
    assert Sizes(g, {}) == map[];
  }

  /** The image rows a deletion of the item is to remove. */
  predicate Owned(g: Graph, m: nat, w: nat, item: string) {
    m in g.images && g.images[m].workspace == w && g.images[m].item == item
  }

  /**
   What is left of the tables: every item but this one; every image but the workspace's
   images of it; and every payload, of whatever kind, but the workspace's payloads on
   those images.  What is left is as it was.
   */
  lemma ItemDeletionExactly(g: Graph, w: nat, item: string)
    ensures var h := DeleteItem(g, w, item);
      && (forall i :: i in h.items <==> i in g.items && i != item)
      && (forall m :: m in h.images <==> m in g.images && !Owned(g, m, w, item))
      && (forall k :: k in h.payloads <==>
            k in g.payloads && !(g.payloads[k].workspace == w && Owned(g, g.payloads[k].image, w, item)))
      && (forall i :: i in h.items ==> h.items[i] == g.items[i])
      && (forall m :: m in h.images ==> h.images[m] == g.images[m])
      && (forall k :: k in h.payloads ==> h.payloads[k] == g.payloads[k])
  {
  }

  /** So nothing of the workspace refers to the item any more. */
  lemma ItemLeavesNothingBehind(g: Graph, w: nat, item: string)
    ensures var h := DeleteItem(g, w, item);
      && item !in h.items
      && (forall m :: m in h.images && h.images[m].item == item ==> h.images[m].workspace != w)
      && (forall k :: k in h.payloads && h.payloads[k].workspace == w ==> !Owned(g, h.payloads[k].image, w, item))
  {
    ItemDeletionExactly(g, w, item);
  }

  /** An item in workspace 1 whose only image names workspace 2, and a page of `bytes` bytes on it in workspace 1. */
  function StrayGraph(bytes: nat): Graph {
    Graph(map["a" := Item(1, 0)], map[1 := Image(2, "a")], map[Key(Pages, 1) := Payload(1, 1, bytes)])
  }

  /** Deleting that item releases bytes that stay behind. */
  lemma StrayPayloadStays(bytes: nat)
    requires bytes > 0
    ensures
      var g := StrayGraph(bytes);
      RebuiltBytes(g, 1) - ItemBytes(g, "a", 1) != RebuiltBytes(DeleteItem(g, 1, "a"), 1)
  {
    var g, k := StrayGraph(bytes), Key(Pages, 1);
    assert StrayKeys(g, 1, "a") == {k};
    assert Sizes(g, {k}) == map[k := bytes as int];
    SumRemove(map[k := bytes as int], k);
    assert map[k := bytes as int] - {k} == map[];
    ItemDeletionConserves(g, 1, "a", RebuiltBytes(g, 1));
  }

  // ----- deleting one image --------------------------------------------------------------------------------

  lemma ImageDeletionDrop(g: Graph, w: nat, m: nat)
    requires m != 0 && m in g.images && ItemIn(g, g.images[m].item, w)
    ensures
      RebuiltBytes(DeleteImage(g, w, m), w) == RebuiltBytes(g, w) - ImageBytes(g, m, w)
        + (if g.images[m].workspace == w then 0 else Bytes(g, StrayKeys(g, w, g.images[m].item) * ImageKeys(g, m, w)))
  {
    var h := DeleteImage(g, w, m);
    var measured := ImageKeys(g, m, w);
    var stray := StrayKeys(g, w, g.images[m].item) * measured;
    assert RebuiltKeys(h, w) == RebuiltKeys(g, w) - (measured - stray);
    assert g.images[m].workspace == w ==> stray == {};
    assert Sizes(g, {}) == map[];
    BytesSplit(g, RebuiltKeys(g, w), measured - stray);
    BytesSplit(g, measured, stray);
    BytesSame(g, h, RebuiltKeys(h, w));
  }

  /** The one image goes, with the workspace's payloads on it if the image names that workspace; all else stays as it was. */
  lemma ImageDeletionExactly(g: Graph, w: nat, m: nat)
    requires m != 0 && m in g.images
    ensures var h := DeleteImage(g, w, m);
      && h.items == g.items
      && (forall n :: n in h.images <==> n in g.images && n != m)
      && (forall k :: k in h.payloads <==>
            k in g.payloads && !(g.payloads[k].workspace == w && g.payloads[k].image == m && g.images[m].workspace == w))
      && (forall n :: n in h.images ==> h.images[n] == g.images[n])
      && (forall k :: k in h.payloads ==> h.payloads[k] == g.payloads[k])
  {
  }

  lemma ImageDeletionElsewhere(g: Graph, w: nat, m: nat, v: nat)
    requires m != 0 && m in g.images && ItemIn(g, g.images[m].item, w) && v != w
    ensures RebuiltBytes(DeleteImage(g, w, m), v) == RebuiltBytes(g, v)
  {
    var h := DeleteImage(g, w, m);
    assert RebuiltKeys(h, v) == RebuiltKeys(g, v);
    BytesSame(g, h, RebuiltKeys(g, v));
    assert Manifests(h, v) == Manifests(g, v);
  }

  // ----- writing an image's payloads ------------------------------------------------------------------------

  /** Only payloads of image `m` change, and the ones with a workspace column stay in workspace `w`. */
  predicate WritesImage(g: Graph, h: Graph, m: nat, w: nat) {
    && h.items == g.items && h.images == g.images
    && (forall k :: k in g.payloads ==> (k in h.payloads && h.payloads[k] == g.payloads[k]) || MeasuredForImage(g, k, m, w))
    && (forall k :: k in h.payloads ==> (k in g.payloads && h.payloads[k] == g.payloads[k]) || MeasuredForImage(h, k, m, w))
  }

  /**
   Whatever a save does to the payloads of one image, adding the measured
   difference keeps the counter equal to the rebuild.
   */
  lemma ImageWriteConserves(g: Graph, h: Graph, m: nat, w: nat)
    requires m in g.images && ItemIn(g, g.images[m].item, w) && WritesImage(g, h, m, w)
    ensures RebuiltBytes(h, w) == RebuiltBytes(g, w) + ImageBytes(h, m, w) - ImageBytes(g, m, w)
  {
    assert Manifests(h, w) == Manifests(g, w);
    assert ImageKeys(g, m, w) <= RebuiltKeys(g, w) && ImageKeys(h, m, w) <= RebuiltKeys(h, w);
    BytesSplit(g, RebuiltKeys(g, w), ImageKeys(g, m, w));
    BytesSplit(h, RebuiltKeys(h, w), ImageKeys(h, m, w));
    assert RebuiltKeys(g, w) - ImageKeys(g, m, w) == RebuiltKeys(h, w) - ImageKeys(h, m, w);
    BytesSame(g, h, RebuiltKeys(g, w) - ImageKeys(g, m, w));
  }

  lemma ImageWriteElsewhere(g: Graph, h: Graph, m: nat, w: nat, v: nat)
    requires m in g.images && ItemIn(g, g.images[m].item, w) && WritesImage(g, h, m, w) && v != w
    ensures RebuiltBytes(h, v) == RebuiltBytes(g, v)
  {
    assert Manifests(h, v) == Manifests(g, v);
    assert RebuiltKeys(g, v) == RebuiltKeys(h, v);
    BytesSame(g, h, RebuiltKeys(g, v));
  }

  // ----- the statements ---------------------------------------------------------------------------------------

  const DeletionOrder: seq<Kind> := [Audits, OcrRuns, Published, Annotations, GroundTruth, Pages]

  lemma EveryKindDeleted()
    ensures forall kind: Kind :: kind in DeletionOrder
  {
    forall kind: Kind ensures kind in DeletionOrder {
      match kind
      case Audits => assert DeletionOrder[0] == kind;
      case OcrRuns => assert DeletionOrder[1] == kind;
      case Published => assert DeletionOrder[2] == kind;
      case Annotations => assert DeletionOrder[3] == kind;
      case GroundTruth => assert DeletionOrder[4] == kind;
      case Pages => assert DeletionOrder[5] == kind;
    }
  }

  class Tables {
    var items: map<string, Item>
    var images: map<nat, Image>
    var payloads: map<Key, Payload>

    function State(): Graph
      reads this
    {
      Graph(items, images, payloads)
    }

    /** DELETE child FROM child JOIN item_images target ON target.id = child.item_image_id. */
    method DeletePayloads(kind: Kind, w: nat, item: string, m: nat)
      modifies this`payloads
      ensures payloads == old(payloads) - set k | k in DeletedKeys(old(State()), w, item, m) && k.kind == kind
    {
      payloads := payloads - set k | k in payloads && k.kind == kind && Deleted(State(), k, w, item, m);
    }

    method DeletePayloadTables(w: nat, item: string, m: nat)
      modifies this`payloads
      ensures payloads == old(payloads) - DeletedKeys(old(State()), w, item, m)
    {
      ghost var all := DeletedKeys(State(), w, item, m);
      for i := 0 to |DeletionOrder|
        invariant payloads == old(payloads) - set k | k in all && k.kind in DeletionOrder[..i]
      {
        DeletePayloads(DeletionOrder[i], w, item, m);
        assert DeletionOrder[..i + 1] == DeletionOrder[..i] + [DeletionOrder[i]];
      }
      assert DeletionOrder[..|DeletionOrder|] == DeletionOrder;
      assert forall k :: k in all ==> k.kind in DeletionOrder by { EveryKindDeleted(); }
    }

    /** False, with nothing changed, when the workspace has no such item. */
    method DeleteItemForWorkspace(w: nat, item: string) returns (ok: bool)
      modifies this
      ensures ok == ItemIn(old(State()), item, w)
      ensures State() == if ok then DeleteItem(old(State()), w, item) else old(State())
    {
      ok := ItemIn(State(), item, w);
      if ok {
        DeletePayloadTables(w, item, 0);
        images := images - set m | m in images && images[m].workspace == w && images[m].item == item;
        items := items - {item};
      }
    }

    method DeleteItemImageForWorkspace(w: nat, m: nat) returns (ok: bool)
      requires m != 0
      modifies this
      ensures ok == (m in old(images) && ItemIn(old(State()), old(images)[m].item, w))
      ensures State() == if ok then DeleteImage(old(State()), w, m) else old(State())
    {
      ok := m in images && ItemIn(State(), images[m].item, w);
      if ok {
        DeletePayloadTables(w, images[m].item, m);
        images := images - {m};
      }
    }
  }
}
