/**
 Grids, items and equipment slots, and the grid arithmetic and grid ordering of
 LootingBots/utils/LootUtils.cs: container and item sizes, smallest-first grid sorting,
 the reserved magazine slot, category-dependent grid prioritisation and the pickup search.
 */
module Inventory {
  import opened Wrappers
  import opened Sequences

  /** The item classes the prioritisation distinguishes (BulletClass, MagazineClass, GrenadeClass). */
  datatype ItemKind = Bullet | Magazine | Grenade | OtherItem

  /** An item; `width` and `height` are its cell size as reported by CalculateCellSize. */
  datatype Item = Item(id: string, width: nat, height: nat, kind: ItemKind, questItem: bool)

  /** A rectangular grid of a searchable item together with the items placed in it. */
  datatype Grid = Grid(id: string, height: nat, width: nat, items: seq<Item>)

  /** A searchable item (rig, backpack, pockets, secure container, loot container). */
  datatype Container = Container(grids: seq<Grid>)

  /** The four equipment slots that hold grids; `None` is an empty slot. */
  datatype Equipment = Equipment(
    tacticalVest: Option<Container>,
    backpack: Option<Container>,
    pockets: Option<Container>,
    securedContainer: Option<Container>)

  /** A free position inside a grid, as found by the engine's free-space search. */
  datatype Location = Location(x: int, y: int, rotated: bool)

  /** A grid together with a free position in it (the engine's grid address). */
  datatype Address = Address(grid: Grid, location: Location)

  /**
   GetItemSize: the number of cells an item covers. It is never negative, and it is
   zero only for an item with a zero dimension, so an item with cells always takes space.
   */
  function ItemSize(it: Item): (r: int)
    ensures r >= 0
    ensures r == 0 <==> it.width == 0 || it.height == 0
    ensures r == 0 || (r >= it.width && r >= it.height)
  {
    it.width * it.height
  }

  /** Number of cells of a grid. */
  function GridArea(g: Grid): int {
    g.height * g.width
  }

  /** GetContainerSize: the grid areas accumulated in a loop over the container's grids. */
  method GetContainerSize(c: Container) returns (size: int)
    ensures size == SumOf(c.grids, GridArea)
    ensures size >= 0
  {
    size := 0;
    for i := 0 to |c.grids|
      invariant size == SumOf(c.grids[..i], GridArea)
      invariant size >= 0
    {
      assert c.grids[..i + 1] == c.grids[..i] + [c.grids[i]];
      SumOfAppend(c.grids[..i], [c.grids[i]], GridArea);
      SumOfSingleton(c.grids[i], GridArea);
      size := size + GridArea(c.grids[i]);
    }
    assert c.grids[..|c.grids|] == c.grids;
  }

  /** The left fold behind `Aggregate(0, (sum, item) => sum + item.GetItemSize())`. */
  function SizeFold(acc: int, items: seq<Item>): (r: int)
    ensures r == acc + SumOf(items, ItemSize)
    decreases |items|
  {
    if |items| == 0 then acc else SizeFold(acc + ItemSize(items[0]), items[1..])
  }

  /** GetSizeOfContainedItems: the total cell size of the items held by a grid. */
  function GetSizeOfContainedItems(g: Grid): (r: int)
    ensures r == SumOf(g.items, ItemSize)
  {
    SizeFold(0, g.items)
  }

  /** Sort key placing smaller grids first. */
  function AreaKey(g: Grid): real {
    GridArea(g) as real
  }

  /** SortGrids: the grids ordered from smallest to largest area. */
  function SortGrids(gs: seq<Grid>): (r: seq<Grid>)
    ensures multiset(r) == multiset(gs)
    ensures forall i, j :: 0 <= i < j < |r| ==> GridArea(r[i]) <= GridArea(r[j])
  {
    SortBy(gs, AreaKey)
  }

  /** Cells a grid must have, in total and free, to be held back for reloaded magazines. */
  const ReserveSlotCount := 2

  /** A grid Reserve2x1Slot may hold back. */
  predicate Reservable(g: Grid) {
    var gridSize := GridArea(g);
    gridSize >= ReserveSlotCount && gridSize - GetSizeOfContainedItems(g) >= 2
  }

  /** Reserve2x1Slot: drops the first reservable grid, if there is one. */
  function Reserve2x1Slot(gs: seq<Grid>): (r: seq<Grid>)
    ensures multiset(r) <= multiset(gs)
    ensures |r| == |gs| || |r| + 1 == |gs|
  {
    RemoveFirst(gs, Reservable)
  }

  /** When no grid is reservable, Reserve2x1Slot gives the grids back unchanged. */
  lemma ReserveKeepsGridsWithoutReservable(gs: seq<Grid>)
    requires forall i :: 0 <= i < |gs| ==> !Reservable(gs[i])
    ensures Reserve2x1Slot(gs) == gs
  {
    RemoveFirstWithoutMatch(gs, Reservable);
  }

  /**
   When the k-th grid is the first reservable one, Reserve2x1Slot removes exactly that
   grid and keeps the others in their order.
   */
  lemma ReserveRemovesFirstReservable(gs: seq<Grid>, k: nat)
    requires k < |gs| && Reservable(gs[k])
    requires forall j :: 0 <= j < k ==> !Reservable(gs[j])
    ensures Reserve2x1Slot(gs) == gs[..k] + gs[k + 1..]
  {
    RemoveFirstRemovesFirstMatch(gs, Reservable, k);
  }

  /** The grids of a slot, or none when nothing is equipped there. */
  function SlotGrids(slot: Option<Container>): seq<Grid> {
    if slot.Some? then slot.value.grids else []
  }

  /** Rig grids as prioritised: sorted smallest first, then one grid reserved. */
  function VestGroup(eq: Equipment): seq<Grid> {
    if eq.tacticalVest.Some? then Reserve2x1Slot(SortGrids(eq.tacticalVest.value.grids)) else []
  }

  /** Backpack grids as prioritised: sorted smallest first. */
  function BackpackGroup(eq: Equipment): seq<Grid> {
    if eq.backpack.Some? then SortGrids(eq.backpack.value.grids) else []
  }

  /** Every grid of every equipped slot, before any sorting or reservation. */
  function EquippedGrids(eq: Equipment): seq<Grid> {
    SlotGrids(eq.tacticalVest) + SlotGrids(eq.pockets) + SlotGrids(eq.backpack) + SlotGrids(eq.securedContainer)
  }

  /** Whether a reservable rig grid exists, i.e. whether one rig grid is withheld. */
  predicate VestHasReservable(eq: Equipment) {
    eq.tacticalVest.Some? && exists g :: g in eq.tacticalVest.value.grids && Reservable(g)
  }

  /**
   GetPrioritizedGridsForLoot: the slot groups concatenated in the order the item's
   category prefers; the secure container always comes last, in its own order.
   */
  function GetPrioritizedGridsForLoot(eq: Equipment, item: Item): (r: seq<Grid>)
    ensures item.kind == Bullet || item.kind == Magazine ==>
      r == VestGroup(eq) + SlotGrids(eq.pockets) + BackpackGroup(eq) + SlotGrids(eq.securedContainer)
    ensures item.kind == Grenade ==>
      r == SlotGrids(eq.pockets) + VestGroup(eq) + BackpackGroup(eq) + SlotGrids(eq.securedContainer)
    ensures item.kind == OtherItem ==>
      r == BackpackGroup(eq) + VestGroup(eq) + SlotGrids(eq.pockets) + SlotGrids(eq.securedContainer)
    ensures |SlotGrids(eq.securedContainer)| <= |r|
    ensures r[|r| - |SlotGrids(eq.securedContainer)|..] == SlotGrids(eq.securedContainer)
  {
    var vest := VestGroup(eq);
    var backpack := BackpackGroup(eq);
    var pockets := SlotGrids(eq.pockets);
    var secure := SlotGrids(eq.securedContainer);
    if item.kind == Bullet || item.kind == Magazine then
      vest + pockets + backpack + secure
    else if item.kind == Grenade then
      pockets + vest + backpack + secure
    else
      backpack + vest + pockets + secure
  }

  /**
   Sorting grids smallest first and then reserving one holds back exactly one grid when
   some grid is reservable: a reservable grid of least area.
   */
  lemma ReserveAfterSortWithholdsSmallest(gs: seq<Grid>)
    requires exists i :: 0 <= i < |gs| && Reservable(gs[i])
    ensures exists g :: (g in gs && Reservable(g)
      && multiset(Reserve2x1Slot(SortGrids(gs))) + multiset{g} == multiset(gs)
      && forall h :: h in gs && Reservable(h) ==> GridArea(g) <= GridArea(h))
  {
    var sorted := SortBy(gs, AreaKey);
    assert Reserve2x1Slot(SortGrids(gs)) == RemoveFirst(sorted, Reservable);
    RemoveFirstOfSortedWithholdsLeast(gs, sorted, AreaKey, Reservable);
    var g :| g in gs && Reservable(g) && multiset(RemoveFirst(sorted, Reservable)) + multiset{g} == multiset(gs)
      && forall h :: h in gs && Reservable(h) ==> AreaKey(g) <= AreaKey(h);
    forall h | h in gs && Reservable(h) ensures GridArea(g) <= GridArea(h) {
      assert AreaKey(g) <= AreaKey(h);
    }
  }

  /**
   When the rig has a reservable grid, exactly one grid is held back from it: a
   reservable one, and of those the smallest, since the rig is sorted smallest first.
   */
  lemma VestWithholdsSmallestReservable(eq: Equipment)
    requires VestHasReservable(eq)
    ensures exists g :: (g in SlotGrids(eq.tacticalVest) && Reservable(g)
      && multiset(VestGroup(eq)) + multiset{g} == multiset(SlotGrids(eq.tacticalVest))
      && forall h :: h in SlotGrids(eq.tacticalVest) && Reservable(h) ==> GridArea(g) <= GridArea(h))
  {
    var raw := eq.tacticalVest.value.grids;
    var h :| h in raw && Reservable(h);
    var i :| 0 <= i < |raw| && raw[i] == h;
    ReserveAfterSortWithholdsSmallest(raw);
  }

  /**
   The rig group is the rig's grids with at most one grid held back; that grid is the
   smallest reservable one when there is one, and none is held back otherwise.
   */
  lemma VestGroupWithholdsAtMostOne(eq: Equipment)
    ensures multiset(VestGroup(eq)) <= multiset(SlotGrids(eq.tacticalVest))
    ensures |VestGroup(eq)| + 1 >= |SlotGrids(eq.tacticalVest)|
    ensures !VestHasReservable(eq) ==> VestGroup(eq) == SortGrids(SlotGrids(eq.tacticalVest))
    ensures VestHasReservable(eq) ==> exists g :: (g in SlotGrids(eq.tacticalVest) && Reservable(g)
      && multiset(VestGroup(eq)) + multiset{g} == multiset(SlotGrids(eq.tacticalVest)))
  {
    if eq.tacticalVest.Some? {
      var raw := eq.tacticalVest.value.grids;
      var sorted := SortGrids(raw);
      assert |sorted| == |multiset(sorted)| == |multiset(raw)| == |raw|;
      if !VestHasReservable(eq) {
        forall i | 0 <= i < |sorted| ensures !Reservable(sorted[i]) {
          assert sorted[i] in multiset(raw);
        }
        ReserveKeepsGridsWithoutReservable(sorted);
      } else {
        VestWithholdsSmallestReservable(eq);
      }
    }
  }

  /** The prioritised grids hold the rig group, pockets, backpack group and secure grids, whatever their order. */
  lemma PrioritizedGridsByGroup(eq: Equipment, item: Item)
    ensures multiset(GetPrioritizedGridsForLoot(eq, item)) ==
      multiset(VestGroup(eq)) + multiset(SlotGrids(eq.pockets)) + multiset(BackpackGroup(eq)) + multiset(SlotGrids(eq.securedContainer))
    ensures |GetPrioritizedGridsForLoot(eq, item)| ==
      |VestGroup(eq)| + |SlotGrids(eq.pockets)| + |BackpackGroup(eq)| + |SlotGrids(eq.securedContainer)|
  {
  }

  /** Holding one grid back from the rig holds it back from the union of all groups. */
  lemma WithheldFromGroups(r: multiset<Grid>, all: multiset<Grid>, v: multiset<Grid>, rv: multiset<Grid>, others: multiset<Grid>, g: Grid)
    requires r == v + others && all == rv + others && v + multiset{g} == rv
    ensures r + multiset{g} == all
  {
  }

  /** When the rig has a reservable grid, the prioritised grids lack exactly one equipped grid, a reservable rig grid. */
  lemma PrioritizedGridsWithholdOneReservable(eq: Equipment, item: Item)
    requires VestHasReservable(eq)
    ensures exists g :: (g in SlotGrids(eq.tacticalVest) && Reservable(g)
      && multiset(GetPrioritizedGridsForLoot(eq, item)) + multiset{g} == multiset(EquippedGrids(eq)))
  {
    var v, rv := VestGroup(eq), SlotGrids(eq.tacticalVest);
    var others := multiset(SlotGrids(eq.pockets)) + multiset(BackpackGroup(eq)) + multiset(SlotGrids(eq.securedContainer));
    PrioritizedGridsByGroup(eq, item);
    VestGroupWithholdsAtMostOne(eq);
    assert multiset(BackpackGroup(eq)) == multiset(SlotGrids(eq.backpack));
    var g :| g in rv && Reservable(g) && multiset(v) + multiset{g} == multiset(rv);
    WithheldFromGroups(multiset(GetPrioritizedGridsForLoot(eq, item)), multiset(EquippedGrids(eq)), multiset(v), multiset(rv), others, g);
  }

  /**
   The prioritised grids are the equipped grids with at most one rig grid held back:
   nothing is lost except a reservable rig grid, exactly one of which is held back when
   the rig has one, and nothing is duplicated.
   */
  lemma PrioritizedGridsAreEquippedGrids(eq: Equipment, item: Item)
    ensures multiset(GetPrioritizedGridsForLoot(eq, item)) <= multiset(EquippedGrids(eq))
    ensures |GetPrioritizedGridsForLoot(eq, item)| + 1 >= |EquippedGrids(eq)|
    ensures !VestHasReservable(eq) ==>
      multiset(GetPrioritizedGridsForLoot(eq, item)) == multiset(EquippedGrids(eq))
    ensures VestHasReservable(eq) ==> exists g :: (g in SlotGrids(eq.tacticalVest) && Reservable(g)
      && multiset(GetPrioritizedGridsForLoot(eq, item)) + multiset{g} == multiset(EquippedGrids(eq)))
  {
    var r := GetPrioritizedGridsForLoot(eq, item);
    var v, p, b, s := VestGroup(eq), SlotGrids(eq.pockets), BackpackGroup(eq), SlotGrids(eq.securedContainer);
    var rv, rb := SlotGrids(eq.tacticalVest), SlotGrids(eq.backpack);
    PrioritizedGridsByGroup(eq, item);
    VestGroupWithholdsAtMostOne(eq);
    assert multiset(b) == multiset(rb);
    assert |b| == |multiset(b)| == |multiset(rb)| == |rb|;
    if VestHasReservable(eq) {
      PrioritizedGridsWithholdOneReservable(eq, item);
    } else {
      assert multiset(v) == multiset(rv);
    }
  }

  /**
   The search behind FindGridToPickUp: the first grid, in the given order, in which the
   free-space query finds a position.
   */
  function FirstFreeGrid(gs: seq<Grid>, item: Item, findFreeSpace: (Grid, Item) -> Option<Location>): (r: Option<Address>)
    ensures r.Some? ==> r.value.grid in gs && findFreeSpace(r.value.grid, item) == Some(r.value.location)
  {
    if |gs| == 0 then None
    else match findFreeSpace(gs[0], item)
      case Some(loc) => Some(Address(gs[0], loc))
      case None => FirstFreeGrid(gs[1..], item, findFreeSpace)
  }

  /**
   FindGridToPickUp searches the given grids, or the item's prioritised grids when no
   grids are given (a null argument).
   */
  function FindGridToPickUp(eq: Equipment, item: Item, grids: Option<seq<Grid>>,
                            findFreeSpace: (Grid, Item) -> Option<Location>): (r: Option<Address>)
    ensures grids.None? ==> r == FirstFreeGrid(GetPrioritizedGridsForLoot(eq, item), item, findFreeSpace)
    ensures grids.Some? ==> r == FirstFreeGrid(grids.value, item, findFreeSpace)
  {
    var prioritized := if grids.Some? then grids.value else GetPrioritizedGridsForLoot(eq, item);
    FirstFreeGrid(prioritized, item, findFreeSpace)
  }

  /**
   The pickup search returns the first grid with free space, with the position the
   query found, and nothing exactly when no grid has free space.
   */
  lemma {:induction false} FirstFreeGridIsFirstMatch(gs: seq<Grid>, item: Item, findFreeSpace: (Grid, Item) -> Option<Location>)
    ensures FirstFreeGrid(gs, item, findFreeSpace).None? <==>
      forall k :: 0 <= k < |gs| ==> findFreeSpace(gs[k], item).None?
    ensures FirstFreeGrid(gs, item, findFreeSpace).Some? ==>
      exists k :: 0 <= k < |gs| && findFreeSpace(gs[k], item).Some?
        && (forall j :: 0 <= j < k ==> findFreeSpace(gs[j], item).None?)
        && FirstFreeGrid(gs, item, findFreeSpace).value == Address(gs[k], findFreeSpace(gs[k], item).value)
  {
    if |gs| == 0 {
    } else if findFreeSpace(gs[0], item).Some? {
    } else {
      var tail := gs[1..];
      FirstFreeGridIsFirstMatch(tail, item, findFreeSpace);
      assert forall k :: 0 <= k < |tail| ==> tail[k] == gs[k + 1];
      if FirstFreeGrid(tail, item, findFreeSpace).Some? {
        var k :| 0 <= k < |tail| && findFreeSpace(tail[k], item).Some?
          && (forall j :: 0 <= j < k ==> findFreeSpace(tail[j], item).None?)
          && FirstFreeGrid(tail, item, findFreeSpace).value == Address(tail[k], findFreeSpace(tail[k], item).value);
        forall j | 0 <= j < k + 1 ensures findFreeSpace(gs[j], item).None? {
          if j > 0 {
            assert gs[j] == tail[j - 1];
          }
        }
        assert gs[k + 1] == tail[k];
      } else {
        forall k | 0 <= k < |gs| ensures findFreeSpace(gs[k], item).None? {
          if k > 0 {
            assert gs[k] == tail[k - 1];
          }
        }
      }
    }
  }
}
